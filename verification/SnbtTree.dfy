/** The exact round trip of SNBT for trees: the text may be read as any walk of the tree. The proof counts
    quote characters, which a reading can only lose by not reading a quoted name. */
module SnbtTree {
  import opened Bytes
  import opened Nbt
  import opened SnbtText
  import opened Snbt
  import opened SnbtExact

  // ---------------------------------------------------------------------
  // Counting characters of a text
  // ---------------------------------------------------------------------

  function Count(s: string, c: char): nat {
    if s == [] then 0 else (if s[0] == c then 1 else 0) + Count(s[1..], c)
  }

  lemma {:induction false} CountConcat(a: string, b: string, c: char)
    ensures Count(a + b, c) == Count(a, c) + Count(b, c)
  {
    if a == [] {
      assert a + b == b;
    } else {
      CountConcat(a[1..], b, c);
      assert (a + b)[1..] == a[1..] + b;
    }
  }

  /** The double quotes that a backslash escapes; `after` says that one comes just before `s`. */
  function Escaped(s: string, after: bool): nat {
    if s == [] then 0
    else if after then (if s[0] == '"' then 1 else 0) + Escaped(s[1..], false)
    else Escaped(s[1..], s[0] == '\\')
  }

  /** The double quotes that none escapes. */
  function Loose(s: string, after: bool): nat {
    if s == [] then 0
    else if after then Loose(s[1..], false)
    else (if s[0] == '"' then 1 else 0) + Loose(s[1..], s[0] == '\\')
  }

  /** Every string begun outside a string is one that a delimiter follows, as far as the first
      backslash outside a string; no reading gets past that. */
  predicate Aligned(s: string)
    decreases |s|
  {
    s == [] || s[0] == '\\' ||
    if s[0] == '"' then
      var u := Unquote(s[1..], '"', false);
      u.Some? && Ends(u.value.1) && Aligned(u.value.1)
    else Aligned(s[1..])
  }

  predicate Ends(rest: string) {
    rest == [] || rest[0] in ",]}"
  }

  predicate Raw(c: char) {
    c != '\\' && c != '\'' && c != '"'
  }

  // ---------------------------------------------------------------------
  // What a reading costs
  // ---------------------------------------------------------------------

  /** Going from `s` to `rest` uses up `a` single quotes. If it uses up no more than that, then it also
      uses up `b` escaped double quotes and, in an aligned text, is `clean` and leaves an aligned text. */
  predicate Gain(s: string, a: nat, b: nat, clean: bool, rest: string) {
    && Count(s, '\'') >= a + Count(rest, '\'')
    && (Count(s, '\'') == a + Count(rest, '\'') ==>
          Escaped(s, false) >= b + Escaped(rest, false) && (Aligned(s) ==> clean && Aligned(rest)))
  }

  lemma GainThen(s: string, a: nat, b: nat, clean: bool, mid: string, a': nat, b': nat, clean': bool, rest: string)
    requires Gain(s, a, b, clean, mid) && Gain(mid, a', b', clean', rest)
    ensures Gain(s, a + a', b + b', clean && clean', rest)
  {
  }

  lemma GainNothing(s: string)
    ensures Gain(s, 0, 0, true, s)
  {
  }

  lemma RawGain(s: string)
    requires s != [] && Raw(s[0])
    ensures Gain(s, 0, 0, true, s[1..])
  {
  }

  lemma {:induction false} SpaceGain(p: Platform, s: string)
    requires Lawful(p)
    ensures Gain(s, 0, 0, true, SkipSpace(p, s))
  {
    hide Gain;
    if s != [] && p.whitespace(s[0]) {
      RawGain(s);
      SpaceGain(p, s[1..]);
      GainThen(s, 0, 0, true, s[1..], 0, 0, true, SkipSpace(p, s));
    } else {
      GainNothing(s);
    }
  }

  /** Past one raw character and the space after it. */
  lemma StepGain(p: Platform, s: string)
    requires Lawful(p) && s != [] && Raw(s[0])
    ensures Gain(s, 0, 0, true, s[1..]) && Gain(s, 0, 0, true, SkipSpace(p, s[1..]))
  {
    hide Gain;
    RawGain(s);
    SpaceGain(p, s[1..]);
    GainThen(s, 0, 0, true, s[1..], 0, 0, true, SkipSpace(p, s[1..]));
  }

  lemma {:induction false} IdentGain(p: Platform, s: string)
    requires Lawful(p)
    ensures Gain(s, 0, 0, true, TakeIdent(p, s).1)
    ensures Count(TakeIdent(p, s).0, '\'') == 0 && Count(TakeIdent(p, s).0, '"') == 0
  {
    hide Gain;
    if s != [] && IdentChar(p, s[0]) {
      var (t, rest) := TakeIdent(p, s[1..]);
      RawGain(s);
      IdentGain(p, s[1..]);
      GainThen(s, 0, 0, true, s[1..], 0, 0, true, rest);
      assert ([s[0]] + t)[1..] == t;
    } else {
      GainNothing(s);
    }
  }

  lemma {:induction false} ScanGain(s: string, dotted: bool)
    ensures Gain(s, 0, 0, true, Scan(s, dotted).1)
  {
    hide Gain;
    if s != [] && (Digit(s[0]) || (s[0] == '.' && !dotted)) {
      var dotted' := if Digit(s[0]) then dotted else true;
      RawGain(s);
      ScanGain(s[1..], dotted');
      GainThen(s, 0, 0, true, s[1..], 0, 0, true, Scan(s[1..], dotted').1);
    } else {
      GainNothing(s);
    }
  }

  lemma NumberGain(p: Platform, s: string)
    requires ParseNumber(p, s).Ok?
    ensures Gain(s, 0, 0, true, ParseNumber(p, s).value.1)
  {
    hide Gain, Scan, NumberValue;
    var rest := Token(s).1;
    if HasSign(s) {
      RawGain(s);
      ScanGain(s[1..], false);
      GainThen(s, 0, 0, true, s[1..], 0, 0, true, rest);
    } else {
      ScanGain(s, false);
    }
    if rest != [] && TypeSuffix(rest[0]) {
      RawGain(rest);
      GainThen(s, 0, 0, true, rest, 0, 0, true, rest[1..]);
    }
  }

  lemma {:induction false} ElementsGain(p: Platform, kind: char, s: string)
    requires Lawful(p) && ParseElements(p, kind, s).Ok?
    ensures Gain(s, 0, 0, true, ParseElements(p, kind, s).value.1)
    decreases |s|
  {
    hide Gain, ParseNumber, SkipSpace;
    var rest := ParseNumber(p, s).value.1;
    var next := SkipSpace(p, rest);
    NumberGain(p, s);
    SpaceGain(p, rest);
    GainThen(s, 0, 0, true, rest, 0, 0, true, next);
    StepGain(p, next);
    if next[0] == ',' {
      var more := SkipSpace(p, next[1..]);
      ElementsGain(p, kind, more);
      GainThen(s, 0, 0, true, next, 0, 0, true, more);
      GainThen(s, 0, 0, true, more, 0, 0, true, ParseElements(p, kind, more).value.1);
    } else {
      GainThen(s, 0, 0, true, next, 0, 0, true, next[1..]);
    }
  }

  lemma TypedGain(p: Platform, kind: char, s: string)
    requires Lawful(p) && ParseTypedArray(p, kind, s).Ok?
    ensures Gain(s, 0, 0, true, ParseTypedArray(p, kind, s).value.1)
  {
    hide Gain, ParseElements, SkipSpace;
    var first := SkipSpace(p, s);
    SpaceGain(p, s);
    if first != [] && first[0] == ']' {
      StepGain(p, first);
      GainThen(s, 0, 0, true, first, 0, 0, true, first[1..]);
    } else {
      ElementsGain(p, kind, first);
      GainThen(s, 0, 0, true, first, 0, 0, true, ParseElements(p, kind, first).value.1);
    }
  }

  /** What a quoted string holds is there between its quotes: its single quotes, and its double quotes
      with a backslash each if the string is double-quoted. */
  lemma {:induction false} UnquoteCounts(s: string, quote: char, after: bool)
    requires (quote == '"' || quote == '\'') && Unquote(s, quote, after).Some?
    ensures var (t, rest) := Unquote(s, quote, after).value;
      && Count(s, '\'') == Count(t, '\'') + Count(rest, '\'') + (if quote == '\'' then 1 else 0)
      && (quote == '"' ==> Escaped(s, after) == Count(t, '"') + Escaped(rest, false))
    decreases |s|
  {
    if after {
      UnquoteCounts(s[1..], quote, false);
      var t := Unquote(s[1..], quote, false).value.0;
      CountConcat(Unescape(s[0]), t, '\'');
      CountConcat(Unescape(s[0]), t, '"');
      UnescapeCounts(s[0]);
    } else if s[0] == '\\' {
      UnquoteCounts(s[1..], quote, true);
    } else if s[0] != quote {
      UnquoteCounts(s[1..], quote, false);
      var t := Unquote(s[1..], quote, false).value.0;
      assert ([s[0]] + t)[1..] == t;
    }
  }

  lemma UnescapeCounts(c: char)
    ensures Count(Unescape(c), '\'') == (if c == '\'' then 1 else 0)
    ensures Count(Unescape(c), '"') == (if c == '"' then 1 else 0)
  {
    var u := Unescape(c);
    CountOne(c);
    if |u| == 2 {
      assert u == ['\\'] + [c];
      CountConcat(['\\'], [c], '\'');
      CountConcat(['\\'], [c], '"');
      CountOne('\\');
    } else {
      CountOne(u[0]);
      assert u == [u[0]];
    }
  }

  lemma CountOne(c: char)
    ensures Count([c], '\'') == (if c == '\'' then 1 else 0) && Count([c], '"') == (if c == '"' then 1 else 0)
  {
    assert [c][1..] == [];
  }

  lemma QuotedGain(s: string)
    requires s != [] && (s[0] == '"' || s[0] == '\'') && ParseQuoted(s).Ok?
    ensures var (t, rest) := ParseQuoted(s).value;
      && Gain(s, Count(t, '\''), Count(t, '"'), true, rest)
      && (s[0] == '"' && Aligned(s) ==> Ends(rest))
      && (s[0] == '\'' ==> Count(s, '\'') > Count(t, '\'') + Count(rest, '\''))
  {
    hide Unquote;
    UnquoteCounts(s[1..], s[0], false);
  }

  // ---------------------------------------------------------------------
  // Sums over trees
  // ---------------------------------------------------------------------

  /** How often a character occurs in the names and strings of a tree. */
  function Sum(o: Ordered, c: char): nat
    decreases o
  {
    match o
    case OPlain(l) => if l.String? then Count(l.text, c) else 0
    case OList(items) => SumItems(items, c)
    case OCompound(es) => SumEntries(es, c)
  }

  function SumItems(items: seq<Ordered>, c: char): nat
    decreases items
  {
    if items == [] then 0 else Sum(items[0], c) + SumItems(items[1..], c)
  }

  function SumEntries(es: seq<Entry>, c: char): nat
    decreases es
  {
    if es == [] then 0 else Count(es[0].name, c) + Sum(es[0].value, c) + SumEntries(es[1..], c)
  }

  /** Names are identifiers and there is no end tag. */
  predicate Clean(p: Platform, o: Ordered)
    decreases o
  {
    match o
    case OPlain(l) => !l.End?
    case OList(items) => forall i :: 0 <= i < |items| ==> Clean(p, items[i])
    case OCompound(es) => CleanEntries(p, es)
  }

  predicate CleanEntries(p: Platform, es: seq<Entry>)
    decreases es
  {
    forall i :: 0 <= i < |es| ==> Identifier(p, es[i].name) && Clean(p, es[i].value)
  }

  predicate CleanItems(p: Platform, items: seq<Ordered>)
    decreases items
  {
    forall i :: 0 <= i < |items| ==> Clean(p, items[i])
  }

  // ---------------------------------------------------------------------
  // What reading a value costs
  // ---------------------------------------------------------------------

  lemma NameGain(p: Platform, cur: string)
    requires Lawful(p) && cur != [] && ParseName(p, cur).Ok?
    requires var colon := SkipSpace(p, ParseName(p, cur).value.1); colon != [] && colon[0] == ':'
    ensures var (name, rest) := ParseName(p, cur).value;
      Gain(cur, Count(name, '\''), Count(name, '"'), Identifier(p, name), SkipSpace(p, rest)[1..])
  {
    var (name, rest) := ParseName(p, cur).value;
    var colon := SkipSpace(p, rest);
    SpaceGain(p, rest);
    StepGain(p, colon);
    GainThen(rest, 0, 0, true, colon, 0, 0, true, colon[1..]);
    if cur[0] == '"' || cur[0] == '\'' {
      hide Unquote;
      QuotedGain(cur);
      GainThen(cur, Count(name, '\''), Count(name, '"'), true, rest, 0, 0, true, colon[1..]);
      assert Ends(rest) ==> SkipSpace(p, rest) == rest;
    } else {
      hide Gain;
      IdentGain(p, cur);
      TakeIdentChars(p, cur);
      assert Identifier(p, name);
      GainThen(cur, 0, 0, true, rest, 0, 0, true, colon[1..]);
    }
  }

  ghost predicate ValueGain(p: Platform, s: string, o: Ordered, rest: string) {
    Gain(s, Sum(o, '\''), Sum(o, '"'), Clean(p, o), rest)
  }

  lemma {:induction false} ParseGain(p: Platform, s: string)
    requires Lawful(p) && ParseValue(p, s).Ok?
    ensures ValueGain(p, s, ParseValue(p, s).value.0, ParseValue(p, s).value.1)
    decreases |s|, 2
  {
    hide Gain, ParseEntries, ParseListOrArray, ParseNumber, ParseQuoted, TakeIdent, SkipSpace;
    var cur := SkipSpace(p, s);
    var (o, rest) := ParseValue(p, s).value;
    SpaceGain(p, s);
    assert ValueGain(p, cur, o, rest) by {
      var c := cur[0];
      if c == '{' {
        StepGain(p, cur);
        EntriesGain(p, cur[1..]);
        var es := ParseEntries(p, cur[1..]).value.0;
        GainThen(cur, 0, 0, true, cur[1..], SumEntries(es, '\''), SumEntries(es, '"'), CleanEntries(p, es), rest);
      } else if c == '[' {
        StepGain(p, cur);
        SquareGain(p, cur[1..]);
        GainThen(cur, 0, 0, true, cur[1..], Sum(o, '\''), Sum(o, '"'), Clean(p, o), rest);
      } else if c == '"' || c == '\'' {
        QuotedGain(cur);
      } else if Digit(c) || c == '-' || c == '+' {
        NumberGain(p, cur);
        NumberIsNumber(p, cur);
      } else {
        IdentGain(p, cur);
      }
    }
    GainThen(s, 0, 0, true, cur, Sum(o, '\''), Sum(o, '"'), Clean(p, o), rest);
  }

  lemma NumberIsNumber(p: Platform, s: string)
    requires ParseNumber(p, s).Ok?
    ensures var l := ParseNumber(p, s).value.0; !l.String? && !l.End?
  {
    hide Token, ParseInt;
  }

  lemma {:induction false} SquareGain(p: Platform, s: string)
    requires Lawful(p) && ParseListOrArray(p, s).Ok?
    ensures ValueGain(p, s, ParseListOrArray(p, s).value.0, ParseListOrArray(p, s).value.1)
    decreases |s|, 4
  {
    hide Gain, ParseItems, ParseTypedArray, SkipSpace;
    var cur := SkipSpace(p, s);
    var (o, rest) := ParseListOrArray(p, s).value;
    SpaceGain(p, s);
    assert ValueGain(p, cur, o, rest) by {
      if |cur| > 1 && cur[0] in "BIL" && cur[1] == ';' {
        StepGain(p, cur);
        StepGain(p, cur[1..]);
        assert cur[1..][1..] == cur[2..];
        TypedGain(p, cur[0], cur[2..]);
        TypedIsArray(p, cur[0], cur[2..]);
        GainThen(cur, 0, 0, true, cur[1..], 0, 0, true, cur[2..]);
        GainThen(cur, 0, 0, true, cur[2..], 0, 0, true, rest);
      } else if cur != [] && cur[0] == ']' {
        StepGain(p, cur);
      } else {
        ItemsGain(p, cur);
      }
    }
    GainThen(s, 0, 0, true, cur, Sum(o, '\''), Sum(o, '"'), Clean(p, o), rest);
  }

  lemma TypedIsArray(p: Platform, kind: char, s: string)
    requires ParseTypedArray(p, kind, s).Ok?
    ensures var l := ParseTypedArray(p, kind, s).value.0; !l.String? && !l.End?
  {
    hide ParseElements, SkipSpace;
  }

  lemma {:induction false} ItemsGain(p: Platform, s: string)
    requires Lawful(p) && ParseItems(p, s).Ok?
    ensures var (items, rest) := ParseItems(p, s).value;
      Gain(s, SumItems(items, '\''), SumItems(items, '"'), CleanItems(p, items), rest)
    decreases |s|, 3
  {
    hide Gain, ParseValue, SkipSpace, Sum, Clean;
    var (o, after) := ParseValue(p, s).value;
    var next := SkipSpace(p, after);
    ParseGain(p, s);
    SpaceGain(p, after);
    GainThen(s, Sum(o, '\''), Sum(o, '"'), Clean(p, o), after, 0, 0, true, next);
    StepGain(p, next);
    if next[0] == ',' {
      var more := SkipSpace(p, next[1..]);
      ItemsGain(p, more);
      var (os, rest) := ParseItems(p, more).value;
      GainThen(s, Sum(o, '\''), Sum(o, '"'), Clean(p, o), next, 0, 0, true, more);
      GainThen(s, Sum(o, '\''), Sum(o, '"'), Clean(p, o), more, SumItems(os, '\''), SumItems(os, '"'), CleanItems(p, os), rest);
      assert ([o] + os)[1..] == os;
    } else {
      GainThen(s, Sum(o, '\''), Sum(o, '"'), Clean(p, o), next, 0, 0, true, next[1..]);
      assert [o][1..] == [];
    }
  }

  lemma {:induction false} EntryGain(p: Platform, cur: string)
    requires Lawful(p) && cur != [] && ParseEntry(p, cur).Ok?
    ensures var (e, rest) := ParseEntry(p, cur).value;
      Gain(cur, Count(e.name, '\'') + Sum(e.value, '\''), Count(e.name, '"') + Sum(e.value, '"'),
           Identifier(p, e.name) && Clean(p, e.value), rest)
    decreases |cur|, 0
  {
    hide Gain, ParseValue, ParseName, SkipSpace, Sum, Clean, Identifier;
    var (name, rest) := ParseName(p, cur).value;
    var colon := SkipSpace(p, rest);
    NameGain(p, cur);
    ParseGain(p, colon[1..]);
    var (o, rest') := ParseValue(p, colon[1..]).value;
    GainThen(cur, Count(name, '\''), Count(name, '"'), Identifier(p, name), colon[1..],
             Sum(o, '\''), Sum(o, '"'), Clean(p, o), rest');
  }

  lemma {:induction false} EntriesGain(p: Platform, s: string)
    requires Lawful(p) && ParseEntries(p, s).Ok?
    ensures var (es, rest) := ParseEntries(p, s).value;
      Gain(s, SumEntries(es, '\''), SumEntries(es, '"'), CleanEntries(p, es), rest)
    decreases |s|, 1
  {
    hide Gain, ParseEntry, SkipSpace, Sum, Clean, Identifier, Count, SumEntries, CleanEntries;
    var cur := SkipSpace(p, s);
    SpaceGain(p, s);
    NoEntries(p);
    if cur[0] == '}' {
      StepGain(p, cur);
      GainThen(s, 0, 0, true, cur, 0, 0, true, cur[1..]);
    } else {
      var (e, after) := ParseEntry(p, cur).value;
      var a, b, clean := Count(e.name, '\'') + Sum(e.value, '\''), Count(e.name, '"') + Sum(e.value, '"'),
                         Identifier(p, e.name) && Clean(p, e.value);
      EntryGain(p, cur);
      GainThen(s, 0, 0, true, cur, a, b, clean, after);
      var next := SkipSpace(p, after);
      SpaceGain(p, after);
      GainThen(s, a, b, clean, after, 0, 0, true, next);
      StepGain(p, next);
      GainThen(s, a, b, clean, next, 0, 0, true, next[1..]);
      if next[0] == ',' {
        EntriesGain(p, next[1..]);
        var (es, rest) := ParseEntries(p, next[1..]).value;
        GainThen(s, a, b, clean, next[1..], SumEntries(es, '\''), SumEntries(es, '"'), CleanEntries(p, es), rest);
        ConsEntries(p, e, es);
      } else {
        assert [e] + [] == [e];
        ConsEntries(p, e, []);
      }
    }
  }

  lemma NoEntries(p: Platform)
    ensures CleanEntries(p, []) && SumEntries([], '\'') == 0 && SumEntries([], '"') == 0
  {
  }

  lemma ConsEntries(p: Platform, e: Entry, es: seq<Entry>)
    ensures CleanEntries(p, [e] + es) <==> Identifier(p, e.name) && Clean(p, e.value) && CleanEntries(p, es)
    ensures forall c :: SumEntries([e] + es, c) == Count(e.name, c) + Sum(e.value, c) + SumEntries(es, c)
  {
    hide Identifier, Clean, Sum, Count;
    var all := [e] + es;
    assert all[1..] == es && all[0] == e;
    assert forall i :: 0 <= i < |es| ==> es[i] == all[i + 1];
    assert forall i :: 1 <= i < |all| ==> all[i] == es[i - 1];
  }

  // ---------------------------------------------------------------------
  // What a printed text holds
  // ---------------------------------------------------------------------

  /** The double quotes of the names that nothing escapes. */
  function LooseNames(o: Ordered): nat
    decreases o
  {
    match o
    case OPlain(_) => 0
    case OList(items) => LooseItems(items)
    case OCompound(es) => LooseEntries(es)
  }

  function LooseItems(items: seq<Ordered>): nat
    decreases items
  {
    if items == [] then 0 else LooseNames(items[0]) + LooseItems(items[1..])
  }

  function LooseEntries(es: seq<Entry>): nat
    decreases es
  {
    if es == [] then 0 else Loose(es[0].name, false) + LooseNames(es[0].value) + LooseEntries(es[1..])
  }

  /** The text `s` in front of `rest` holds the `a` single and `b` double quotes of what it prints, the
      double ones escaped but for `loose`; without such, it is aligned if `rest` is. */
  predicate Holds(s: string, a: nat, b: nat, loose: nat, rest: string) {
    && Count(s, '\'') == a + Count(rest, '\'')
    && Escaped(s, false) + loose == b + Escaped(rest, false)
    && (loose == 0 && Aligned(rest) ==> Aligned(s))
  }

  lemma HoldsThen(s: string, a: nat, b: nat, loose: nat, mid: string, a': nat, b': nat, loose': nat, rest: string)
    requires Holds(s, a, b, loose, mid) && Holds(mid, a', b', loose', rest)
    ensures Holds(s, a + a', b + b', loose + loose', rest)
  {
  }

  lemma {:induction false} RawHolds(t: string, rest: string)
    requires forall c <- t :: Raw(c)
    ensures Holds(t + rest, 0, 0, 0, rest)
  {
    if t == [] {
      assert t + rest == rest;
    } else {
      assert t[0] in t;
      RawHolds(t[1..], rest);
      assert (t + rest)[1..] == t[1..] + rest;
    }
  }

  lemma QuoteHolds(t: string, rest: string)
    requires Ends(rest)
    ensures Holds(Quote(t) + rest, Count(t, '\''), Count(t, '"'), 0, rest)
  {
    hide Unquote, Escape;
    var s := Quote(t) + rest;
    assert s[1..] == Escape(t) + (['"'] + rest);
    UnquoteOfEscape(t, rest);
    UnquoteCounts(s[1..], '"', false);
  }

  /** A name and its colon. */
  lemma {:induction false} NameHolds(name: string, after: bool, rest: string)
    ensures var s := name + (":" + rest);
      && Count(s, '\'') == Count(name, '\'') + Count(rest, '\'')
      && Escaped(s, after) + Loose(name, after) == Count(name, '"') + Escaped(rest, false)
      && (!after && Loose(name, false) == 0 && Aligned(rest) ==> Aligned(s))
    decreases |name|
  {
    var s := name + (":" + rest);
    if name == [] {
      assert s == ":" + rest;
      assert s[1..] == rest;
    } else {
      assert s[1..] == name[1..] + (":" + rest);
      NameHolds(name[1..], !after && name[0] == '\\', rest);
    }
  }

  lemma {:induction false} ShownRaw(n: nat)
    ensures forall c <- ShowNat(n) :: Raw(c)
  {
  }

  lemma ShowRaw(n: int)
    ensures forall c <- Show(n) :: Raw(c)
  {
    ShownRaw(if n < 0 then -n else n);
  }

  lemma {:induction false} JoinRaw(items: seq<string>)
    requires forall t <- items :: forall c <- t :: Raw(c)
    ensures forall c <- Join(items) :: Raw(c)
    decreases |items|
  {
    if items != [] {
      assert items[0] in items;
      if |items| > 1 {
        assert forall t <- items[1..] :: t in items;
        JoinRaw(items[1..]);
      }
    }
  }

  lemma NumbersRaw(ns: seq<int>, suffix: string)
    requires forall c <- suffix :: Raw(c)
    ensures forall c <- Join(ShowEach(ns, suffix)) :: Raw(c)
  {
    hide Join, ShowNat;
    var items := ShowEach(ns, suffix);
    forall t <- items ensures forall c <- t :: Raw(c) {
      var i :| 0 <= i < |items| && items[i] == t;
      ShowRaw(ns[i]);
    }
    JoinRaw(items);
  }

  lemma {:induction false} BodyRaw(t: string, dots: bool)
    requires NumberBody(t, dots)
    ensures forall c <- t :: Raw(c)
  {
    if t != [] {
      BodyRaw(t[1..], if t[0] == '.' then false else dots);
      assert t == [t[0]] + t[1..];
    }
  }

  lemma DecimalRaw(t: string)
    requires NumberText(t)
    ensures forall c <- t :: Raw(c)
  {
    BodyRaw(if t[0] == '-' then t[1..] else t, true);
    assert t == [t[0]] + t[1..];
  }

  lemma LeafRaw(p: Platform, l: Leaf)
    requires FloatsFit(p, OPlain(l)) && !l.String?
    ensures forall c <- PrintLeaf(p, l) :: Raw(c)
  {
    hide Join, Show, NumberText;
    match l
    case End =>
    case Byte(v) => ShowRaw(v);
    case Short(v) => ShowRaw(v);
    case Int(v) => ShowRaw(v);
    case Long(v) => ShowRaw(v);
    case Float(v) => DecimalRaw(p.showF32(v));
    case Double(v) => DecimalRaw(p.showF64(v));
    case ByteArray(vs) => NumbersRaw(vs, "b");
    case IntArray(vs) => NumbersRaw(vs, "");
    case LongArray(vs) => NumbersRaw(vs, "L");
  }

  lemma {:induction false} PrintHolds(p: Platform, o: Ordered, rest: string)
    requires FloatsFit(p, o) && Ends(rest)
    ensures Holds(Print(p, o) + rest, Sum(o, '\''), Sum(o, '"'), LooseNames(o), rest)
    decreases o, 1
  {
    hide Holds, Join, PrintItems, PrintEntries, PrintLeaf, Quote;
    match o
    case OPlain(l) =>
      if l.String? {
        QuoteHolds(l.text, rest);
        StringPrint(p, l.text);
      } else {
        LeafRaw(p, l);
        RawHolds(PrintLeaf(p, l), rest);
      }
    case OList(items) =>
      var body := Join(PrintItems(p, items)) + ("]" + rest);
      assert Print(p, o) + rest == "[" + body;
      RawHolds("[", body);
      RawHolds("]", rest);
      ItemsHold(p, items, "]" + rest);
      HoldsThen("[" + body, 0, 0, 0, body, SumItems(items, '\''), SumItems(items, '"'), LooseItems(items), "]" + rest);
      HoldsThen("[" + body, SumItems(items, '\''), SumItems(items, '"'), LooseItems(items), "]" + rest, 0, 0, 0, rest);
    case OCompound(es) =>
      var body := Join(PrintEntries(p, es)) + ("}" + rest);
      assert Print(p, o) + rest == "{" + body;
      RawHolds("{", body);
      RawHolds("}", rest);
      EntriesHold(p, es, "}" + rest);
      HoldsThen("{" + body, 0, 0, 0, body, SumEntries(es, '\''), SumEntries(es, '"'), LooseEntries(es), "}" + rest);
      HoldsThen("{" + body, SumEntries(es, '\''), SumEntries(es, '"'), LooseEntries(es), "}" + rest, 0, 0, 0, rest);
  }

  lemma StringPrint(p: Platform, text: string)
    ensures PrintLeaf(p, String(text)) == Quote(text)
  {
  }

  lemma HoldsNothing(s: string)
    ensures Holds(s, 0, 0, 0, s)
  {
  }

  lemma {:induction false} ItemsHold(p: Platform, items: seq<Ordered>, rest: string)
    requires Ends(rest) && forall i :: 0 <= i < |items| ==> FloatsFit(p, items[i])
    ensures Holds(Join(PrintItems(p, items)) + rest, SumItems(items, '\''), SumItems(items, '"'), LooseItems(items), rest)
    decreases items, 0
  {
    hide Holds, Join, Print, Sum, LooseNames, FloatsFit;
    if items == [] {
      JoinNothing(p);
      assert "" + rest == rest;
      HoldsNothing(rest);
    } else {
      var s := Join(PrintItems(p, items)) + rest;
      var o, os := items[0], items[1..];
      var more := Join(PrintItems(p, os)) + rest;
      JoinFront(PrintItems(p, items));
      assert PrintItems(p, items)[1..] == PrintItems(p, os);
      if os == [] {
        PrintHolds(p, o, rest);
      } else {
        assert s == Print(p, o) + ("," + more);
        PrintHolds(p, o, "," + more);
        RawHolds(",", more);
        ItemsHold(p, os, rest);
        var a, b, loose := Sum(o, '\''), Sum(o, '"'), LooseNames(o);
        HoldsThen(s, a, b, loose, "," + more, 0, 0, 0, more);
        HoldsThen(s, a, b, loose, more, SumItems(os, '\''), SumItems(os, '"'), LooseItems(os), rest);
      }
    }
  }

  lemma EntryHolds(p: Platform, e: Entry, rest: string)
    requires Holds(Print(p, e.value) + rest, Sum(e.value, '\''), Sum(e.value, '"'), LooseNames(e.value), rest)
    ensures Holds(PrintEntry(p, e) + rest, Count(e.name, '\'') + Sum(e.value, '\''), Count(e.name, '"') + Sum(e.value, '"'),
                  Loose(e.name, false) + LooseNames(e.value), rest)
  {
    hide Print, Sum, LooseNames, Count, Escaped, Loose, Aligned;
    var value := Print(p, e.value) + rest;
    assert PrintEntry(p, e) + rest == e.name + (":" + value);
    NameHolds(e.name, false, value);
  }

  lemma {:induction false} EntriesHold(p: Platform, es: seq<Entry>, rest: string)
    requires Ends(rest) && forall i :: 0 <= i < |es| ==> FloatsFit(p, es[i].value)
    ensures Holds(Join(PrintEntries(p, es)) + rest, SumEntries(es, '\''), SumEntries(es, '"'), LooseEntries(es), rest)
    decreases es, 0
  {
    hide Holds, Join, Print, PrintEntry, Sum, LooseNames, FloatsFit, Count, Loose;
    if es == [] {
      JoinNothing(p);
      assert "" + rest == rest;
      HoldsNothing(rest);
    } else {
      var s := Join(PrintEntries(p, es)) + rest;
      var e, more := es[0], es[1..];
      var text := Join(PrintEntries(p, more)) + rest;
      var tail := if more == [] then rest else "," + text;
      JoinFront(PrintEntries(p, es));
      assert PrintEntries(p, es)[1..] == PrintEntries(p, more);
      assert s == PrintEntry(p, e) + tail;
      PrintHolds(p, e.value, tail);
      EntryHolds(p, e, tail);
      if more != [] {
        RawHolds(",", text);
        EntriesHold(p, more, rest);
        var a, b, loose := Count(e.name, '\'') + Sum(e.value, '\''), Count(e.name, '"') + Sum(e.value, '"'),
                           Loose(e.name, false) + LooseNames(e.value);
        HoldsThen(s, a, b, loose, tail, 0, 0, 0, text);
        HoldsThen(s, a, b, loose, text, SumEntries(more, '\''), SumEntries(more, '"'), LooseEntries(more), rest);
      }
    }
  }

  // ---------------------------------------------------------------------
  // Walks of one tree
  // ---------------------------------------------------------------------

  /** Every entry of `es` is there in `es'`, with a value of the same tree. */
  ghost predicate Covered(es: seq<Entry>, es': seq<Entry>) {
    forall i :: 0 <= i < |es| ==> Has(es', es[i])
  }

  ghost predicate Has(es: seq<Entry>, e: Entry) {
    exists j :: 0 <= j < |es| && SameEntry(e, es[j])
  }

  predicate SameEntry(e: Entry, e': Entry) {
    e.name == e'.name && Erase(e.value) == Erase(e'.value)
  }

  lemma SameTreeCovers(es: seq<Entry>, es': seq<Entry>)
    requires DistinctNames(es) && EraseInto(map[], es) == EraseInto(map[], es')
    ensures Covered(es, es')
  {
    hide Erase;
    EraseIntoSpec(map[], es);
    EraseIntoSpec(map[], es');
    forall i | 0 <= i < |es| ensures Has(es', es[i]) {
      var k := es[i].name;
      assert k in EraseInto(map[], es');
      var j :| 0 <= j < |es'| && es'[j].name == k && EraseInto(map[], es')[k] == Erase(es'[j].value);
      assert SameEntry(es[i], es'[j]);
    }
  }

  lemma {:induction false} SumSplit(es: seq<Entry>, j: nat, c: char)
    requires j < |es|
    ensures SumEntries(es, c) == Count(es[j].name, c) + Sum(es[j].value, c) + SumEntries(es[..j] + es[j + 1..], c)
    decreases |es|
  {
    hide Sum, Count;
    if j == 0 {
      assert es[..0] + es[1..] == es[1..];
    } else {
      SumSplit(es[1..], j - 1, c);
      var left := es[..j] + es[j + 1..];
      assert left[1..] == es[1..][..j - 1] + es[1..][j..];
    }
  }

  /** A reading of the tree of a walk holds at least what the walk holds. */
  lemma {:induction false} SumLeast(o: Ordered, o': Ordered, c: char)
    requires IsWalk(o) && Erase(o) == Erase(o')
    ensures Sum(o, c) <= Sum(o', c)
    decreases o, 1
  {
    match o
    case OPlain(l) =>
    case OList(items) => SumItemsLeast(items, o'.items, c);
    case OCompound(es) =>
      SameTreeCovers(es, o'.entries);
      SumEntriesLeast(es, o'.entries, c);
  }

  lemma {:induction false} SumItemsLeast(items: seq<Ordered>, items': seq<Ordered>, c: char)
    requires |items| == |items'|
    requires forall i :: 0 <= i < |items| ==> IsWalk(items[i]) && Erase(items[i]) == Erase(items'[i])
    ensures SumItems(items, c) <= SumItems(items', c)
    decreases items, 0
  {
    hide Erase, IsWalk, Sum;
    if items != [] {
      SumLeast(items[0], items'[0], c);
      SumItemsLeast(items[1..], items'[1..], c);
    }
  }

  lemma {:induction false} SumEntriesLeast(es: seq<Entry>, es': seq<Entry>, c: char)
    requires DistinctNames(es) && Covered(es, es')
    requires forall i :: 0 <= i < |es| ==> IsWalk(es[i].value)
    ensures SumEntries(es, c) <= SumEntries(es', c)
    decreases es, 0
  {
    hide Erase, IsWalk, Sum, Count;
    if es != [] {
      assert Has(es', es[0]);
      var j :| 0 <= j < |es'| && SameEntry(es[0], es'[j]);
      var left := es'[..j] + es'[j + 1..];
      forall i | 0 <= i < |es[1..]| ensures Has(left, es[1..][i]) {
        assert Has(es', es[i + 1]);
        var k :| 0 <= k < |es'| && SameEntry(es[i + 1], es'[k]);
        assert k != j;
        assert left[if k < j then k else k - 1] == es'[k];
      }
      SumLeast(es[0].value, es'[j].value, c);
      SumEntriesLeast(es[1..], left, c);
      SumSplit(es', j, c);
    }
  }

  /** If one reading of the tree is clean, so is every walk of it. */
  lemma {:induction false} CleanErased(p: Platform, o: Ordered, o': Ordered)
    requires IsWalk(o) && Erase(o) == Erase(o') && Clean(p, o')
    ensures Clean(p, o)
    decreases o
  {
    hide Identifier;
    match o
    case OPlain(l) =>
    case OList(items) =>
      forall i | 0 <= i < |items| ensures Clean(p, items[i]) {
        CleanErased(p, items[i], o'.items[i]);
      }
    case OCompound(es) =>
      var es' := o'.entries;
      SameTreeCovers(es, es');
      forall i | 0 <= i < |es| ensures Identifier(p, es[i].name) && Clean(p, es[i].value) {
        assert Has(es', es[i]);
        var j :| 0 <= j < |es'| && SameEntry(es[i], es'[j]);
        CleanErased(p, es[i].value, es'[j].value);
      }
  }

  lemma {:induction false} CleanIsPrintable(p: Platform, o: Ordered)
    requires Clean(p, o) && FloatsFit(p, o)
    ensures Printable(p, o)
    decreases o
  {
    hide Identifier, NumberText;
    match o
    case OPlain(l) =>
    case OList(items) =>
      forall i | 0 <= i < |items| ensures Printable(p, items[i]) {
        CleanIsPrintable(p, items[i]);
      }
    case OCompound(es) =>
      forall i | 0 <= i < |es| ensures Identifier(p, es[i].name) && Printable(p, es[i].value) {
        CleanIsPrintable(p, es[i].value);
      }
  }

  /** Whatever walk of the tree the printed text is read as, the tree is printable. */
  lemma TreeReadIsPrintable(p: Platform, o: Ordered)
    requires Lawful(p) && FloatsFit(p, o) && IsWalk(o)
    requires ParseSnbt(p, Print(p, o)) == Ok(Erase(o))
    ensures Printable(p, o)
  {
    hide ParseValue, Print, Printable, FloatsFit, IsWalk, Erase, Clean, Sum, Count, Escaped, Aligned, LooseNames;
    var s := Print(p, o);
    var (o', rest) := ParseValue(p, s).value;
    assert s + "" == s;
    PrintHolds(p, o, "");
    ParseGain(p, s);
    SumLeast(o, o', '\'');
    SumLeast(o, o', '"');
    NothingCounts();
    CleanErased(p, o, o');
    CleanIsPrintable(p, o);
  }

  lemma NothingCounts()
    ensures Count("", '\'') == 0 && Escaped("", false) == 0 && Aligned("")
  {
  }

  /** Printing and parsing gives the tree back, in whatever order its compounds were walked, exactly
      when it has no end tag and only identifiers for names. */
  lemma TreeExact(p: Platform, o: Ordered)
    requires Lawful(p) && FloatsFit(p, o) && IsWalk(o)
    ensures ParseSnbt(p, Print(p, o)) == Ok(Erase(o)) <==> Printable(p, o)
  {
    hide ParseSnbt, Print, Printable, FloatsFit, IsWalk, Erase;
    if Printable(p, o) {
      RoundTrip(p, o);
    }
    if ParseSnbt(p, Print(p, o)) == Ok(Erase(o)) {
      TreeReadIsPrintable(p, o);
    }
  }
}
