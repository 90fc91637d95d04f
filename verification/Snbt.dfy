/** SNBT, the text form of NBT: printer, parser and their round trip. */
module Snbt {
  import opened Bytes
  import opened Nbt
  import opened SnbtText

  /** A position is given as the number of characters left, `|input| - pos`. */
  datatype SnbtError =
    | UnexpectedChar(c: char, left: nat)
    | UnexpectedEnd
    | Expected(wanted: char, left: nat)
    | UnterminatedString
    | InvalidNumber(token: string)
    | TypeMismatch

  /** What a parsing step hands back: the value and the characters it left. */
  type Parsed<+T> = Result<(T, string), SnbtError>

  // ---------------------------------------------------------------------
  // Printing
  // ---------------------------------------------------------------------

  function Join(items: seq<string>): string {
    if items == [] then "" else if |items| == 1 then items[0] else items[0] + "," + Join(items[1..])
  }

  function ShowEach(ns: seq<int>, suffix: string): (r: seq<string>)
    ensures |r| == |ns|
  {
    seq(|ns|, i requires 0 <= i < |ns| => Show(ns[i]) + suffix)
  }

  function PrintLeaf(p: Platform, l: Leaf): string {
    match l
    case End => "END"
    case Byte(v) => Show(v) + "b"
    case Short(v) => Show(v) + "s"
    case Int(v) => Show(v)
    case Long(v) => Show(v) + "L"
    case Float(v) => p.showF32(v) + "f"
    case Double(v) => p.showF64(v) + "d"
    case String(text) => Quote(text)
    case ByteArray(vs) => "[B;" + Join(ShowEach(vs, "b")) + "]"
    case IntArray(vs) => "[I;" + Join(ShowEach(vs, "")) + "]"
    case LongArray(vs) => "[L;" + Join(ShowEach(vs, "L")) + "]"
  }

  function Print(p: Platform, o: Ordered): string
    decreases o
  {
    match o
    case OPlain(l) => PrintLeaf(p, l)
    case OList(items) => "[" + Join(PrintItems(p, items)) + "]"
    case OCompound(es) => "{" + Join(PrintEntries(p, es)) + "}"
  }

  function PrintItems(p: Platform, items: seq<Ordered>): (r: seq<string>)
    ensures |r| == |items|
    decreases items
  {
    if items == [] then [] else [Print(p, items[0])] + PrintItems(p, items[1..])
  }

  function PrintEntries(p: Platform, es: seq<Entry>): (r: seq<string>)
    ensures |r| == |es|
    decreases es
  {
    if es == [] then [] else [PrintEntry(p, es[0])] + PrintEntries(p, es[1..])
  }

  function PrintEntry(p: Platform, e: Entry): string
    decreases e
  {
    e.name + ":" + Print(p, e.value)
  }

  // ---------------------------------------------------------------------
  // Parsing
  // ---------------------------------------------------------------------

  predicate TypeSuffix(c: char) {
    c in "bBsSlLfFdD"
  }

  /** The value of a number token with the (lower-case) suffix `kind`. */
  function NumberValue(p: Platform, token: string, kind: char): (r: Option<Leaf>) {
    if kind == 'b' then var v := ParseInt(token, -0x80, 0x7F); if v.None? then None else Some(Byte(v.value))
    else if kind == 's' then var v := ParseInt(token, -0x8000, 0x7FFF); if v.None? then None else Some(Short(v.value))
    else if kind == 'l' then
      var v := ParseInt(token, -0x8000_0000_0000_0000, 0x7FFF_FFFF_FFFF_FFFF);
      if v.None? then None else Some(Long(v.value))
    else if kind == 'f' then var v := p.parseF32(token); if v.None? then None else Some(Float(v.value))
    else if kind == 'd' then var v := p.parseF64(token); if v.None? then None else Some(Double(v.value))
    else var v := ParseInt(token, -0x8000_0000, 0x7FFF_FFFF); if v.None? then None else Some(Int(v.value))
  }

  function ParseNumber(p: Platform, s: string): (r: Parsed<Leaf>)
    ensures r.Ok? ==> |r.value.1| <= |s|
  {
    var (token, rest, dotted) := Token(s);
    var suffixed := rest != [] && TypeSuffix(rest[0]);
    var kind := if suffixed then Lower(rest[0]) else if dotted then 'd' else 'i';
    var v := NumberValue(p, token, kind);
    if v.None? then Err(InvalidNumber(token)) else Ok((v.value, if suffixed then rest[1..] else rest))
  }

  function ParseQuoted(s: string): (r: Parsed<string>)
    requires s != []
    ensures r.Ok? ==> |r.value.1| < |s|
  {
    var t := Unquote(s[1..], s[0], false);
    if t.None? then Err(UnterminatedString) else Ok((t.value.0, t.value.1))
  }

  function ParseBare(p: Platform, s: string): (r: (Leaf, string))
    ensures |r.1| <= |s|
  {
    var (name, rest) := TakeIdent(p, s);
    (if name == "true" then Byte(1) else if name == "false" then Byte(0) else String(name), rest)
  }

  /** The element a number gives in an array of the type `kind`. */
  function Element(kind: char, l: Leaf): (r: Option<int>) {
    match l
    case Byte(v) => if kind == 'B' then Some(v) else None
    case Int(v) => Some(if kind == 'B' then (v + 0x80) % 0x100 - 0x80 else v)
    case Long(v) => if kind == 'L' then Some(v) else None
    case _ => None
  }

  function ParseElements(p: Platform, kind: char, s: string): (r: Parsed<seq<int>>)
    ensures r.Ok? ==> |r.value.1| <= |s|
    decreases |s|
  {
    var (l, rest) :- ParseNumber(p, s);
    var v := Element(kind, l);
    if v.None? then Err(TypeMismatch)
    else
      var next := SkipSpace(p, rest);
      if next == [] then Err(UnexpectedEnd)
      else if next[0] == ',' then
        var (vs, rest') :- ParseElements(p, kind, SkipSpace(p, next[1..]));
        Ok(([v.value] + vs, rest'))
      else if next[0] == ']' then Ok(([v.value], next[1..]))
      else Err(UnexpectedChar(next[0], |next|))
  }

  predicate InArray(kind: char, vs: seq<int>) {
    forall i :: 0 <= i < |vs| ==>
      if kind == 'B' then -0x80 <= vs[i] < 0x80
      else if kind == 'I' then -0x8000_0000 <= vs[i] < 0x8000_0000
      else -0x8000_0000_0000_0000 <= vs[i] < 0x8000_0000_0000_0000
  }

  function ArrayLeaf(kind: char, vs: seq<int>): Leaf
    requires InArray(kind, vs)
  {
    if kind == 'B' then ByteArray(vs) else if kind == 'I' then IntArray(vs) else LongArray(vs)
  }

  lemma {:induction false} ElementsInRange(p: Platform, kind: char, s: string)
    requires ParseElements(p, kind, s).Ok?
    ensures InArray(kind, ParseElements(p, kind, s).value.0)
    decreases |s|
  {
    hide ParseNumber, SkipSpace;
    var (l, rest) := ParseNumber(p, s).value;
    var next := SkipSpace(p, rest);
    if next[0] == ',' {
      ElementsInRange(p, kind, SkipSpace(p, next[1..]));
    }
  }

  /** After `[B;`, `[I;` or `[L;`. */
  function ParseTypedArray(p: Platform, kind: char, s: string): (r: Parsed<Leaf>)
    ensures r.Ok? ==> |r.value.1| <= |s|
  {
    var first := SkipSpace(p, s);
    if first != [] && first[0] == ']' then Ok((ArrayLeaf(kind, []), first[1..]))
    else
      var (vs, rest) :- ParseElements(p, kind, first);
      ElementsInRange(p, kind, first);
      Ok((ArrayLeaf(kind, vs), rest))
  }

  function ParseValue(p: Platform, s: string): (r: Parsed<Ordered>)
    ensures r.Ok? ==> |r.value.1| <= |s|
    decreases |s|, 2
  {
    var cur := SkipSpace(p, s);
    if cur == [] then Err(UnexpectedEnd)
    else
      var c := cur[0];
      if c == '{' then
        var (es, rest) :- ParseEntries(p, cur[1..]);
        Ok((OCompound(es), rest))
      else if c == '[' then ParseListOrArray(p, cur[1..])
      else if c == '"' || c == '\'' then
        var (text, rest) :- ParseQuoted(cur);
        Ok((OPlain(String(text)), rest))
      else if Digit(c) || c == '-' || c == '+' then
        var (l, rest) :- ParseNumber(p, cur);
        Ok((OPlain(l), rest))
      else if IdentStart(p, c) then
        var (l, rest) := ParseBare(p, cur);
        Ok((OPlain(l), rest))
      else Err(UnexpectedChar(c, |cur|))
  }

  /** After `[`. */
  function ParseListOrArray(p: Platform, s: string): (r: Parsed<Ordered>)
    ensures r.Ok? ==> |r.value.1| <= |s|
    decreases |s|, 4
  {
    var cur := SkipSpace(p, s);
    if |cur| > 1 && cur[0] in "BIL" && cur[1] == ';' then
      var (l, rest) :- ParseTypedArray(p, cur[0], cur[2..]);
      Ok((OPlain(l), rest))
    else if cur != [] && cur[0] == ']' then Ok((OList([]), cur[1..]))
    else
      var (items, rest) :- ParseItems(p, cur);
      Ok((OList(items), rest))
  }

  function ParseItems(p: Platform, s: string): (r: Parsed<seq<Ordered>>)
    ensures r.Ok? ==> |r.value.1| <= |s|
    decreases |s|, 3
  {
    var (item, rest) :- ParseValue(p, s);
    var next := SkipSpace(p, rest);
    if next == [] then Err(UnexpectedEnd)
    else if next[0] == ',' then
      var (items, rest') :- ParseItems(p, SkipSpace(p, next[1..]));
      Ok(([item] + items, rest'))
    else if next[0] == ']' then Ok(([item], next[1..]))
    else Err(UnexpectedChar(next[0], |next|))
  }

  /** The name of an entry, at a character that is not white space. */
  function ParseName(p: Platform, cur: string): (r: Parsed<string>)
    requires cur != []
    ensures r.Ok? ==> |r.value.1| < |cur|
  {
    if cur[0] == '"' || cur[0] == '\'' then ParseQuoted(cur)
    else if IdentStart(p, cur[0]) then Ok(TakeIdent(p, cur))
    else Err(UnexpectedChar(cur[0], |cur|))
  }

  /** One entry: name, colon, value. */
  function ParseEntry(p: Platform, cur: string): (r: Parsed<Entry>)
    requires cur != []
    ensures r.Ok? ==> |r.value.1| < |cur|
    decreases |cur|, 0
  {
    var (name, rest) :- ParseName(p, cur);
    var colon := SkipSpace(p, rest);
    if colon == [] || colon[0] != ':' then Err(Expected(':', |colon|))
    else
      var (value, rest') :- ParseValue(p, colon[1..]);
      Ok((Entry(name, value), rest'))
  }

  /** The entries of a compound, through its closing brace. */
  function ParseEntries(p: Platform, s: string): (r: Parsed<seq<Entry>>)
    ensures r.Ok? ==> |r.value.1| <= |s|
    decreases |s|, 1
  {
    var cur := SkipSpace(p, s);
    if cur == [] then Err(UnexpectedEnd)
    else if cur[0] == '}' then Ok(([], cur[1..]))
    else
      var (e, rest) :- ParseEntry(p, cur);
      var next := SkipSpace(p, rest);
      if next == [] then Err(UnexpectedEnd)
      else if next[0] == ',' then
        var (es, rest') :- ParseEntries(p, next[1..]);
        Ok(([e] + es, rest'))
      else if next[0] == '}' then Ok(([e], next[1..]))
      else Err(UnexpectedChar(next[0], |next|))
  }

  /** `parse_snbt`; whatever follows the first value is ignored. */
  function ParseSnbt(p: Platform, s: string): (r: Result<Tag, SnbtError>) {
    var (o, _) :- ParseValue(p, s);
    Ok(Erase(o))
  }

  // ---------------------------------------------------------------------
  // Round trip
  // ---------------------------------------------------------------------

  /** What can follow a value: nothing a number could take for its own. */
  predicate Follows(rest: string) {
    Stops(rest) && (rest == [] || !TypeSuffix(rest[0]))
  }

  /** A float is printable when its text is a plain decimal that parses back to the same bits. */
  predicate PrintableLeaf(p: Platform, l: Leaf) {
    match l
    case End => false
    case Float(v) => NumberText(p.showF32(v)) && p.parseF32(p.showF32(v)) == Some(v)
    case Double(v) => NumberText(p.showF64(v)) && p.parseF64(p.showF64(v)) == Some(v)
    case _ => true
  }

  predicate Printable(p: Platform, o: Ordered)
    decreases o
  {
    match o
    case OPlain(l) => PrintableLeaf(p, l)
    case OList(items) => forall i :: 0 <= i < |items| ==> Printable(p, items[i])
    case OCompound(es) => forall i :: 0 <= i < |es| ==> Identifier(p, es[i].name) && Printable(p, es[i].value)
  }

  lemma SkipNothing(p: Platform, s: string)
    requires s == [] || !p.whitespace(s[0])
    ensures SkipSpace(p, s) == s
  {
  }

  lemma NumberOfShow(p: Platform, n: int, suffix: string, rest: string, l: Leaf)
    requires |suffix| <= 1 && (suffix == "" ==> Follows(rest)) && (suffix != "" ==> TypeSuffix(suffix[0]))
    requires NumberValue(p, Show(n), if suffix == "" then 'i' else Lower(suffix[0])) == Some(l)
    ensures ParseNumber(p, Show(n) + suffix + rest) == Ok((l, rest))
  {
    hide NumberValue, Show;
    TokenOfShow(n, suffix + rest);
    assert Show(n) + suffix + rest == Show(n) + (suffix + rest);
    assert suffix != "" ==> (suffix + rest)[1..] == rest;
    assert suffix == "" ==> suffix + rest == rest;
  }

  /** One element of an array of type `kind`, as it is printed. */
  function ElementSuffix(kind: char): string {
    if kind == 'B' then "b" else if kind == 'I' then "" else "L"
  }

  lemma ElementRoundTrip(p: Platform, kind: char, v: int, rest: string)
    requires kind in "BIL" && InArray(kind, [v]) && rest != [] && rest[0] in ",]"
    ensures var s := Show(v) + ElementSuffix(kind) + rest;
      && ParseNumber(p, s).Ok?
      && ParseNumber(p, s).value.1 == rest
      && Element(kind, ParseNumber(p, s).value.0) == Some(v)
  {
    hide Show, ParseNumber, ParseInt;
    assert InArray(kind, [v]) && [v][0] == v;
    if kind == 'B' {
      ParseOfShow(v, -0x80, 0x7F);
      NumberOfShow(p, v, "b", rest, Byte(v));
    } else if kind == 'I' {
      ParseOfShow(v, -0x8000_0000, 0x7FFF_FFFF);
      NumberOfShow(p, v, "", rest, Int(v));
    } else {
      ParseOfShow(v, -0x8000_0000_0000_0000, 0x7FFF_FFFF_FFFF_FFFF);
      NumberOfShow(p, v, "L", rest, Long(v));
    }
  }

  lemma JoinFront(items: seq<string>)
    requires items != []
    ensures Join(items) == if |items| == 1 then items[0] else items[0] + "," + Join(items[1..])
  {
  }

  lemma {:induction false} ElementsRoundTrip(p: Platform, kind: char, vs: seq<int>, rest: string)
    requires Lawful(p) && kind in "BIL" && vs != [] && InArray(kind, vs)
    ensures ParseElements(p, kind, Join(ShowEach(vs, ElementSuffix(kind))) + "]" + rest) == Ok((vs, rest))
    decreases |vs|
  {
    hide Show, ParseNumber, Element, ElementSuffix;
    var shown := ShowEach(vs, ElementSuffix(kind));
    var text := Join(shown) + "]" + rest;
    var first := Show(vs[0]) + ElementSuffix(kind);
    if |vs| == 1 {
      var tail := "]" + rest;
      assert text == first + tail;
      ElementRoundTrip(p, kind, vs[0], tail);
      SkipNothing(p, tail);
      assert tail[1..] == rest && vs == [vs[0]];
    } else {
      hide Join;
      var more := Join(ShowEach(vs[1..], ElementSuffix(kind))) + "]" + rest;
      var tail := "," + more;
      assert shown[1..] == ShowEach(vs[1..], ElementSuffix(kind));
      JoinFront(shown);
      assert text == first + tail;
      ElementRoundTrip(p, kind, vs[0], tail);
      SkipNothing(p, tail);
      assert tail[1..] == more;
      JoinStart(p, vs[1..], ElementSuffix(kind), "]" + rest);
      assert Join(ShowEach(vs[1..], ElementSuffix(kind))) + ("]" + rest) == more;
      SkipNothing(p, more);
      ElementsRoundTrip(p, kind, vs[1..], rest);
      assert vs == [vs[0]] + vs[1..];
    }
  }

  /** A printed number list starts with a digit or a minus. */
  lemma JoinStart(p: Platform, vs: seq<int>, suffix: string, rest: string)
    requires Lawful(p) && vs != []
    ensures var s := Join(ShowEach(vs, suffix)) + rest; s != [] && (Digit(s[0]) || s[0] == '-') && !p.whitespace(s[0])
  {
    hide ShowNat;
    JoinFront(ShowEach(vs, suffix));
    var n := vs[0];
    var body := ShowNat(if n < 0 then -n else n);
    assert body[0] in body;
    assert Join(ShowEach(vs, suffix))[0] == Show(n)[0];
  }

  lemma ArrayRoundTrip(p: Platform, kind: char, vs: seq<int>, rest: string)
    requires Lawful(p) && kind in "BIL" && InArray(kind, vs)
    ensures ParseTypedArray(p, kind, Join(ShowEach(vs, ElementSuffix(kind))) + "]" + rest) == Ok((ArrayLeaf(kind, vs), rest))
  {
    hide Show, ElementSuffix, ParseElements;
    var s := Join(ShowEach(vs, ElementSuffix(kind))) + "]" + rest;
    if vs == [] {
      assert s == "]" + rest;
      SkipNothing(p, s);
    } else {
      JoinStart(p, vs, ElementSuffix(kind), "]" + rest);
      assert Join(ShowEach(vs, ElementSuffix(kind))) + ("]" + rest) == s;
      SkipNothing(p, s);
      ElementsRoundTrip(p, kind, vs, rest);
    }
  }

  /** The first character of a printed value. */
  predicate ValueStart(s: string) {
    s != [] && (Digit(s[0]) || s[0] == '-' || s[0] == '"' || s[0] == '[' || s[0] == '{')
  }

  lemma NumberStart(n: int)
    ensures Digit(Show(n)[0]) || Show(n)[0] == '-'
  {
    var body := ShowNat(if n < 0 then -n else n);
    assert body[0] in body;
  }

  lemma PrintStart(p: Platform, o: Ordered)
    requires Printable(p, o)
    ensures ValueStart(Print(p, o))
  {
    match o
    case OPlain(Byte(v)) => NumberStart(v);
    case OPlain(Short(v)) => NumberStart(v);
    case OPlain(Int(v)) => NumberStart(v);
    case OPlain(Long(v)) => NumberStart(v);
    case _ =>
  }

  lemma StartIsSolid(p: Platform, s: string)
    requires Lawful(p) && ValueStart(s)
    ensures SkipSpace(p, s) == s
  {
  }

  lemma FloatText(p: Platform, text: string, suffix: char, rest: string, l: Leaf)
    requires NumberText(text) && suffix in "fd" && NumberValue(p, text, suffix) == Some(l)
    ensures ParseNumber(p, text + [suffix] + rest) == Ok((l, rest))
  {
    hide NumberValue, Token, NumberText;
    TokenOfText(text, [suffix] + rest);
    assert text + [suffix] + rest == text + ([suffix] + rest);
    assert ([suffix] + rest)[1..] == rest;
  }

  lemma NumericValue(p: Platform, text: string, rest: string, l: Leaf)
    requires Lawful(p) && text != [] && (Digit(text[0]) || text[0] == '-')
    requires ParseNumber(p, text + rest) == Ok((l, rest))
    ensures ParseValue(p, text + rest) == Ok((OPlain(l), rest))
  {
    hide ParseNumber, ParseEntries, ParseListOrArray;
    StartIsSolid(p, text + rest);
  }

  lemma QuotedValue(p: Platform, text: string, rest: string)
    requires Lawful(p)
    ensures ParseValue(p, Quote(text) + rest) == Ok((OPlain(String(text)), rest))
  {
    hide Escape, Unquote, ParseNumber, ParseEntries, ParseListOrArray;
    var s := Quote(text) + rest;
    StartIsSolid(p, s);
    UnquoteOfEscape(text, rest);
    assert s[1..] == Escape(text) + (['"'] + rest);
  }

  lemma LeafRoundTrip(p: Platform, l: Leaf, rest: string)
    requires Lawful(p) && PrintableLeaf(p, l) && Follows(rest)
    ensures ParseValue(p, PrintLeaf(p, l) + rest) == Ok((OPlain(l), rest))
  {
    hide Show, ParseValue, ParseNumber, NumberText, ParseInt, Quote, Join, Follows;
    var text := PrintLeaf(p, l);
    match l
    case Byte(v) =>
      ParseOfShow(v, -0x80, 0x7F);
      NumberOfShow(p, v, "b", rest, l);
      NumberStart(v);
      NumericValue(p, text, rest, l);
    case Short(v) =>
      ParseOfShow(v, -0x8000, 0x7FFF);
      NumberOfShow(p, v, "s", rest, l);
      NumberStart(v);
      NumericValue(p, text, rest, l);
    case Int(v) =>
      ParseOfShow(v, -0x8000_0000, 0x7FFF_FFFF);
      NumberOfShow(p, v, "", rest, l);
      assert Show(v) + "" == Show(v);
      NumberStart(v);
      NumericValue(p, text, rest, l);
    case Long(v) =>
      ParseOfShow(v, -0x8000_0000_0000_0000, 0x7FFF_FFFF_FFFF_FFFF);
      NumberOfShow(p, v, "L", rest, l);
      NumberStart(v);
      NumericValue(p, text, rest, l);
    case Float(v) =>
      FloatText(p, p.showF32(v), 'f', rest, l);
      NumericStart(p.showF32(v));
      NumericValue(p, text, rest, l);
    case Double(v) =>
      FloatText(p, p.showF64(v), 'd', rest, l);
      NumericStart(p.showF64(v));
      NumericValue(p, text, rest, l);
    case String(t) => QuotedValue(p, t, rest);
    case ByteArray(vs) => TypedRoundTrip(p, 'B', vs, rest);
    case IntArray(vs) => TypedRoundTrip(p, 'I', vs, rest);
    case LongArray(vs) => TypedRoundTrip(p, 'L', vs, rest);
  }

  lemma NumericStart(text: string)
    requires NumberText(text)
    ensures text != [] && (Digit(text[0]) || text[0] == '-')
  {
  }

  lemma TypedRoundTrip(p: Platform, kind: char, vs: seq<int>, rest: string)
    requires Lawful(p) && kind in "BIL" && InArray(kind, vs)
    ensures ParseValue(p, ['[', kind, ';'] + Join(ShowEach(vs, ElementSuffix(kind))) + "]" + rest)
         == Ok((OPlain(ArrayLeaf(kind, vs)), rest))
  {
    hide ParseTypedArray, ParseItems, ParseEntries, ElementSuffix, Join;
    var body := Join(ShowEach(vs, ElementSuffix(kind))) + "]" + rest;
    var s := ['[', kind, ';'] + Join(ShowEach(vs, ElementSuffix(kind))) + "]" + rest;
    assert s == ['[', kind, ';'] + body;
    ArrayRoundTrip(p, kind, vs, rest);
    SkipNothing(p, s);
    SkipNothing(p, s[1..]);
    assert s[1..][2..] == body;
  }

  /** A value in any walk is read back, exactly up to what follows it. */
  lemma {:induction false} ValueRoundTrip(p: Platform, o: Ordered, rest: string)
    requires Lawful(p) && Printable(p, o) && Follows(rest)
    ensures ParseValue(p, Print(p, o) + rest) == Ok((o, rest))
    decreases o, 1
  {
    hide ParseItems, ParseEntries, Join, PrintItems, PrintEntries;
    match o
    case OPlain(l) => LeafRoundTrip(p, l, rest);
    case OList(items) =>
      var body := Join(PrintItems(p, items)) + "]" + rest;
      assert Print(p, o) + rest == "[" + body;
      ListRoundTrip(p, items, rest);
      ListValue(p, body);
    case OCompound(es) =>
      var body := Join(PrintEntries(p, es)) + "}" + rest;
      assert Print(p, o) + rest == "{" + body;
      EntriesRoundTrip(p, es, rest);
      CompoundValue(p, body);
  }

  lemma ListValue(p: Platform, body: string)
    requires Lawful(p)
    ensures ParseValue(p, "[" + body) == ParseListOrArray(p, body)
  {
    hide ParseListOrArray;
    SkipNothing(p, "[" + body);
    assert ("[" + body)[1..] == body;
  }

  lemma CompoundValue(p: Platform, body: string)
    requires Lawful(p) && ParseEntries(p, body).Ok?
    ensures ParseValue(p, "{" + body) == Ok((OCompound(ParseEntries(p, body).value.0), ParseEntries(p, body).value.1))
  {
    hide ParseEntries;
    SkipNothing(p, "{" + body);
    assert ("{" + body)[1..] == body;
  }

  lemma {:induction false} ListRoundTrip(p: Platform, items: seq<Ordered>, rest: string)
    requires Lawful(p) && forall i :: 0 <= i < |items| ==> Printable(p, items[i])
    ensures ParseListOrArray(p, Join(PrintItems(p, items)) + "]" + rest) == Ok((OList(items), rest))
    decreases items, 1
  {
    hide ParseItems, Join, PrintItems, Printable;
    var s := Join(PrintItems(p, items)) + "]" + rest;
    if items == [] {
      assert s == "]" + rest by { JoinNothing(p); }
      SkipNothing(p, s);
    } else {
      ItemsStart(p, items);
      StartIsSolid(p, s);
      ItemsRoundTrip(p, items, rest);
    }
  }

  lemma JoinNothing(p: Platform)
    ensures Join(PrintItems(p, [])) == "" && Join(PrintEntries(p, [])) == ""
  {
  }

  lemma ItemsStart(p: Platform, items: seq<Ordered>)
    requires items != [] && Printable(p, items[0])
    ensures ValueStart(Join(PrintItems(p, items)))
  {
    hide Print, Printable;
    PrintStart(p, items[0]);
    JoinFront(PrintItems(p, items));
  }

  lemma {:induction false} ItemsRoundTrip(p: Platform, items: seq<Ordered>, rest: string)
    requires Lawful(p) && items != [] && forall i :: 0 <= i < |items| ==> Printable(p, items[i])
    ensures ParseItems(p, Join(PrintItems(p, items)) + "]" + rest) == Ok((items, rest))
    decreases items, 0
  {
    hide ParseValue, Print, Printable, Join;
    var s := Join(PrintItems(p, items)) + "]" + rest;
    var first := Print(p, items[0]);
    JoinFront(PrintItems(p, items));
    if |items| == 1 {
      var tail := "]" + rest;
      assert s == first + tail;
      ValueRoundTrip(p, items[0], tail);
      SkipNothing(p, tail);
      assert tail[1..] == rest && items == [items[0]];
    } else {
      hide ParseItems;
      var os := items[1..];
      var more := Join(PrintItems(p, os)) + "]" + rest;
      assert PrintItems(p, items)[1..] == PrintItems(p, os);
      assert s == first + ("," + more);
      ItemsStart(p, os);
      StartIsSolid(p, more);
      ItemsRoundTrip(p, os, rest);
      ValueRoundTrip(p, items[0], "," + more);
      ItemsStep(p, first, more, items[0], os, rest);
      assert items == [items[0]] + os;
    }
  }

  /** One item, a comma and bytes that parse as the other items. */
  lemma ItemsStep(p: Platform, first: string, more: string, o: Ordered, os: seq<Ordered>, rest: string)
    requires Lawful(p) && SkipSpace(p, more) == more
    requires ParseValue(p, first + ("," + more)) == Ok((o, "," + more))
    requires ParseItems(p, more) == Ok((os, rest))
    ensures ParseItems(p, first + ("," + more)) == Ok(([o] + os, rest))
  {
    hide ParseValue;
    SkipNothing(p, "," + more);
    assert ("," + more)[1..] == more;
  }

  lemma {:induction false} EntriesRoundTrip(p: Platform, es: seq<Entry>, rest: string)
    requires Lawful(p) && forall i :: 0 <= i < |es| ==> Identifier(p, es[i].name) && Printable(p, es[i].value)
    ensures ParseEntries(p, Join(PrintEntries(p, es)) + "}" + rest) == Ok((es, rest))
    decreases es, 0
  {
    hide ParseValue, Print, Printable, Join, Identifier;
    var s := Join(PrintEntries(p, es)) + "}" + rest;
    if es == [] {
      assert s == "}" + rest by { JoinNothing(p); }
      SkipNothing(p, s);
    } else {
      hide ParseEntries, PrintEntry;
      var e, more := es[0], es[1..];
      JoinFront(PrintEntries(p, es));
      assert PrintEntries(p, es)[1..] == PrintEntries(p, more);
      var text := Join(PrintEntries(p, more)) + "}" + rest;
      var tail := if more == [] then "}" + rest else "," + text;
      assert s == PrintEntry(p, e) + tail;
      ValueRoundTrip(p, e.value, tail);
      EntryStep(p, e, tail);
      if more == [] {
        assert tail[1..] == rest;
        assert es == [e];
      } else {
        assert tail[1..] == text;
        EntriesRoundTrip(p, more, rest);
        assert es == [e] + more;
      }
    }
  }

  lemma EntryRoundTrip(p: Platform, e: Entry, tail: string)
    requires Lawful(p) && Identifier(p, e.name)
    requires ParseValue(p, Print(p, e.value) + tail) == Ok((e.value, tail))
    ensures ParseEntry(p, PrintEntry(p, e) + tail) == Ok((e, tail))
  {
    hide ParseValue, Print, ParseName, Identifier;
    var value := Print(p, e.value) + tail;
    assert PrintEntry(p, e) + tail == e.name + (":" + value);
    NameRoundTrip(p, e.name, ":" + value);
    SkipNothing(p, ":" + value);
    assert (":" + value)[1..] == value;
  }

  /** One entry and the delimiter after it. */
  lemma EntryStep(p: Platform, e: Entry, tail: string)
    requires Lawful(p) && Identifier(p, e.name) && tail != [] && tail[0] in ",}"
    requires ParseValue(p, Print(p, e.value) + tail) == Ok((e.value, tail))
    ensures tail[0] == '}' ==> ParseEntries(p, PrintEntry(p, e) + tail) == Ok(([e], tail[1..]))
    ensures tail[0] == ',' && ParseEntries(p, tail[1..]).Ok? ==>
      ParseEntries(p, PrintEntry(p, e) + tail)
      == Ok(([e] + ParseEntries(p, tail[1..]).value.0, ParseEntries(p, tail[1..]).value.1))
  {
    hide ParseEntry, Print;
    EntryRoundTrip(p, e, tail);
    assert e.name[0] in e.name;
    assert (PrintEntry(p, e) + tail)[0] == e.name[0];
    SkipNothing(p, PrintEntry(p, e) + tail);
    SkipNothing(p, tail);
  }

  lemma NameRoundTrip(p: Platform, name: string, rest: string)
    requires Lawful(p) && Identifier(p, name) && rest != [] && rest[0] == ':'
    ensures ParseName(p, name + rest) == Ok((name, rest))
  {
    TakeIdentOf(p, name, rest);
    assert (name + rest)[0] == name[0];
  }

  /** Printing and parsing gives the tree back, in whatever order its compounds were walked. */
  lemma RoundTrip(p: Platform, o: Ordered)
    requires Lawful(p) && Printable(p, o)
    ensures ParseSnbt(p, Print(p, o)) == Ok(Erase(o))
  {
    hide ParseValue, Print;
    ValueRoundTrip(p, o, "");
    assert Print(p, o) + "" == Print(p, o);
  }

  // ---------------------------------------------------------------------
  // Where the round trip stops
  // ---------------------------------------------------------------------

  /** How far the first colon is, or the end. */
  function ToColon(s: string): (n: nat)
    ensures n <= |s|
  {
    if s == [] || s[0] == ':' then 0 else 1 + ToColon(s[1..])
  }

  lemma {:induction false} ToColonFront(a: string, b: string)
    ensures ToColon(a + b) == if ToColon(a) < |a| then ToColon(a) else |a| + ToColon(b)
  {
    if a == [] {
      assert a + b == b;
    } else if a[0] != ':' {
      ToColonFront(a[1..], b);
      assert (a + b)[1..] == a[1..] + b;
    }
  }

  /** Reading a quoted string never moves a colon back: the first one of what was read is no further
      than the first one of the text. */
  lemma {:induction false} UnquoteToColon(s: string, quote: char, escaped: bool)
    requires Unquote(s, quote, escaped).Some?
    ensures ToColon(Unquote(s, quote, escaped).value.0) <= ToColon(s) + (if escaped then 1 else 0)
    decreases |s|
  {
    if escaped {
      UnquoteToColon(s[1..], quote, false);
      UnescapeToColon(s[0], Unquote(s[1..], quote, false).value.0);
    } else if s[0] == '\\' {
      UnquoteToColon(s[1..], quote, true);
    } else if s[0] != quote {
      UnquoteToColon(s[1..], quote, false);
      var t := Unquote(s[1..], quote, false).value.0;
      assert ([s[0]] + t)[1..] == t;
    }
  }

  lemma UnescapeToColon(c: char, t: string)
    ensures ToColon(Unescape(c) + t) <= if c == ':' then 1 else 2 + ToColon(t)
  {
    ToColonFront(Unescape(c), t);
    if c == ':' {
      assert Unescape(c)[1..] == [c];
    }
  }

  lemma {:induction false} IdentToColon(p: Platform, s: string)
    requires Lawful(p)
    ensures |TakeIdent(p, s).0| <= ToColon(s)
  {
    if s != [] && IdentChar(p, s[0]) {
      IdentToColon(p, s[1..]);
    }
  }

  lemma {:induction false} SpaceToColon(p: Platform, s: string)
    requires Lawful(p)
    ensures ToColon(s) == ToColon(SkipSpace(p, s)) + |s| - |SkipSpace(p, s)|
  {
    if s != [] && p.whitespace(s[0]) {
      SpaceToColon(p, s[1..]);
    }
  }

  /** A name printed bare is read back as that name, wherever the reader then stops, exactly when it is
      an identifier. */
  lemma NameExact(p: Platform, name: string, rest: string)
    requires Lawful(p) && rest != [] && rest[0] == ':'
    ensures var cur := SkipSpace(p, name + rest);
      && cur != []
      && ((ParseName(p, cur).Ok? && ParseName(p, cur).value.0 == name) <==> Identifier(p, name))
    ensures Identifier(p, name) ==> SkipSpace(p, name + rest) == name + rest && ParseName(p, name + rest) == Ok((name, rest))
  {
    hide Identifier, Unquote, TakeIdent;
    var s := name + rest;
    var cur := SkipSpace(p, s);
    SpaceToColon(p, s);
    ToColonFront(name, rest);
    assert cur != [] by { SolidSomewhere(p, name, rest); }
    if Identifier(p, name) {
      IdentifierStart(p, name, rest);
      NameRoundTrip(p, name, rest);
    }
    if ParseName(p, cur).Ok? && ParseName(p, cur).value.0 == name {
      ReadNameIsIdentifier(p, s, name);
    }
  }

  lemma IdentifierStart(p: Platform, name: string, rest: string)
    requires Lawful(p) && Identifier(p, name)
    ensures SkipSpace(p, name + rest) == name + rest
  {
    assert (name + rest)[0] == name[0];
  }

  lemma {:induction false} SolidSomewhere(p: Platform, s: string, rest: string)
    requires Lawful(p) && rest != [] && rest[0] == ':'
    ensures SkipSpace(p, s + rest) != []
  {
    if s == [] {
      assert s + rest == rest;
    } else {
      SolidSomewhere(p, s[1..], rest);
      assert (s + rest)[1..] == s[1..] + rest;
    }
  }

  lemma ReadNameIsIdentifier(p: Platform, s: string, name: string)
    requires Lawful(p) && name <= s && ToColon(s) == ToColon(name) && SkipSpace(p, s) != []
    requires var r := ParseName(p, SkipSpace(p, s)); r.Ok? && r.value.0 == name
    ensures Identifier(p, name)
  {
    var cur := SkipSpace(p, s);
    SpaceToColon(p, s);
    if cur[0] == '"' || cur[0] == '\'' {
      UnquoteToColon(cur[1..], cur[0], false);
      assert false;
    } else {
      IdentToColon(p, cur);
      TakeIdentChars(p, cur);
      assert name[0] == cur[0];
    }
  }

  /** The end tag prints as a word and comes back as a string. */
  lemma EndBecomesString(p: Platform)
    requires Lawful(p)
    ensures ParseSnbt(p, Print(p, OPlain(End))) == Ok(Plain(String("END")))
  {
    var s := "END";
    SkipNothing(p, s);
    TakeIdentOf(p, s, "");
    assert s + "" == s;
  }
}
