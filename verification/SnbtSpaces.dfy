/** SNBT as people write it: white space between any two tokens, names bare or quoted, a comma after the
    last entry. */
module SnbtSpaces {
  import opened Bytes
  import opened Nbt
  import opened SnbtText
  import opened Snbt

  /** White space; no digit of any script is any. */
  ghost predicate White(p: Platform, w: string) {
    forall c <- w :: p.whitespace(c) && !p.numeric(c)
  }

  /** A name may stand bare if it is an identifier, and may always be quoted. */
  predicate NameText(p: Platform, name: string, n: string) {
    n == Quote(name) || (n == name && Identifier(p, name))
  }

  /** The text `t` is a way to write `o`. */
  ghost predicate Spaced(p: Platform, o: Ordered, t: string)
    decreases o, 2
  {
    match o
    case OPlain(l) => PrintableLeaf(p, l) && t == PrintLeaf(p, l)
    case OList(items) =>
      && t != [] && t[0] == '['
      && if items == [] then t[|t| - 1] == ']' && |t| > 1 && White(p, t[1..|t| - 1]) else SpacedLater(p, items, t[1..])
    case OCompound(es) => t != [] && t[0] == '{' && SpacedEntries(p, es, t[1..])
  }

  ghost predicate SpacedLater(p: Platform, items: seq<Ordered>, s: string)
    requires items != []
    decreases items, 2
  {
    exists w, body :: SplitsSpace(p, items, s, w, body)
  }

  ghost predicate SplitsSpace(p: Platform, items: seq<Ordered>, s: string, w: string, body: string)
    requires items != []
    decreases items, 1
  {
    s == w + body && White(p, w) && exists t, w1, tail :: SplitsItem(p, items, body, t, w1, tail)
  }

  ghost predicate SplitsItem(p: Platform, items: seq<Ordered>, body: string, t: string, w: string, tail: string)
    requires items != []
    decreases items, 0
  {
    && body == t + (w + tail) && White(p, w) && Spaced(p, items[0], t)
    && if |items| == 1 then tail == "]" else tail != [] && tail[0] == ',' && SpacedLater(p, items[1..], tail[1..])
  }

  ghost predicate SpacedEntries(p: Platform, es: seq<Entry>, body: string)
    decreases es, 1
  {
    if es == [] then body != [] && body[|body| - 1] == '}' && White(p, body[..|body| - 1])
    else exists w, n, w1, w2, t, w3, tail :: SplitsEntry(p, es, body, w, n, w1, w2, t, w3, tail)
  }

  ghost predicate SplitsEntry(p: Platform, es: seq<Entry>, body: string, w: string, n: string, w1: string, w2: string,
                              t: string, w3: string, tail: string)
    requires es != []
    decreases es, 0
  {
    && body == w + (n + (w1 + (":" + (w2 + (t + (w3 + tail))))))
    && White(p, w) && White(p, w1) && White(p, w2) && White(p, w3)
    && NameText(p, es[0].name, n) && Spaced(p, es[0].value, t)
    && if tail == "}" then |es| == 1 else tail != [] && tail[0] == ',' && SpacedEntries(p, es[1..], tail[1..])
  }

  // ---------------------------------------------------------------------
  // White space
  // ---------------------------------------------------------------------

  lemma {:induction false} SkipRun(p: Platform, w: string, s: string)
    requires White(p, w)
    ensures SkipSpace(p, w + s) == SkipSpace(p, s)
  {
    if w == [] {
      assert w + s == s;
    } else {
      assert w[0] in w && forall c <- w[1..] :: c in w;
      SkipRun(p, w[1..], s);
      assert (w + s)[1..] == w[1..] + s;
    }
  }

  lemma ValueAfterRun(p: Platform, w: string, s: string)
    requires White(p, w)
    ensures ParseValue(p, w + s) == ParseValue(p, s)
  {
    hide ParseNumber, ParseEntries, ParseListOrArray, ParseQuoted, TakeIdent, SkipSpace;
    SkipRun(p, w, s);
  }

  /** What may stand behind a value: white space, and what closes or goes on. */
  lemma RunFollows(p: Platform, w: string, s: string)
    requires Lawful(p) && White(p, w) && s != [] && s[0] in ",:]}"
    ensures Follows(w + s) && !IdentChar(p, (w + s)[0]) && SkipSpace(p, w + s) == s
  {
    SkipRun(p, w, s);
    SkipNothing(p, s);
    if w != [] {
      assert w[0] in w;
      var c := w[0];
      assert (w + s)[0] == c;
      assert Letter(c) ==> c as int < 128;
    }
  }

  // ---------------------------------------------------------------------
  // Names
  // ---------------------------------------------------------------------

  lemma NameReads(p: Platform, name: string, n: string, rest: string)
    requires Lawful(p) && NameText(p, name, n) && rest != [] && !IdentChar(p, rest[0])
    ensures n != [] && SkipSpace(p, n + rest) == n + rest && n[0] != '}' && ParseName(p, n + rest) == Ok((name, rest))
  {
    hide Unquote, Escape;
    var s := n + rest;
    if n == Quote(name) {
      assert s[1..] == Escape(name) + (['"'] + rest);
      UnquoteOfEscape(name, rest);
    } else {
      assert name[0] in name;
      TakeIdentOf(p, name, rest);
    }
    SkipNothing(p, s);
  }

  // ---------------------------------------------------------------------
  // Values
  // ---------------------------------------------------------------------

  lemma SpacedStart(p: Platform, o: Ordered, t: string)
    requires Spaced(p, o, t)
    ensures ValueStart(t)
  {
    hide SpacedLater, SpacedEntries, PrintLeaf, PrintableLeaf;
    if o.OPlain? {
      PrintStart(p, o);
    }
  }

  /** However it is spaced, a value is read as that walk, exactly up to what follows it. */
  lemma {:induction false} SpacedReads(p: Platform, o: Ordered, t: string, rest: string)
    requires Lawful(p) && Spaced(p, o, t) && Follows(rest)
    ensures ParseValue(p, t + rest) == Ok((o, rest))
    decreases o, 2
  {
    hide ParseValue, SpacedLater, SpacedEntries, ParseListOrArray, ParseEntries;
    match o
    case OPlain(l) => Snbt.LeafRoundTrip(p, l, rest);
    case OList(items) =>
      var s := t[1..] + rest;
      assert t + rest == "[" + s;
      ListValue(p, s);
      if items == [] {
        EmptyListReads(p, t[1..|t| - 1], rest);
        assert s == t[1..|t| - 1] + ("]" + rest);
      } else {
        LaterReads(p, items, t[1..], rest);
        ListReads(p, items, s, rest);
      }
    case OCompound(es) =>
      assert t + rest == "{" + (t[1..] + rest);
      EntriesRead(p, es, t[1..], rest);
      CompoundValue(p, t[1..] + rest);
  }

  lemma EmptyListReads(p: Platform, w: string, rest: string)
    requires Lawful(p) && White(p, w)
    ensures ParseListOrArray(p, w + ("]" + rest)) == Ok((OList([]), rest))
  {
    hide ParseItems, ParseTypedArray;
    RunFollows(p, w, "]" + rest);
    assert ("]" + rest)[1..] == rest;
  }

  lemma ListReads(p: Platform, items: seq<Ordered>, s: string, rest: string)
    requires ValueStart(SkipSpace(p, s)) && ParseItems(p, SkipSpace(p, s)) == Ok((items, rest))
    ensures ParseListOrArray(p, s) == Ok((OList(items), rest))
  {
    hide ParseItems, ParseTypedArray, SkipSpace;
  }

  lemma {:induction false} LaterReads(p: Platform, items: seq<Ordered>, s: string, rest: string)
    requires Lawful(p) && items != [] && SpacedLater(p, items, s)
    ensures ValueStart(SkipSpace(p, s + rest)) && ParseItems(p, SkipSpace(p, s + rest)) == Ok((items, rest))
    decreases items, 1
  {
    hide ParseItems, ParseValue, Spaced, White;
    var w, body :| SplitsSpace(p, items, s, w, body);
    ItemSplits(p, items, s, w, body);
    var t, w1, tail :| SplitsItem(p, items, body, t, w1, tail);
    SpacedStart(p, items[0], t);
    assert s + rest == w + (body + rest);
    SkipRun(p, w, body + rest);
    StartIsSolid(p, body + rest);
    assert body + rest == t + (w1 + (tail + rest));
    ItemReads(p, items, t, w1, tail, rest);
  }

  lemma ItemSplits(p: Platform, items: seq<Ordered>, s: string, w: string, body: string)
    requires items != [] && SplitsSpace(p, items, s, w, body)
    ensures exists t, w1, tail :: SplitsItem(p, items, body, t, w1, tail)
  {
  }

  lemma {:induction false} ItemReads(p: Platform, items: seq<Ordered>, t: string, w: string, tail: string, rest: string)
    requires Lawful(p) && items != [] && SplitsItem(p, items, t + (w + tail), t, w, tail)
    ensures ParseItems(p, t + (w + (tail + rest))) == Ok((items, rest))
    decreases items, 0
  {
    hide ParseValue, Spaced, White, SpacedLater, SkipSpace;
    var next := tail + rest;
    assert next[0] == tail[0];
    RunFollows(p, w, next);
    SpacedReads(p, items[0], t, w + next);
    if |items| == 1 {
      assert next[1..] == rest && items == [items[0]];
    } else {
      assert next[1..] == tail[1..] + rest;
      LaterReads(p, items[1..], tail[1..], rest);
      assert items == [items[0]] + items[1..];
    }
  }

  lemma {:induction false} EntriesRead(p: Platform, es: seq<Entry>, body: string, rest: string)
    requires Lawful(p) && SpacedEntries(p, es, body)
    ensures ParseEntries(p, body + rest) == Ok((es, rest))
    decreases es, 1
  {
    hide ParseEntries;
    if es == [] {
      EntriesEnd(p, body[..|body| - 1], rest);
      assert body + rest == body[..|body| - 1] + ("}" + rest);
    } else {
      hide SpacedEntries, SplitsEntry;
      EntrySplits(p, es, body);
      var w, n, w1, w2, t, w3, tail :| SplitsEntry(p, es, body, w, n, w1, w2, t, w3, tail);
      FirstEntryReads(p, es, body, w, n, w1, w2, t, w3, tail, rest);
    }
  }

  lemma {:induction false} FirstEntryReads(p: Platform, es: seq<Entry>, body: string, w: string, n: string, w1: string, w2: string,
                                           t: string, w3: string, tail: string, rest: string)
    requires Lawful(p) && es != [] && SplitsEntry(p, es, body, w, n, w1, w2, t, w3, tail)
    ensures ParseEntries(p, body + rest) == Ok((es, rest))
    decreases es, 0
  {
    hide SpacedEntries, Spaced, White, NameText, ParseEntries, ParseValue, SkipSpace, Follows, IdentChar, Lawful;
    var next := tail + rest;
    assert next[0] == tail[0];
    RunFollows(p, w3, next);
    SpacedReads(p, es[0].value, t, w3 + next);
    if tail == "}" {
      assert next[1..] == rest && es[1..] == [];
    } else {
      assert next[1..] == tail[1..] + rest;
      EntriesRead(p, es[1..], tail[1..], rest);
    }
    OneEntry(p, es[0], w, n, w1, w2, t, w3, next, es[1..], rest);
    Regroup(w, n, w1, w2, t, w3, tail, rest);
    assert es == [es[0]] + es[1..];
  }

  lemma Regroup(w: string, n: string, w1: string, w2: string, t: string, w3: string, tail: string, rest: string)
    ensures w + (n + (w1 + (":" + (w2 + (t + (w3 + tail)))))) + rest
         == w + (n + (w1 + (":" + (w2 + (t + (w3 + (tail + rest)))))))
  {
    var value := w2 + (t + (w3 + tail));
    assert value + rest == w2 + (t + (w3 + (tail + rest)));
    assert w + (n + (w1 + (":" + value))) + rest == w + (n + (w1 + (":" + (value + rest))));
  }

  lemma EntriesEnd(p: Platform, w: string, rest: string)
    requires Lawful(p) && White(p, w)
    ensures ParseEntries(p, w + ("}" + rest)) == Ok(([], rest))
  {
    hide ParseEntry;
    RunFollows(p, w, "}" + rest);
    assert ("}" + rest)[1..] == rest;
  }

  /** One entry, the white space around its parts, and what follows it. */
  lemma OneEntry(p: Platform, e: Entry, w: string, n: string, w1: string, w2: string, t: string, w3: string, next: string,
                 es: seq<Entry>, rest: string)
    requires Lawful(p) && NameText(p, e.name, n) && White(p, w) && White(p, w1) && White(p, w2)
    requires ParseValue(p, t + (w3 + next)) == Ok((e.value, w3 + next))
    requires SkipSpace(p, w3 + next) == next && next != []
    requires if next[0] == '}' then es == [] && next[1..] == rest else next[0] == ',' && ParseEntries(p, next[1..]) == Ok((es, rest))
    ensures ParseEntries(p, w + (n + (w1 + (":" + (w2 + (t + (w3 + next))))))) == Ok(([e] + es, rest))
  {
    hide ParseEntries, ParseEntry, ParseValue, White, NameText, SkipSpace;
    var after := w3 + next;
    var s := n + (w1 + (":" + (w2 + (t + after))));
    EntryReads(p, e, n, w1, w2, t, after);
    SkipRun(p, w, s);
    NextEntry(p, w + s, s, e, after, next, es, rest);
  }

  lemma EntrySplits(p: Platform, es: seq<Entry>, body: string)
    requires es != [] && SpacedEntries(p, es, body)
    ensures exists w, n, w1, w2, t, w3, tail :: SplitsEntry(p, es, body, w, n, w1, w2, t, w3, tail)
  {
  }

  lemma EntryReads(p: Platform, e: Entry, n: string, w1: string, w2: string, t: string, after: string)
    requires Lawful(p) && NameText(p, e.name, n) && White(p, w1) && White(p, w2)
    requires ParseValue(p, t + after) == Ok((e.value, after))
    ensures var s := n + (w1 + (":" + (w2 + (t + after))));
      s != [] && s[0] != '}' && SkipSpace(p, s) == s && ParseEntry(p, s) == Ok((e, after))
  {
    hide ParseValue, ParseName, NameText, White, SkipSpace;
    var value := w2 + (t + after);
    RunFollows(p, w1, ":" + value);
    NameReads(p, e.name, n, w1 + (":" + value));
    assert (":" + value)[1..] == value;
    ValueAfterRun(p, w2, t + after);
  }

  /** One entry and what follows it. */
  lemma NextEntry(p: Platform, whole: string, s: string, e: Entry, after: string, next: string, es: seq<Entry>, rest: string)
    requires s != [] && s[0] != '}' && SkipSpace(p, whole) == s && ParseEntry(p, s) == Ok((e, after))
    requires SkipSpace(p, after) == next && next != []
    requires if next[0] == '}' then es == [] && next[1..] == rest else next[0] == ',' && ParseEntries(p, next[1..]) == Ok((es, rest))
    ensures ParseEntries(p, whole) == Ok(([e] + es, rest))
  {
    hide ParseEntry, SkipSpace;
    assert es == [] ==> [e] + es == [e];
  }

  /** So is a whole text, with white space in front and anything behind. */
  lemma TextReads(p: Platform, o: Ordered, w: string, t: string, rest: string)
    requires Lawful(p) && White(p, w) && Spaced(p, o, t) && Follows(rest)
    ensures ParseSnbt(p, w + (t + rest)) == Ok(Erase(o))
  {
    hide ParseValue, Spaced, White, Follows;
    ValueAfterRun(p, w, t + rest);
    SpacedReads(p, o, t, rest);
  }
}
