/** Exactly which trees come back from their printed text. */
module SnbtExact {
  import opened Bytes
  import opened Nbt
  import opened SnbtText
  import opened Snbt

  // ---------------------------------------------------------------------
  // Walks
  // ---------------------------------------------------------------------

  /** The floats of a tree print as plain decimals that parse back. */
  predicate FloatsFit(p: Platform, o: Ordered)
    decreases o
  {
    match o
    case OPlain(l) => l.Float? || l.Double? ==> PrintableLeaf(p, l)
    case OList(items) => forall i :: 0 <= i < |items| ==> FloatsFit(p, items[i])
    case OCompound(es) => forall i :: 0 <= i < |es| ==> FloatsFit(p, es[i].value)
  }

  /** No text reads as the end tag. */
  lemma NeverEnd(p: Platform, s: string)
    requires ParseValue(p, s).Ok?
    ensures ParseValue(p, s).value.0 != OPlain(End)
  {
    hide ParseEntries, ParseItems, Token, Unquote, TakeIdent, ParseElements;
  }

  /** The first character of any printed value. */
  lemma SolidStart(p: Platform, o: Ordered, rest: string)
    requires Lawful(p) && FloatsFit(p, o)
    ensures SkipSpace(p, Print(p, o) + rest) == Print(p, o) + rest && Print(p, o) != []
  {
    if o == OPlain(End) {
      assert Print(p, o)[0] == 'E';
    } else {
      assert ValueStart(Print(p, o)) by { AnyStart(p, o); }
      StartIsSolid(p, Print(p, o) + rest);
    }
  }

  lemma AnyStart(p: Platform, o: Ordered)
    requires FloatsFit(p, o) && o != OPlain(End)
    ensures ValueStart(Print(p, o))
  {
    match o
    case OPlain(l) => PrintStart(p, o);
    case _ =>
  }

  /** A walk that its printed text reads as is printable. */
  lemma {:induction false} ReadIsPrintable(p: Platform, o: Ordered, rest: string)
    requires Lawful(p) && FloatsFit(p, o) && Follows(rest)
    requires var r := ParseValue(p, Print(p, o) + rest); r.Ok? && r.value.0 == o
    ensures Printable(p, o)
    decreases o, 1
  {
    hide ParseItems, ParseEntries, Join, PrintItems, PrintEntries, ParseTypedArray;
    NeverEnd(p, Print(p, o) + rest);
    match o
    case OPlain(l) =>
    case OList(items) =>
      if items != [] {
        var body := Join(PrintItems(p, items)) + "]" + rest;
        assert Print(p, o) + rest == "[" + body;
        ListValue(p, body);
        ItemsSolid(p, items, "]" + rest);
        assert Join(PrintItems(p, items)) + ("]" + rest) == body;
        ItemsRead(p, items, rest);
      }
    case OCompound(es) =>
      var body := Join(PrintEntries(p, es)) + "}" + rest;
      assert Print(p, o) + rest == "{" + body;
      CompoundReads(p, body);
      EntriesRead(p, es, rest);
  }

  lemma CompoundReads(p: Platform, body: string)
    requires Lawful(p) && ParseValue(p, "{" + body).Ok?
    ensures ParseEntries(p, body).Ok?
    ensures ParseValue(p, "{" + body).value.0 == OCompound(ParseEntries(p, body).value.0)
  {
    hide ParseEntries;
    SkipNothing(p, "{" + body);
    assert ("{" + body)[1..] == body;
  }

  lemma ItemsSolid(p: Platform, items: seq<Ordered>, rest: string)
    requires Lawful(p) && items != [] && FloatsFit(p, items[0])
    ensures var s := Join(PrintItems(p, items)) + rest; SkipSpace(p, s) == s
  {
    hide Print, FloatsFit;
    JoinFront(PrintItems(p, items));
    var s, first := Join(PrintItems(p, items)) + rest, Print(p, items[0]);
    SolidStart(p, items[0], s[|first|..]);
    assert s == first + s[|first|..];
  }

  lemma {:induction false} ItemsRead(p: Platform, items: seq<Ordered>, rest: string)
    requires Lawful(p) && items != [] && forall i :: 0 <= i < |items| ==> FloatsFit(p, items[i])
    requires var r := ParseItems(p, Join(PrintItems(p, items)) + "]" + rest); r.Ok? && r.value.0 == items
    ensures forall i :: 0 <= i < |items| ==> Printable(p, items[i])
    decreases items, 0
  {
    hide ParseValue, Print, Printable, Join, FloatsFit;
    var s := Join(PrintItems(p, items)) + "]" + rest;
    var o, os := items[0], items[1..];
    var more := Join(PrintItems(p, os)) + "]" + rest;
    var tail := if os == [] then "]" + rest else "," + more;
    JoinFront(PrintItems(p, items));
    assert PrintItems(p, items)[1..] == PrintItems(p, os);
    assert s == Print(p, o) + tail;
    ReadIsPrintable(p, o, tail);
    ValueRoundTrip(p, o, tail);
    if os != [] {
      SkipNothing(p, tail);
      assert tail[1..] == more;
      ItemsSolid(p, os, "]" + rest);
      assert Join(PrintItems(p, os)) + ("]" + rest) == more;
      assert items == [o] + os;
      ItemsRead(p, os, rest);
    }
  }

  lemma {:induction false} EntriesRead(p: Platform, es: seq<Entry>, rest: string)
    requires Lawful(p) && forall i :: 0 <= i < |es| ==> FloatsFit(p, es[i].value)
    requires var r := ParseEntries(p, Join(PrintEntries(p, es)) + "}" + rest); r.Ok? && r.value.0 == es
    ensures forall i :: 0 <= i < |es| ==> Identifier(p, es[i].name) && Printable(p, es[i].value)
    decreases es, 0
  {
    hide ParseValue, Print, Printable, Join, Identifier, FloatsFit, ParseEntry;
    if es != [] {
      var s := Join(PrintEntries(p, es)) + "}" + rest;
      var e, more := es[0], es[1..];
      var text := Join(PrintEntries(p, more)) + "}" + rest;
      var tail := if more == [] then "}" + rest else "," + text;
      JoinFront(PrintEntries(p, es));
      assert PrintEntries(p, es)[1..] == PrintEntries(p, more);
      assert s == PrintEntry(p, e) + tail;
      EntryRead(p, e, tail);
      ReadIsPrintable(p, e.value, tail);
      ValueRoundTrip(p, e.value, tail);
      EntryRoundTrip(p, e, tail);
      if more != [] {
        SkipNothing(p, tail);
        assert tail[1..] == text;
        assert es == [e] + more;
        EntriesRead(p, more, rest);
      }
    }
  }

  /** When the first entry is read as itself, its name is an identifier and its value was read as itself. */
  lemma EntryRead(p: Platform, e: Entry, tail: string)
    requires Lawful(p) && SkipSpace(p, PrintEntry(p, e) + tail) != []
    requires var r := ParseEntry(p, SkipSpace(p, PrintEntry(p, e) + tail)); r.Ok? && r.value.0 == e
    ensures Identifier(p, e.name) && SkipSpace(p, PrintEntry(p, e) + tail) == PrintEntry(p, e) + tail
    ensures var r := ParseValue(p, Print(p, e.value) + tail); r.Ok? && r.value.0 == e.value
  {
    hide ParseValue, Print, Identifier, ParseName;
    var value := Print(p, e.value) + tail;
    assert PrintEntry(p, e) + tail == e.name + (":" + value);
    NameExact(p, e.name, ":" + value);
    SkipNothing(p, ":" + value);
    assert (":" + value)[1..] == value;
  }

  /** A value in front of anything that cannot be taken for part of it is read as itself, wherever the
      reader stops, exactly when it has no end tag and only identifiers for names; the reader then
      stops where the value ends. */
  lemma ValueExact(p: Platform, o: Ordered, rest: string)
    requires Lawful(p) && FloatsFit(p, o) && Follows(rest)
    ensures var r := ParseValue(p, Print(p, o) + rest);
      && ((r.Ok? && r.value.0 == o) <==> Printable(p, o))
      && (Printable(p, o) ==> r == Ok((o, rest)))
  {
    hide ParseValue, Print, Printable;
    var r := ParseValue(p, Print(p, o) + rest);
    if Printable(p, o) {
      ValueRoundTrip(p, o, rest);
    }
    if r.Ok? && r.value.0 == o {
      ReadIsPrintable(p, o, rest);
    }
  }
}
