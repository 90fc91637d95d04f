/** Writing and reading NBT trees. */
module NbtWire {
  import opened Bytes
  import opened Nbt

  // ---------------------------------------------------------------------
  // Writing
  // ---------------------------------------------------------------------

  function Put(o: Ordered): (bs: seq<byte>)
    decreases o
  {
    match o
    case OPlain(l) => PutLeaf(l)
    case OList(items) =>
      [if items == [] then END else KindOf(items[0])] + PutBe(4, |items|) + PutItems(items)
    case OCompound(es) => PutEntries(es)
  }

  function PutItems(items: seq<Ordered>): seq<byte>
    decreases items
  {
    if items == [] then [] else Put(items[0]) + PutItems(items[1..])
  }

  function PutEntries(es: seq<Entry>): seq<byte>
    decreases es
  {
    if es == [] then [END] else PutEntry(es[0]) + PutEntries(es[1..])
  }

  function PutEntry(e: Entry): seq<byte>
    decreases e
  {
    [KindOf(e.value)] + PutString(e.name) + Put(e.value)
  }

  /** The writer fails exactly on a string of more than 65535 bytes. */
  predicate Writable(o: Ordered)
    decreases o
  {
    match o
    case OPlain(l) => l.String? ==> ShortString(l.text)
    case OList(items) => forall i :: 0 <= i < |items| ==> Writable(items[i])
    case OCompound(es) => forall i :: 0 <= i < |es| ==> ShortString(es[i].name) && Writable(es[i].value)
  }

  // ---------------------------------------------------------------------
  // Reading
  // ---------------------------------------------------------------------

  function Get(kind: Kind, bs: seq<byte>, depth: nat): (r: Decoded<Ordered>)
    ensures r.Ok? ==> |r.value.1| <= |bs|
    decreases |bs|, 1, 0
  {
    if kind == LIST then
      if bs == [] then Err(UnexpectedEof)
      else
        var element :- KindOfByte(bs[0]);
        var (n, rest) :- GetLength(bs[1..]);
        if element == COMPOUND && depth >= MAX_DEPTH then Err(UnknownNbtTag(0))
        else
          var (items, rest') :- GetItems(element, n, rest, if element == COMPOUND then depth + 1 else depth);
          Ok((OList(items), rest'))
    else if kind == COMPOUND then
      if depth >= MAX_DEPTH then Err(UnknownNbtTag(0))
      else
        var (es, rest) :- GetEntries(bs, depth + 1);
        Ok((OCompound(es), rest))
    else
      var (l, rest) :- GetLeaf(kind, bs);
      Ok((OPlain(l), rest))
  }

  function GetItems(kind: Kind, n: nat, bs: seq<byte>, depth: nat): (r: Decoded<seq<Ordered>>)
    ensures r.Ok? ==> |r.value.0| == n && |r.value.1| <= |bs|
    decreases |bs|, 2, n
  {
    if n == 0 then Ok(([], bs))
    else
      var (o, rest) :- Get(kind, bs, depth);
      var (os, rest') :- GetItems(kind, n - 1, rest, depth);
      Ok(([o] + os, rest'))
  }

  /** The entries of a compound, whose values are read at `depth`. */
  function GetEntries(bs: seq<byte>, depth: nat): (r: Decoded<seq<Entry>>)
    ensures r.Ok? ==> |r.value.1| < |bs|
    decreases |bs|, 0, 0
  {
    if bs == [] then Err(UnexpectedEof)
    else
      var kind :- KindOfByte(bs[0]);
      if kind == END then Ok(([], bs[1..]))
      else
        var (name, rest) :- GetString(bs[1..]);
        var (value, rest') :- Get(kind, rest, depth);
        var (es, rest'') :- GetEntries(rest', depth);
        Ok(([Entry(name, value)] + es, rest''))
  }

  // ---------------------------------------------------------------------
  // What can be read
  // ---------------------------------------------------------------------

  /** The trees the reader can produce at `depth`. */
  ghost predicate Readable(t: Tag, depth: nat)
    decreases t
  {
    match t
    case Plain(l) => LeafFits(l)
    case List(items) =>
      && |items| <= MAX_ARRAY
      && (forall i :: 0 <= i < |items| ==> TagKind(items[i]) == TagKind(items[0]))
      && (if items != [] && items[0].Compound?
          then depth < MAX_DEPTH && forall i :: 0 <= i < |items| ==> Readable(items[i], depth + 1)
          else forall i :: 0 <= i < |items| ==> Readable(items[i], depth))
    case Compound(m) =>
      && depth < MAX_DEPTH
      && forall k :: k in m ==> ShortString(k) && TagKind(m[k]) != END && Readable(m[k], depth + 1)
  }

  lemma KindOfErased(o: Ordered)
    ensures TagKind(Erase(o)) == KindOf(o)
  {
  }

  lemma ListReadable(items: seq<Ordered>, element: Kind, depth: nat)
    requires |items| <= MAX_ARRAY && (element == COMPOUND ==> depth < MAX_DEPTH)
    requires forall i :: 0 <= i < |items| ==>
      KindOf(items[i]) == element && Readable(Erase(items[i]), if element == COMPOUND then depth + 1 else depth)
    ensures Readable(Erase(OList(items)), depth)
  {
    forall i | 0 <= i < |items| ensures TagKind(EraseAll(items)[i]) == element {
      KindOfErased(items[i]);
    }
  }

  lemma CompoundReadable(es: seq<Entry>, depth: nat)
    requires depth < MAX_DEPTH
    requires forall i :: 0 <= i < |es| ==>
      ShortString(es[i].name) && KindOf(es[i].value) != END && Readable(Erase(es[i].value), depth + 1)
    ensures Readable(Erase(OCompound(es)), depth)
  {
    hide ShortString;
    EraseIntoSpec(map[], es);
    forall i | 0 <= i < |es| ensures TagKind(Erase(es[i].value)) != END {
      KindOfErased(es[i].value);
    }
  }

  /** Everything the reader accepts, on any input, is readable in this sense. */
  lemma {:induction false} GetReadable(kind: Kind, bs: seq<byte>, depth: nat)
    requires Get(kind, bs, depth).Ok?
    ensures KindOf(Get(kind, bs, depth).value.0) == kind
    ensures Readable(Erase(Get(kind, bs, depth).value.0), depth)
    decreases |bs|, 1, 0
  {
    hide GetLeaf, LeafFits, GetLength, GetItems, GetEntries;
    if kind == LIST {
      hide Readable, Erase;
      var element := KindOfByte(bs[0]).value;
      var (n, rest) := GetLength(bs[1..]).value;
      var inner := if element == COMPOUND then depth + 1 else depth;
      GetItemsReadable(element, n, rest, inner);
      ListReadable(GetItems(element, n, rest, inner).value.0, element, depth);
    } else if kind == COMPOUND {
      hide Readable, Erase;
      GetEntriesReadable(bs, depth + 1);
      CompoundReadable(GetEntries(bs, depth + 1).value.0, depth);
    } else {
      GetLeafFits(kind, bs);
    }
  }

  lemma {:induction false} GetItemsReadable(kind: Kind, n: nat, bs: seq<byte>, depth: nat)
    requires GetItems(kind, n, bs, depth).Ok?
    ensures var os := GetItems(kind, n, bs, depth).value.0;
      forall i :: 0 <= i < n ==> KindOf(os[i]) == kind && Readable(Erase(os[i]), depth)
    decreases |bs|, 2, n
  {
    hide Get, Readable, Erase;
    if n > 0 {
      GetReadable(kind, bs, depth);
      GetItemsReadable(kind, n - 1, Get(kind, bs, depth).value.1, depth);
    }
  }

  lemma {:induction false} GetEntriesReadable(bs: seq<byte>, depth: nat)
    requires GetEntries(bs, depth).Ok?
    ensures var es := GetEntries(bs, depth).value.0;
      forall i :: 0 <= i < |es| ==>
        ShortString(es[i].name) && KindOf(es[i].value) != END && Readable(Erase(es[i].value), depth)
    decreases |bs|, 0, 0
  {
    hide Get, Readable, Erase, GetString, ShortString;
    var kind := KindOfByte(bs[0]).value;
    if kind != END {
      var rest := GetString(bs[1..]).value.1;
      GetStringShort(bs[1..]);
      GetReadable(kind, rest, depth);
      GetEntriesReadable(Get(kind, rest, depth).value.1, depth);
    }
  }

  // ---------------------------------------------------------------------
  // Round trip
  // ---------------------------------------------------------------------

  /** A readable tree, walked in any order, reads back as that walk and leaves what follows. */
  lemma {:induction false} GetOfPut(o: Ordered, depth: nat, suffix: seq<byte>)
    requires IsWalk(o) && Readable(Erase(o), depth)
    ensures Get(KindOf(o), Put(o) + suffix, depth) == Ok((o, suffix))
    decreases o, 1
  {
    match o
    case OPlain(l) => LeafRoundTrip(l, suffix);
    case OList(items) => ListOfPut(items, depth, suffix);
    case OCompound(es) =>
      EraseIntoSpec(map[], es);
      forall i | 0 <= i < |es| ensures EntryFits(es[i], depth + 1) {
        KindOfErased(es[i].value);
      }
      EntriesOfPut(es, depth + 1, suffix);
  }

  lemma ListOfPut(items: seq<Ordered>, depth: nat, suffix: seq<byte>)
    requires IsWalk(OList(items)) && Readable(List(EraseAll(items)), depth)
    ensures Get(LIST, Put(OList(items)) + suffix, depth) == Ok((OList(items), suffix))
    decreases items, 1
  {
    hide PutBe, GetLength, GetItems, PutItems;
    var element := if items == [] then END else KindOf(items[0]);
    var bs := Put(OList(items)) + suffix;
    var tail := PutItems(items) + suffix;
    assert bs[0] == element && bs[1..] == PutBe(4, |items|) + tail;
    LengthRoundTrip(|items|, tail);
    forall i | 0 <= i < |items| ensures KindOf(items[i]) == element {
      KindOfErased(items[i]);
      KindOfErased(items[0]);
    }
    ItemsOfPut(items, element, if element == COMPOUND then depth + 1 else depth, suffix);
  }

  /** One item in front of bytes that read as `os`. */
  lemma ItemInFront(o: Ordered, kind: Kind, n: nat, depth: nat, tail: seq<byte>, os: seq<Ordered>, suffix: seq<byte>)
    requires Get(kind, Put(o) + tail, depth) == Ok((o, tail))
    requires GetItems(kind, n, tail, depth) == Ok((os, suffix))
    ensures GetItems(kind, n + 1, Put(o) + tail, depth) == Ok(([o] + os, suffix))
  {
    hide Get, Put;
  }

  lemma {:induction false} ItemsOfPut(items: seq<Ordered>, kind: Kind, depth: nat, suffix: seq<byte>)
    requires forall i :: 0 <= i < |items| ==>
      IsWalk(items[i]) && KindOf(items[i]) == kind && Readable(Erase(items[i]), depth)
    ensures GetItems(kind, |items|, PutItems(items) + suffix, depth) == Ok((items, suffix))
    decreases items, 0
  {
    hide Get, Put, Readable, Erase, IsWalk, KindOf;
    if items == [] {
      assert PutItems(items) + suffix == suffix;
    } else {
      hide GetItems;
      var o, os := items[0], items[1..];
      var tail := PutItems(os) + suffix;
      GetOfPut(o, depth, tail);
      ItemsOfPut(os, kind, depth, suffix);
      ItemInFront(o, kind, |os|, depth, tail, os, suffix);
      assert PutItems(items) + suffix == Put(o) + tail;
      assert items == [o] + os;
    }
  }

  ghost predicate EntryFits(e: Entry, depth: nat) {
    ShortString(e.name) && IsWalk(e.value) && KindOf(e.value) != END && Readable(Erase(e.value), depth)
  }

  /** One entry in front of bytes that read as `es`. */
  lemma EntryInFront(e: Entry, depth: nat, tail: seq<byte>, es: seq<Entry>, suffix: seq<byte>)
    requires EntryFits(e, depth) && GetEntries(tail, depth) == Ok((es, suffix))
    ensures GetEntries(PutEntry(e) + tail, depth) == Ok(([e] + es, suffix))
    decreases e, 0
  {
    hide Get, Put, GetString, PutString, ShortString, KindOf, Readable, IsWalk, Erase;
    var value := Put(e.value) + tail;
    var bs := PutEntry(e) + tail;
    StringRoundTrip(e.name, value);
    GetOfPut(e.value, depth, tail);
    assert bs == [KindOf(e.value)] + (PutString(e.name) + value);
    assert bs[1..] == PutString(e.name) + value;
  }

  lemma {:induction false} EntriesOfPut(es: seq<Entry>, depth: nat, suffix: seq<byte>)
    requires forall i :: 0 <= i < |es| ==> EntryFits(es[i], depth)
    ensures GetEntries(PutEntries(es) + suffix, depth) == Ok((es, suffix))
    decreases es, 0
  {
    hide Get, PutEntry, EntryFits;
    if es == [] {
      assert PutEntries(es) + suffix == [END] + suffix;
    } else {
      hide GetEntries;
      var e, rest := es[0], es[1..];
      var tail := PutEntries(rest) + suffix;
      EntriesOfPut(rest, depth, suffix);
      EntryInFront(e, depth, tail, rest, suffix);
      assert PutEntries(es) == PutEntry(e) + PutEntries(rest);
      assert PutEntries(es) + suffix == PutEntry(e) + tail;
      assert es == [e] + rest;
    }
  }

  // ---------------------------------------------------------------------
  // The named root
  // ---------------------------------------------------------------------

  datatype Root = Root(name: string, entries: map<string, Tag>)

  /** The bytes of a root compound whose entries are walked in the order of `es`. */
  function PutRoot(name: string, es: seq<Entry>): seq<byte> {
    [COMPOUND] + PutString(name) + Put(OCompound(es))
  }

  /** The bytes of one root, as far as the parse tree. */
  function GetRootWalk(bs: seq<byte>): (r: Decoded<(string, Ordered)>)
    requires bs != []
  {
    var kind :- KindOfByte(bs[0]);
    var (name, rest) :- GetString(bs[1..]);
    var (o, rest') :- Get(kind, rest, 0);
    Ok(((name, o), rest'))
  }

  function GetRoot(bs: seq<byte>): (r: Decoded<Root>)
  {
    if bs == [] then Err(UnexpectedEof)
    else if bs[0] == END then Ok((Root("", map[]), bs[1..]))
    else
      var ((name, o), rest) :- GetRootWalk(bs);
      match Erase(o)
      case Compound(m) => Ok((Root(name, m), rest))
      case _ => Err(UnknownNbtTag(bs[0]))
  }

  /** A root that was read is readable; a root of a readable tree reads back. */
  lemma GetRootReadable(bs: seq<byte>)
    requires GetRoot(bs).Ok?
    ensures Readable(Compound(GetRoot(bs).value.0.entries), 0)
  {
    hide Get, GetString, Readable, Erase;
    if bs[0] == END {
      EmptyReadable();
    } else {
      var ((name, o), rest) := GetRootWalk(bs).value;
      GetReadable(bs[0], GetString(bs[1..]).value.1, 0);
      assert Erase(o) == Compound(GetRoot(bs).value.0.entries);
    }
  }

  lemma EmptyReadable()
    ensures Readable(Compound(map[]), 0)
  {
  }

  /** The root comes back, whatever order its compounds were walked in and whatever follows it,
      exactly when it is readable. (`ShortString` is what the writer itself checks.) */
  lemma RootRoundTrip(name: string, es: seq<Entry>, suffix: seq<byte>)
    requires IsWalk(OCompound(es)) && ShortString(name)
    ensures var root := Root(name, EraseInto(map[], es));
      GetRoot(PutRoot(name, es) + suffix) == Ok((root, suffix)) <==> Readable(Compound(root.entries), 0)
  {
    hide Get, Put, GetString, PutString, Readable, IsWalk, ShortString;
    var o := OCompound(es);
    var bs := PutRoot(name, es) + suffix;
    var root := Root(name, EraseInto(map[], es));
    assert Erase(o) == Compound(root.entries);
    assert bs[0] == COMPOUND && bs[1..] == PutString(name) + (Put(o) + suffix);
    if Readable(Erase(o), 0) {
      StringRoundTrip(name, Put(o) + suffix);
      GetOfPut(o, 0, suffix);
      assert GetRootWalk(bs) == Ok(((name, o), suffix));
    } else if GetRoot(bs) == Ok((root, suffix)) {
      GetRootReadable(bs);
      assert false;
    }
  }
}
