/** The bytes of NBT, spelled out, and the reader as exactly what accepts them. */
module NbtLayout {
  import opened Bytes
  import opened Nbt
  import opened NbtWire
  import Utf8

  // ---------------------------------------------------------------------
  // The bytes of each kind
  // ---------------------------------------------------------------------

  /** The numbers of the tags on the wire. */
  lemma WireNumbers()
    ensures KindOf(OPlain(End)) == 0
    ensures forall v :: KindOf(OPlain(Byte(v))) == 1
    ensures forall v :: KindOf(OPlain(Short(v))) == 2
    ensures forall v :: KindOf(OPlain(Int(v))) == 3
    ensures forall v :: KindOf(OPlain(Long(v))) == 4
    ensures forall v :: KindOf(OPlain(Float(v))) == 5
    ensures forall v :: KindOf(OPlain(Double(v))) == 6
    ensures forall vs :: KindOf(OPlain(ByteArray(vs))) == 7
    ensures forall text :: KindOf(OPlain(String(text))) == 8
    ensures forall items :: KindOf(OList(items)) == 9
    ensures forall es :: KindOf(OCompound(es)) == 10
    ensures forall vs :: KindOf(OPlain(IntArray(vs))) == 11
    ensures forall vs :: KindOf(OPlain(LongArray(vs))) == 12
  {
  }

  /** The two's-complement number the bytes spell, most significant first, has these low bits. */
  predicate Spelt(bs: seq<byte>, k: nat, n: int) {
    |bs| == k && forall i :: 0 <= i < k ==> bs[i] == n / Pow256(k - 1 - i) % 256
  }

  lemma PutBeSpelt(k: nat, n: int)
    ensures Spelt(PutBe(k, n), k, n)
  {
    hide PutBe;
    forall i | 0 <= i < k ensures PutBe(k, n)[i] == n / Pow256(k - 1 - i) % 256 {
      PutBeAt(k, n, i);
    }
  }

  /** Numbers of `k` bytes each, in order. */
  predicate NumbersSpelt(bs: seq<byte>, k: nat, ns: seq<int>)
    decreases |ns|
  {
    if ns == [] then bs == []
    else |bs| >= k && Spelt(bs[..k], k, ns[0]) && NumbersSpelt(bs[k..], k, ns[1..])
  }

  lemma {:induction false} NumberBytes(k: nat, ns: seq<int>)
    ensures NumbersSpelt(PutInts(k, ns), k, ns)
    decreases |ns|
  {
    hide PutBe, Spelt;
    if ns != [] {
      PutBeSpelt(k, ns[0]);
      NumberBytes(k, ns[1..]);
      var bs := PutInts(k, ns);
      assert bs[..k] == PutBe(k, ns[0]) && bs[k..] == PutInts(k, ns[1..]);
    }
  }

  /** An array of `k`-byte numbers: the count in four bytes, then the numbers. */
  predicate ArraySpelt(bs: seq<byte>, k: nat, ns: seq<int>) {
    |bs| >= 4 && Spelt(bs[..4], 4, |ns|) && NumbersSpelt(bs[4..], k, ns)
  }

  lemma ArrayBytes(k: nat, ns: seq<int>)
    ensures ArraySpelt(PutArray(k, ns), k, ns)
  {
    hide PutBe, PutInts, Spelt, NumbersSpelt;
    var bs := PutArray(k, ns);
    PutBeSpelt(4, |ns|);
    NumberBytes(k, ns);
    assert bs[..4] == PutBe(4, |ns|) && bs[4..] == PutInts(k, ns);
  }

  /** A string: its length in bytes in two bytes, then its UTF-8. */
  predicate TextSpelt(bs: seq<byte>, text: string) {
    |bs| >= 2 && Spelt(bs[..2], 2, |bs| - 2) && bs[2..] == Utf8.Encode(text)
  }

  lemma TextBytes(text: string)
    ensures TextSpelt(PutString(text), text)
  {
    hide PutBe, Spelt, Utf8.Encode;
    PutBeSpelt(2, |Utf8.Encode(text)|);
  }

  /** The payload of every leaf. */
  lemma LeafBytes(l: Leaf)
    ensures var bs := PutLeaf(l);
      match l
      case End => bs == []
      case Byte(v) => Spelt(bs, 1, v)
      case Short(v) => Spelt(bs, 2, v)
      case Int(v) => Spelt(bs, 4, v)
      case Long(v) => Spelt(bs, 8, v)
      case Float(bits) => Spelt(bs, 4, bits)
      case Double(bits) => Spelt(bs, 8, bits)
      case ByteArray(vs) => ArraySpelt(bs, 1, vs)
      case String(text) => TextSpelt(bs, text)
      case IntArray(vs) => ArraySpelt(bs, 4, vs)
      case LongArray(vs) => ArraySpelt(bs, 8, vs)
  {
    hide PutBe, PutArray, PutString, Spelt, ArraySpelt, TextSpelt;
    match l
    case End =>
    case Byte(v) => PutBeSpelt(1, v);
    case Short(v) => PutBeSpelt(2, v);
    case Int(v) => PutBeSpelt(4, v);
    case Long(v) => PutBeSpelt(8, v);
    case Float(v) => PutBeSpelt(4, v);
    case Double(v) => PutBeSpelt(8, v);
    case ByteArray(vs) => ArrayBytes(1, vs);
    case String(text) => TextBytes(text);
    case IntArray(vs) => ArrayBytes(4, vs);
    case LongArray(vs) => ArrayBytes(8, vs);
  }

  /** An empty list is five zero bytes; any other starts with the number of its first item's kind and
      the count, followed by the items in order. */
  lemma ListBytes(items: seq<Ordered>)
    ensures Put(OList([])) == [0, 0, 0, 0, 0]
    ensures var bs := Put(OList(items));
      && |bs| >= 5 && Spelt(bs[1..5], 4, |items|) && bs[5..] == PutItems(items)
      && (items != [] ==> bs[0] == KindOf(items[0]))
  {
    assert PutBe(4, 0) == [0, 0, 0, 0] by { FourZeros(); }
    hide PutBe, Spelt, PutItems;
    PutBeSpelt(4, |items|);
    assert Put(OList(items))[1..5] == PutBe(4, |items|);
    assert PutItems([]) == [] by { NoItemBytes(); }
  }

  lemma FourZeros()
    ensures PutBe(4, 0) == [0, 0, 0, 0]
  {
    assert PutBe(1, 0) == [0];
    assert PutBe(2, 0) == [0, 0];
    assert PutBe(3, 0) == [0, 0, 0];
  }

  lemma NoItemBytes()
    ensures PutItems([]) == []
  {
  }

  /** Items one after the other; entries as kind, name and value, and a zero byte at the end. */
  lemma SequenceBytes(o: Ordered, items: seq<Ordered>, e: Entry, es: seq<Entry>)
    ensures PutItems([o] + items) == Put(o) + PutItems(items)
    ensures PutEntries([]) == [0]
    ensures PutEntries([e] + es) == [KindOf(e.value)] + PutString(e.name) + Put(e.value) + PutEntries(es)
    ensures Put(OCompound(es)) == PutEntries(es)
  {
    assert ([o] + items)[1..] == items && ([e] + es)[1..] == es;
  }

  /** A root: the number of a compound, its name, its entries. */
  lemma RootBytes(name: string, es: seq<Entry>)
    ensures PutRoot(name, es) == [10] + PutString(name) + PutEntries(es)
  {
  }

  // ---------------------------------------------------------------------
  // What the reader accepts
  // ---------------------------------------------------------------------

  /** The bytes `bs` are a way to write `o` that the reader takes at `depth`. They are the bytes of the
      writer but for the kind of an empty list, which may be any. */
  ghost predicate Spells(o: Ordered, bs: seq<byte>, depth: nat)
    decreases o, 1
  {
    match o
    case OPlain(l) => LeafFits(l) && bs == PutLeaf(l)
    case OList(items) =>
      && |bs| >= 5 && bs[0] <= 12 && |items| <= 1048576 && bs[1..5] == PutBe(4, |items|)
      && (bs[0] == 10 ==> depth < 512)
      && SpellsItems(bs[0], items, bs[5..], if bs[0] == 10 then depth + 1 else depth)
    case OCompound(es) => depth < 512 && SpellsEntries(es, bs, depth + 1)
  }

  ghost predicate SpellsItems(kind: Kind, items: seq<Ordered>, bs: seq<byte>, depth: nat)
    decreases items, 0
  {
    if items == [] then bs == []
    else exists k: nat :: SplitsItem(kind, items, bs, depth, k)
  }

  ghost predicate SplitsItem(kind: Kind, items: seq<Ordered>, bs: seq<byte>, depth: nat, k: nat)
    requires items != []
    decreases items, 0, k
  {
    && k <= |bs| && KindOf(items[0]) == kind && Spells(items[0], bs[..k], depth)
    && SpellsItems(kind, items[1..], bs[k..], depth)
  }

  ghost predicate SpellsEntries(es: seq<Entry>, bs: seq<byte>, depth: nat)
    decreases es, 0
  {
    if es == [] then bs == [0]
    else exists k: nat :: SplitsEntry(es, bs, depth, k)
  }

  ghost predicate SplitsEntry(es: seq<Entry>, bs: seq<byte>, depth: nat, k: nat)
    requires es != []
    decreases es, 0, k
  {
    var e := es[0];
    var head := [KindOf(e.value)] + PutString(e.name);
    && KindOf(e.value) != 0 && ShortString(e.name)
    && |head| <= k <= |bs| && bs[..|head|] == head && Spells(e.value, bs[|head|..k], depth)
    && SpellsEntries(es[1..], bs[k..], depth)
  }

  // ---------------------------------------------------------------------
  // Accepted bytes are spelt
  // ---------------------------------------------------------------------

  /** The limits on a leaf: numbers in an array, bytes in a string. */
  lemma LeafLimits(l: Leaf)
    ensures l.ByteArray? ==> (LeafFits(l) <==> |l.bytes| <= 1048576)
    ensures l.IntArray? ==> (LeafFits(l) <==> |l.ints| <= 1048576)
    ensures l.LongArray? ==> (LeafFits(l) <==> |l.longs| <= 1048576)
    ensures l.String? ==> (LeafFits(l) <==> |Utf8.Encode(l.text)| <= 65535)
  {
  }

  lemma {:induction false} PutBeWraps(k: nat, n: int)
    ensures PutBe(k, n - Pow256(k)) == PutBe(k, n)
  {
    if k > 0 {
      var p := Pow256(k - 1);
      UniqueRemainder(n - 256 * p, 256, n / 256 - p, n % 256);
      PutBeWraps(k - 1, n / 256);
    }
  }

  lemma SignedBytes(bs: seq<byte>)
    ensures PutBe(|bs|, Signed(bs)) == bs
  {
    hide PutBe, Unsigned, Pow256;
    PutOfUnsigned(bs);
    PutBeWraps(|bs|, Unsigned(bs));
  }

  lemma {:induction false} IntsAccepted(k: nat, n: nat, bs: seq<byte>)
    requires GetInts(k, n, bs).Ok?
    ensures bs == PutInts(k, GetInts(k, n, bs).value.0) + GetInts(k, n, bs).value.1
    decreases n
  {
    hide PutBe, Signed;
    if n > 0 {
      var (vs, rest) := GetInts(k, n - 1, bs[k..]).value;
      IntsAccepted(k, n - 1, bs[k..]);
      SignedBytes(bs[..k]);
      var v := Signed(bs[..k]);
      assert ([v] + vs)[1..] == vs;
      assert bs == PutBe(k, v) + (PutInts(k, vs) + rest);
    }
  }

  lemma ArrayAccepted(k: nat, bs: seq<byte>)
    requires GetArray(k, bs).Ok?
    ensures bs == PutArray(k, GetArray(k, bs).value.0) + GetArray(k, bs).value.1
  {
    hide PutBe, Signed, GetInts, PutInts;
    var (n, rest) := GetLength(bs).value;
    SignedBytes(bs[..4]);
    IntsAccepted(k, n, rest);
    var (vs, tail) := GetInts(k, n, rest).value;
    assert |vs| == n by { IntsCounted(k, n, rest); }
    assert bs == PutBe(4, n) + (PutInts(k, vs) + tail);
  }

  lemma IntsCounted(k: nat, n: nat, bs: seq<byte>)
    requires GetInts(k, n, bs).Ok?
    ensures |GetInts(k, n, bs).value.0| == n
  {
  }

  lemma StringAccepted(bs: seq<byte>)
    requires GetString(bs).Ok?
    ensures var (text, rest) := GetString(bs).value; bs == PutString(text) + rest && ShortString(text)
  {
    hide PutBe, Unsigned, Utf8.Encode, Utf8.Decode, ShortString;
    var (n, tail) := GetUnsigned(2, bs).value;
    var (text, rest) := GetString(bs).value;
    PutOfUnsigned(bs[..2]);
    Utf8.Canonical(tail[..n]);
    GetStringShort(bs);
    assert bs == PutBe(2, n) + (tail[..n] + rest);
    assert PutString(text) == PutBe(2, n) + tail[..n];
  }

  lemma LeafAccepted(kind: Kind, bs: seq<byte>)
    requires kind != LIST && kind != COMPOUND && GetLeaf(kind, bs).Ok?
    ensures var (l, rest) := GetLeaf(kind, bs).value; bs == PutLeaf(l) + rest && LeafFits(l) && LeafKind(l) == kind
  {
    hide PutBe, Signed, Unsigned, GetArray, PutArray, GetString, PutString, ShortString;
    GetLeafFits(kind, bs);
    var (l, rest) := GetLeaf(kind, bs).value;
    if kind == 0 {
      assert [] + rest == rest;
    } else if kind == 1 || kind == 2 || kind == 3 || kind == 4 {
      SignedBytes(bs[..|bs| - |rest|]);
    } else if kind == 5 || kind == 6 {
      PutOfUnsigned(bs[..|bs| - |rest|]);
    } else if kind == 7 {
      ArrayAccepted(1, bs);
    } else if kind == 8 {
      StringAccepted(bs);
    } else if kind == 11 {
      ArrayAccepted(4, bs);
    } else {
      ArrayAccepted(8, bs);
    }
  }

  /** The bytes used up. */
  function Used(bs: seq<byte>, rest: seq<byte>): seq<byte>
    requires |rest| <= |bs|
  {
    bs[..|bs| - |rest|]
  }

  lemma {:induction false} GetSpells(kind: Kind, bs: seq<byte>, depth: nat)
    requires Get(kind, bs, depth).Ok?
    ensures var (o, rest) := Get(kind, bs, depth).value;
      KindOf(o) == kind && bs == Used(bs, rest) + rest && Spells(o, Used(bs, rest), depth)
    decreases |bs|, 1, 0
  {
    hide GetLeaf, PutLeaf, GetItems, GetEntries, SpellsItems, SpellsEntries, PutBe, Signed, LeafFits, LeafKind;
    var (o, rest) := Get(kind, bs, depth).value;
    if kind == LIST {
      var (n, after) := GetLength(bs[1..]).value;
      var d := if bs[0] == COMPOUND then depth + 1 else depth;
      GetItemsSpells(bs[0], n, after, d);
      SignedBytes(bs[1..][..4]);
      var used := Used(bs, rest);
      assert bs[1..][..4] == used[1..5] && used[5..] == Used(after, rest);
      ItemsCounted(bs[0], n, after, d);
    } else if kind == COMPOUND {
      GetEntriesSpells(bs, depth + 1);
    } else {
      LeafAccepted(kind, bs);
      assert Used(bs, rest) == PutLeaf(o.leaf);
    }
  }

  lemma ItemsCounted(kind: Kind, n: nat, bs: seq<byte>, depth: nat)
    requires GetItems(kind, n, bs, depth).Ok?
    ensures |GetItems(kind, n, bs, depth).value.0| == n
  {
  }

  lemma {:induction false} GetItemsSpells(kind: Kind, n: nat, bs: seq<byte>, depth: nat)
    requires GetItems(kind, n, bs, depth).Ok?
    ensures var (items, rest) := GetItems(kind, n, bs, depth).value;
      |rest| <= |bs| && bs == Used(bs, rest) + rest && SpellsItems(kind, items, Used(bs, rest), depth)
    decreases |bs|, 2, n
  {
    hide Get, Spells, KindOf;
    if n > 0 {
      var (o, after) := Get(kind, bs, depth).value;
      GetSpells(kind, bs, depth);
      GetItemsSpells(kind, n - 1, after, depth);
      var (os, rest) := GetItems(kind, n - 1, after, depth).value;
      var used, k := Used(bs, rest), |bs| - |after|;
      assert used[..k] == Used(bs, after) && used[k..] == Used(after, rest);
      var items := [o] + os;
      assert items[1..] == os;
      assert SplitsItem(kind, items, used, depth, k);
    }
  }

  lemma {:induction false} GetEntriesSpells(bs: seq<byte>, depth: nat)
    requires GetEntries(bs, depth).Ok?
    ensures var (es, rest) := GetEntries(bs, depth).value;
      |rest| <= |bs| && bs == Used(bs, rest) + rest && SpellsEntries(es, Used(bs, rest), depth)
    decreases |bs|, 0, 0
  {
    hide Get, Spells, KindOf, GetString, PutString, ShortString, SpellsEntries;
    if bs[0] == END {
      assert Used(bs, bs[1..]) == [0];
      NoEntriesSpelt(depth);
    } else {
      var (name, after) := GetString(bs[1..]).value;
      StringAccepted(bs[1..]);
      GetSpells(bs[0], after, depth);
      var (value, after') := Get(bs[0], after, depth).value;
      GetEntriesSpells(after', depth);
      var (es, rest) := GetEntries(after', depth).value;
      var head, own, more := [bs[0]] + PutString(name), Used(after, after'), Used(after', rest);
      EntrySpelt(Entry(name, value), es, own, more, depth);
      assert bs == head + after && after == own + after' && after' == more + rest;
      assert bs == head + own + more + rest;
      assert Used(bs, rest) == head + own + more;
    }
  }

  lemma NoEntriesSpelt(depth: nat)
    ensures SpellsEntries([], [0], depth)
  {
  }

  lemma EntrySpelt(e: Entry, es: seq<Entry>, own: seq<byte>, more: seq<byte>, depth: nat)
    requires KindOf(e.value) != 0 && ShortString(e.name) && Spells(e.value, own, depth) && SpellsEntries(es, more, depth)
    ensures SpellsEntries([e] + es, [KindOf(e.value)] + PutString(e.name) + own + more, depth)
  {
    hide Spells, KindOf, PutString, ShortString;
    var all, head := [e] + es, [KindOf(e.value)] + PutString(e.name);
    var bs, k := head + own + more, |head| + |own|;
    assert all[0] == e && all[1..] == es;
    assert bs[..|head|] == head && bs[|head|..k] == own && bs[k..] == more;
    assert SplitsEntry(all, bs, depth, k);
  }

  // ---------------------------------------------------------------------
  // Spelt bytes are accepted
  // ---------------------------------------------------------------------

  lemma {:induction false} SpeltGets(o: Ordered, bs: seq<byte>, depth: nat, suffix: seq<byte>)
    requires Spells(o, bs, depth)
    ensures Get(KindOf(o), bs + suffix, depth) == Ok((o, suffix))
    decreases o, 1
  {
    hide GetLeaf, PutLeaf, GetItems, GetEntries, SpellsItems, SpellsEntries, PutBe, Signed, LeafFits, LeafKind, GetLength;
    match o
    case OPlain(l) => LeafRoundTrip(l, suffix);
    case OList(items) =>
      var d := if bs[0] == COMPOUND then depth + 1 else depth;
      var all := bs + suffix;
      LengthRoundTrip(|items|, bs[5..] + suffix);
      assert all[0] == bs[0] && all[1..] == PutBe(4, |items|) + (bs[5..] + suffix);
      SpeltItemsGet(bs[0], items, bs[5..], d, suffix);
    case OCompound(es) => SpeltEntriesGet(es, bs, depth + 1, suffix);
  }

  lemma {:induction false} SpeltItemsGet(kind: Kind, items: seq<Ordered>, bs: seq<byte>, depth: nat, suffix: seq<byte>)
    requires SpellsItems(kind, items, bs, depth)
    ensures GetItems(kind, |items|, bs + suffix, depth) == Ok((items, suffix))
    decreases items, 0
  {
    hide Get, Spells, KindOf;
    if items == [] {
      assert bs + suffix == suffix;
    } else {
      var k: nat :| SplitsItem(kind, items, bs, depth, k);
      SpeltGets(items[0], bs[..k], depth, bs[k..] + suffix);
      SpeltItemsGet(kind, items[1..], bs[k..], depth, suffix);
      assert bs + suffix == bs[..k] + (bs[k..] + suffix);
      assert items == [items[0]] + items[1..];
    }
  }

  lemma {:induction false} SpeltEntriesGet(es: seq<Entry>, bs: seq<byte>, depth: nat, suffix: seq<byte>)
    requires SpellsEntries(es, bs, depth)
    ensures GetEntries(bs + suffix, depth) == Ok((es, suffix))
    decreases es, 0
  {
    hide Get, Spells, KindOf, GetString, PutString, ShortString;
    if es == [] {
      assert (bs + suffix)[1..] == suffix;
    } else {
      var k: nat :| SplitsEntry(es, bs, depth, k);
      var e := es[0];
      var head := [KindOf(e.value)] + PutString(e.name);
      var tail := bs[k..] + suffix;
      SpeltGets(e.value, bs[|head|..k], depth, tail);
      SpeltEntriesGet(es[1..], bs[k..], depth, suffix);
      StringRoundTrip(e.name, bs[|head|..k] + tail);
      assert bs == head + bs[|head|..k] + bs[k..];
      assert (bs + suffix)[1..] == PutString(e.name) + (bs[|head|..k] + tail);
      assert es == [e] + es[1..];
    }
  }

  /** The reader gives a value and a rest exactly for the bytes that spell the value in front of the
      rest, at every depth. */
  lemma GetExactly(kind: Kind, bs: seq<byte>, depth: nat, o: Ordered, rest: seq<byte>)
    ensures Get(kind, bs, depth) == Ok((o, rest)) <==>
      KindOf(o) == kind && |rest| <= |bs| && bs == Used(bs, rest) + rest && Spells(o, Used(bs, rest), depth)
  {
    hide Get, Spells, KindOf;
    if Get(kind, bs, depth) == Ok((o, rest)) {
      GetSpells(kind, bs, depth);
    }
    if KindOf(o) == kind && |rest| <= |bs| && bs == Used(bs, rest) + rest && Spells(o, Used(bs, rest), depth) {
      SpeltGets(o, Used(bs, rest), depth, rest);
    }
  }

  /** The root reader: an end tag is the empty root, a compound its name and entries, any other known
      kind that reads is refused with its number. */
  lemma RootForms(bs: seq<byte>, name: string, o: Ordered, rest: seq<byte>)
    requires GetString(bs) == Ok((name, rest)) && bs != []
    ensures GetRoot([0] + bs) == Ok((Root("", map[]), bs))
    ensures GetRoot([]) == Err(UnexpectedEof)
    ensures forall kind: byte, after: seq<byte> :: 1 <= kind <= 12 && Get(kind, rest, 0) == Ok((o, after)) ==>
      GetRoot([kind] + bs) ==
        (if o.OCompound? then Ok((Root(name, EraseInto(map[], o.entries)), after)) else Err(UnknownNbtTag(kind)))
  {
    hide Get, GetString, EraseInto, EraseAll;
    forall kind: byte | true ensures ([kind] + bs)[1..] == bs {
    }
  }
}
