/** Named Binary Tag values and their wire format. */
module Nbt {
  import opened Bytes
  import Utf8

  const MAX_DEPTH := 512
  const MAX_ARRAY := 1_048_576
  const MAX_STRING := 65_535

  type u32 = n: int | 0 <= n < 0x1_0000_0000
  type u64 = n: int | 0 <= n < 0x1_0000_0000_0000_0000

  /** The tags without children. Floats are carried as their bit patterns. */
  datatype Leaf =
    | End
    | Byte(int8: i8)
    | Short(int16: i16)
    | Int(int32: i32)
    | Long(int64: i64)
    | Float(bits32: u32)
    | Double(bits64: u64)
    | ByteArray(bytes: seq<i8>)
    | String(text: string)
    | IntArray(ints: seq<i32>)
    | LongArray(longs: seq<i64>)

  datatype Tag =
    | Plain(leaf: Leaf)
    | List(items: seq<Tag>)
    | Compound(entries: map<string, Tag>)

  /** A tag as it is walked or read: the entries of a compound in some order, which for a hash map
      is any order. */
  datatype Ordered =
    | OPlain(leaf: Leaf)
    | OList(items: seq<Ordered>)
    | OCompound(entries: seq<Entry>)

  datatype Entry = Entry(name: string, value: Ordered)

  // ---------------------------------------------------------------------
  // Trees and orders
  // ---------------------------------------------------------------------

  /** Forget the order; a repeated name keeps its last value. */
  function Erase(o: Ordered): (t: Tag)
    decreases o
  {
    match o
    case OPlain(l) => Plain(l)
    case OList(items) => List(EraseAll(items))
    case OCompound(es) => Compound(EraseInto(map[], es))
  }

  function EraseAll(os: seq<Ordered>): (ts: seq<Tag>)
    ensures |ts| == |os|
    ensures forall i :: 0 <= i < |os| ==> ts[i] == Erase(os[i])
    decreases os
  {
    if os == [] then [] else [Erase(os[0])] + EraseAll(os[1..])
  }

  function EraseInto(m: map<string, Tag>, es: seq<Entry>): (r: map<string, Tag>)
    decreases es
  {
    if es == [] then m else EraseInto(m[es[0].name := Erase(es[0].value)], es[1..])
  }

  predicate DistinctNames(es: seq<Entry>) {
    forall i, j :: 0 <= i < j < |es| ==> es[i].name != es[j].name
  }

  /** `o` is one way to walk the tree `Erase(o)`: no name comes up twice. */
  ghost predicate IsWalk(o: Ordered)
    decreases o
  {
    match o
    case OPlain(_) => true
    case OList(items) => forall i :: 0 <= i < |items| ==> IsWalk(items[i])
    case OCompound(es) => DistinctNames(es) && forall i :: 0 <= i < |es| ==> IsWalk(es[i].value)
  }

  /** Inserting in order: the map holds the last value of every name, over what was there. */
  lemma {:induction false} EraseIntoLast(m: map<string, Tag>, es: seq<Entry>, i: nat)
    requires i < |es| && forall j :: i < j < |es| ==> es[j].name != es[i].name
    ensures es[i].name in EraseInto(m, es) && EraseInto(m, es)[es[i].name] == Erase(es[i].value)
    decreases es
  {
    hide Erase;
    var m1 := m[es[0].name := Erase(es[0].value)];
    if i == 0 {
      EraseIntoOther(m1, es[1..], es[0].name);
    } else {
      EraseIntoLast(m1, es[1..], i - 1);
    }
  }

  lemma {:induction false} EraseIntoOther(m: map<string, Tag>, es: seq<Entry>, k: string)
    requires forall i :: 0 <= i < |es| ==> es[i].name != k
    ensures k in EraseInto(m, es) <==> k in m
    ensures k in m ==> EraseInto(m, es)[k] == m[k]
    decreases es
  {
    hide Erase;
    if es != [] {
      EraseIntoOther(m[es[0].name := Erase(es[0].value)], es[1..], k);
    }
  }

  /** The last entry of a name that comes up. */
  lemma {:induction false} LastOf(es: seq<Entry>, k: string) returns (i: nat)
    requires exists j :: 0 <= j < |es| && es[j].name == k
    ensures i < |es| && es[i].name == k && forall j :: i < j < |es| ==> es[j].name != k
  {
    if es[|es| - 1].name == k {
      i := |es| - 1;
    } else {
      var j :| 0 <= j < |es| && es[j].name == k;
      assert es[..|es| - 1][j].name == k;
      i := LastOf(es[..|es| - 1], k);
    }
  }

  lemma EraseIntoSpec(m: map<string, Tag>, es: seq<Entry>)
    ensures forall k :: k in EraseInto(m, es) <==> k in m || exists i :: 0 <= i < |es| && es[i].name == k
    ensures forall k :: k in EraseInto(m, es) ==>
      || (k in m && EraseInto(m, es)[k] == m[k])
      || exists i :: 0 <= i < |es| && es[i].name == k && EraseInto(m, es)[k] == Erase(es[i].value)
    ensures DistinctNames(es) ==>
      forall i :: 0 <= i < |es| ==> es[i].name in EraseInto(m, es) && EraseInto(m, es)[es[i].name] == Erase(es[i].value)
  {
    hide EraseInto, Erase;
    forall k
      ensures k in EraseInto(m, es) <==> k in m || exists i :: 0 <= i < |es| && es[i].name == k
      ensures k in EraseInto(m, es) ==>
        || (k in m && EraseInto(m, es)[k] == m[k])
        || exists i :: 0 <= i < |es| && es[i].name == k && EraseInto(m, es)[k] == Erase(es[i].value)
    {
      if exists i :: 0 <= i < |es| && es[i].name == k {
        var i := LastOf(es, k);
        EraseIntoLast(m, es, i);
      } else {
        EraseIntoOther(m, es, k);
      }
    }
    if DistinctNames(es) {
      forall i | 0 <= i < |es|
        ensures es[i].name in EraseInto(m, es) && EraseInto(m, es)[es[i].name] == Erase(es[i].value)
      {
        EraseIntoLast(m, es, i);
      }
    }
  }

  lemma EraseAllSnoc(os: seq<Ordered>, o: Ordered)
    ensures EraseAll(os + [o]) == EraseAll(os) + [Erase(o)]
  {
  }

  lemma {:induction false} EraseIntoSnoc(m: map<string, Tag>, es: seq<Entry>, e: Entry)
    ensures EraseInto(m, es + [e]) == EraseInto(m, es)[e.name := Erase(e.value)]
    decreases es
  {
    hide Erase;
    if es == [] {
      assert es + [e] == [e] && [e][1..] == es;
      assert EraseInto(m[e.name := Erase(e.value)], es) == m[e.name := Erase(e.value)];
    } else {
      EraseIntoSnoc(m[es[0].name := Erase(es[0].value)], es[1..], e);
      assert (es + [e])[1..] == es[1..] + [e];
    }
  }

  /** What was read, as the tree it is a walk of. */
  ghost function Erased<R, E>(d: Result<(Ordered, R), E>): Result<(Tag, R), E> {
    match d
    case Ok((o, rest)) => Ok((Erase(o), rest))
    case Err(e) => Err(e)
  }

  ghost function ErasedItems<R, E>(d: Result<(seq<Ordered>, R), E>): Result<(Tag, R), E> {
    match d
    case Ok((os, rest)) => Ok((List(EraseAll(os)), rest))
    case Err(e) => Err(e)
  }

  ghost function ErasedEntries<R, E>(d: Result<(seq<Entry>, R), E>): Result<(Tag, R), E> {
    match d
    case Ok((es, rest)) => Ok((Compound(EraseInto(map[], es)), rest))
    case Err(e) => Err(e)
  }

  /** Every tree can be walked. */
  lemma {:induction false} SomeWalk(t: Tag) returns (o: Ordered)
    ensures IsWalk(o) && Erase(o) == t
    decreases t, 1
  {
    match t
    case Plain(l) => o := OPlain(l);
    case List(items) =>
      var os: seq<Ordered> := [];
      while |os| < |items|
        invariant |os| <= |items|
        invariant forall i :: 0 <= i < |os| ==> IsWalk(os[i]) && Erase(os[i]) == items[i]
      {
        var next := SomeWalk(items[|os|]);
        os := os + [next];
      }
      o := OList(os);
      assert EraseAll(os) == items;
    case Compound(m) =>
      var es := SomeEntries(t, m.Keys);
      o := OCompound(es);
      EraseIntoSpec(map[], es);
      assert EraseInto(map[], es) == m;
  }

  lemma {:induction false} SomeEntries(t: Tag, keys: set<string>) returns (es: seq<Entry>)
    requires t.Compound? && keys <= t.entries.Keys
    ensures DistinctNames(es)
    ensures forall i :: 0 <= i < |es| ==> es[i].name in keys && IsWalk(es[i].value) && Erase(es[i].value) == t.entries[es[i].name]
    ensures forall k :: k in keys ==> exists i :: 0 <= i < |es| && es[i].name == k
    decreases t, 0, |keys|
  {
    if keys == {} {
      es := [];
    } else {
      var k :| k in keys;
      var v := SomeWalk(t.entries[k]);
      hide Erase, IsWalk, DistinctNames;
      var rest := SomeEntries(t, keys - {k});
      es := [Entry(k, v)] + rest;
      NewName(Entry(k, v), rest);
      forall i | 0 <= i < |es|
        ensures es[i].name in keys && IsWalk(es[i].value) && Erase(es[i].value) == t.entries[es[i].name]
      {
        assert i > 0 ==> es[i] == rest[i - 1] && rest[i - 1].name in keys - {k};
      }
      forall x | x in keys ensures exists i :: 0 <= i < |es| && es[i].name == x {
        if x == k {
          assert es[0].name == x;
        } else {
          assert x in keys - {k};
          var i :| 0 <= i < |rest| && rest[i].name == x;
          assert es[i + 1].name == x;
        }
      }
    }
  }

  lemma NewName(e: Entry, rest: seq<Entry>)
    requires DistinctNames(rest) && forall i :: 0 <= i < |rest| ==> rest[i].name != e.name
    ensures DistinctNames([e] + rest)
  {
    var es := [e] + rest;
    assert forall i :: 0 < i < |es| ==> es[i] == rest[i - 1];
  }

  // ---------------------------------------------------------------------
  // Tag types
  // ---------------------------------------------------------------------

  /** The tag type bytes, in the order of the wire format. */
  type Kind = k: int | 0 <= k <= 12

  const END: Kind := 0
  const LIST: Kind := 9
  const COMPOUND: Kind := 10

  function KindOfByte(b: byte): (r: Result<Kind, Error>) {
    if b <= 12 then Ok(b) else Err(UnknownNbtTag(b))
  }

  function LeafKind(l: Leaf): (k: Kind)
    ensures k != LIST && k != COMPOUND && (k == END <==> l.End?)
  {
    match l
    case End => 0
    case Byte(_) => 1
    case Short(_) => 2
    case Int(_) => 3
    case Long(_) => 4
    case Float(_) => 5
    case Double(_) => 6
    case ByteArray(_) => 7
    case String(_) => 8
    case IntArray(_) => 11
    case LongArray(_) => 12
  }

  function KindOf(o: Ordered): Kind {
    match o
    case OPlain(l) => LeafKind(l)
    case OList(_) => LIST
    case OCompound(_) => COMPOUND
  }

  function TagKind(t: Tag): Kind {
    match t
    case Plain(l) => LeafKind(l)
    case List(_) => LIST
    case Compound(_) => COMPOUND
  }

  // ---------------------------------------------------------------------
  // Leaves
  // ---------------------------------------------------------------------

  function PutString(text: string): seq<byte> {
    var bs := Utf8.Encode(text);
    PutBe(2, |bs|) + bs
  }

  predicate ShortString(text: string) {
    |Utf8.Encode(text)| <= MAX_STRING
  }

  function GetString(bs: seq<byte>): (r: Decoded<string>)
    ensures r.Ok? ==> |r.value.1| + 2 <= |bs|
  {
    var (n, rest) :- GetUnsigned(2, bs);
    if |rest| < n then Err(UnexpectedEof)
    else
      match Utf8.Decode(rest[..n])
      case None => Err(InvalidUtf8)
      case Some(text) => Ok((text, rest[n..]))
  }

  function PutInts(k: nat, ns: seq<int>): seq<byte> {
    if ns == [] then [] else PutBe(k, ns[0]) + PutInts(k, ns[1..])
  }

  function GetInts(k: nat, n: nat, bs: seq<byte>): (r: Decoded<seq<int>>)
    ensures r.Ok? ==> |r.value.0| == n && |r.value.1| <= |bs|
    ensures r.Ok? ==> forall i :: 0 <= i < n ==> -Pow256(k) <= 2 * r.value.0[i] < Pow256(k)
    decreases n
  {
    if n == 0 then Ok(([], bs))
    else
      var (v, rest) :- GetSigned(k, bs);
      SignedRange(bs[..k]);
      var (vs, rest') :- GetInts(k, n - 1, rest);
      Ok(([v] + vs, rest'))
  }

  /** A length and that many `k`-byte integers. */
  function PutArray(k: nat, ns: seq<int>): seq<byte> {
    PutBe(4, |ns|) + PutInts(k, ns)
  }

  function GetLength(bs: seq<byte>): (r: Decoded<nat>)
    ensures r.Ok? ==> r.value.0 <= MAX_ARRAY && |r.value.1| + 4 == |bs|
  {
    var (n, rest) :- GetSigned(4, bs);
    if 0 <= n <= MAX_ARRAY then Ok((n, rest)) else Err(UnknownNbtTag(0))
  }

  function GetArray(k: nat, bs: seq<byte>): (r: Decoded<seq<int>>)
    ensures r.Ok? ==> |r.value.0| <= MAX_ARRAY && |r.value.1| <= |bs|
    ensures r.Ok? ==> forall i :: 0 <= i < |r.value.0| ==> -Pow256(k) <= 2 * r.value.0[i] < Pow256(k)
  {
    var (n, rest) :- GetLength(bs);
    GetInts(k, n, rest)
  }

  function PutLeaf(l: Leaf): seq<byte> {
    match l
    case End => []
    case Byte(v) => PutBe(1, v)
    case Short(v) => PutBe(2, v)
    case Int(v) => PutBe(4, v)
    case Long(v) => PutBe(8, v)
    case Float(v) => PutBe(4, v)
    case Double(v) => PutBe(8, v)
    case ByteArray(vs) => PutArray(1, vs)
    case String(text) => PutString(text)
    case IntArray(vs) => PutArray(4, vs)
    case LongArray(vs) => PutArray(8, vs)
  }

  function GetLeaf(kind: Kind, bs: seq<byte>): (r: Decoded<Leaf>)
    requires kind != LIST && kind != COMPOUND
    ensures r.Ok? ==> |r.value.1| <= |bs|
  {
    Widths();
    if kind == 0 then Ok((End, bs))
    else if kind == 1 then var (v, rest) :- GetSigned(1, bs); SignedRange(bs[..1]); Ok((Byte(v), rest))
    else if kind == 2 then var (v, rest) :- GetSigned(2, bs); SignedRange(bs[..2]); Ok((Short(v), rest))
    else if kind == 3 then var (v, rest) :- GetSigned(4, bs); SignedRange(bs[..4]); Ok((Int(v), rest))
    else if kind == 4 then var (v, rest) :- GetSigned(8, bs); SignedRange(bs[..8]); Ok((Long(v), rest))
    else if kind == 5 then var (v, rest) :- GetUnsigned(4, bs); UnsignedBound(bs[..4]); Ok((Float(v), rest))
    else if kind == 6 then var (v, rest) :- GetUnsigned(8, bs); UnsignedBound(bs[..8]); Ok((Double(v), rest))
    else if kind == 7 then var (vs, rest) :- GetArray(1, bs); Ok((ByteArray(vs), rest))
    else if kind == 8 then var (text, rest) :- GetString(bs); Ok((String(text), rest))
    else if kind == 11 then var (vs, rest) :- GetArray(4, bs); Ok((IntArray(vs), rest))
    else var (vs, rest) :- GetArray(8, bs); Ok((LongArray(vs), rest))
  }

  /** The limits the reader puts on a leaf. */
  predicate LeafFits(l: Leaf) {
    match l
    case ByteArray(vs) => |vs| <= MAX_ARRAY
    case IntArray(vs) => |vs| <= MAX_ARRAY
    case LongArray(vs) => |vs| <= MAX_ARRAY
    case String(text) => ShortString(text)
    case _ => true
  }

  lemma StringRoundTrip(text: string, suffix: seq<byte>)
    requires ShortString(text)
    ensures GetString(PutString(text) + suffix) == Ok((text, suffix))
  {
    hide Utf8.Encode, Utf8.Decode;
    var bs := Utf8.Encode(text);
    Widths();
    GetUnsignedOfPut(2, |bs|, bs + suffix);
    assert PutString(text) + suffix == PutBe(2, |bs|) + (bs + suffix);
    Utf8.RoundTrip(text);
    assert (bs + suffix)[..|bs|] == bs && (bs + suffix)[|bs|..] == suffix;
  }

  lemma {:induction false} IntsRoundTrip(k: nat, ns: seq<int>, suffix: seq<byte>)
    requires forall i :: 0 <= i < |ns| ==> -Pow256(k) <= 2 * ns[i] < Pow256(k)
    ensures GetInts(k, |ns|, PutInts(k, ns) + suffix) == Ok((ns, suffix))
    decreases |ns|
  {
    hide PutBe, GetSigned;
    if ns == [] {
      assert PutInts(k, ns) + suffix == suffix;
    } else {
      var tail := PutInts(k, ns[1..]) + suffix;
      assert PutInts(k, ns) + suffix == PutBe(k, ns[0]) + tail;
      GetSignedOfPut(k, ns[0], tail);
      IntsRoundTrip(k, ns[1..], suffix);
      assert ns == [ns[0]] + ns[1..];
    }
  }

  lemma LengthRoundTrip(n: nat, suffix: seq<byte>)
    requires n <= MAX_ARRAY
    ensures GetLength(PutBe(4, n) + suffix) == Ok((n, suffix))
  {
    Widths();
    GetSignedOfPut(4, n, suffix);
  }

  lemma ArrayRoundTrip(k: nat, ns: seq<int>, suffix: seq<byte>)
    requires |ns| <= MAX_ARRAY
    requires forall i :: 0 <= i < |ns| ==> -Pow256(k) <= 2 * ns[i] < Pow256(k)
    ensures GetArray(k, PutArray(k, ns) + suffix) == Ok((ns, suffix))
  {
    hide PutBe, GetLength, GetInts, PutInts;
    LengthRoundTrip(|ns|, PutInts(k, ns) + suffix);
    IntsRoundTrip(k, ns, suffix);
    assert PutArray(k, ns) + suffix == PutBe(4, |ns|) + (PutInts(k, ns) + suffix);
  }

  lemma LeafRoundTrip(l: Leaf, suffix: seq<byte>)
    requires LeafFits(l)
    ensures GetLeaf(LeafKind(l), PutLeaf(l) + suffix) == Ok((l, suffix))
  {
    hide PutBe, GetSigned, GetUnsigned, GetArray, PutArray, GetString, PutString, Pow256;
    Widths();
    match l
    case End => assert PutLeaf(l) + suffix == suffix;
    case Byte(v) => GetSignedOfPut(1, v, suffix);
    case Short(v) => GetSignedOfPut(2, v, suffix);
    case Int(v) => GetSignedOfPut(4, v, suffix);
    case Long(v) => GetSignedOfPut(8, v, suffix);
    case Float(v) => GetUnsignedOfPut(4, v, suffix);
    case Double(v) => GetUnsignedOfPut(8, v, suffix);
    case ByteArray(vs) => ArrayRoundTrip(1, vs, suffix);
    case String(text) => StringRoundTrip(text, suffix);
    case IntArray(vs) => ArrayRoundTrip(4, vs, suffix);
    case LongArray(vs) => ArrayRoundTrip(8, vs, suffix);
  }

  lemma GetStringShort(bs: seq<byte>)
    requires GetString(bs).Ok?
    ensures ShortString(GetString(bs).value.0)
  {
    hide Utf8.Encode, Utf8.Decode;
    var (n, rest) := GetUnsigned(2, bs).value;
    UnsignedBound(bs[..2]);
    Widths();
    Utf8.Canonical(rest[..n]);
  }

  /** A leaf that was read has the kind that was asked for and is within the limits. */
  lemma GetLeafFits(kind: Kind, bs: seq<byte>)
    requires kind != LIST && kind != COMPOUND && GetLeaf(kind, bs).Ok?
    ensures LeafKind(GetLeaf(kind, bs).value.0) == kind
    ensures LeafFits(GetLeaf(kind, bs).value.0)
  {
    hide GetSigned, GetUnsigned, GetArray, GetString, Pow256, ShortString;
    if kind == 8 {
      GetStringShort(bs);
    }
  }
}
