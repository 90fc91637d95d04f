/** The reader and the writer as the loops over a cursor that they are. */
module NbtCursor {
  import opened Bytes
  import opened Nbt
  import opened NbtWire
  import Utf8

  method ReadFixed(k: nat, signed: bool, src: Source) returns (r: Result<int, Error>)
    modifies src
    ensures signed ==> Did(GetSigned(k, old(src.rest)), r, src.rest)
    ensures !signed ==> Did(GetUnsigned(k, old(src.rest)), r, src.rest)
  {
    if |src.rest| < k {
      return Err(UnexpectedEof);
    }
    var bs := src.rest[..k];
    src.rest := src.rest[k..];
    return Ok(if signed then Signed(bs) else Unsigned(bs));
  }

  method ReadString(src: Source) returns (r: Result<string, Error>)
    modifies src
    ensures Did(GetString(old(src.rest)), r, src.rest)
  {
    var n :- ReadFixed(2, false, src);
    if |src.rest| < n {
      return Err(UnexpectedEof);
    }
    var bs := src.rest[..n];
    src.rest := src.rest[n..];
    var text := Utf8.Decode(bs);
    return if text.None? then Err(InvalidUtf8) else Ok(text.value);
  }

  method ReadArray(k: nat, src: Source) returns (r: Result<seq<int>, Error>)
    modifies src
    ensures Did(GetArray(k, old(src.rest)), r, src.rest)
  {
    hide GetSigned, Signed;
    var len :- ReadFixed(4, true, src);
    if len < 0 || len > MAX_ARRAY {
      return Err(UnknownNbtTag(0));
    }
    var arr := [];
    ghost var start := src.rest;
    PrependNothing(GetInts(k, len, start));
    for i := 0 to len
      invariant GetInts(k, len, start) == Prepend(arr, GetInts(k, len - i, src.rest))
    {
      ghost var cur := src.rest;
      var v := ReadFixed(k, true, src);
      if v.Err? {
        return Err(v.error);
      }
      PrependTwice(arr, v.value, GetInts(k, len - i - 1, src.rest));
      arr := arr + [v.value];
    }
    assert arr + [] == arr;
    return Ok(arr);
  }

  method ReadLeaf(kind: Kind, src: Source) returns (r: Result<Leaf, Error>)
    requires kind != LIST && kind != COMPOUND
    modifies src
    ensures Did(GetLeaf(kind, old(src.rest)), r, src.rest)
  {
    hide GetSigned, GetUnsigned, GetArray, GetString, Pow256;
    Widths();
    ghost var bs := src.rest;
    match kind {
      case 0 => return Ok(End);
      case 1 => var v :- ReadFixed(1, true, src); GetSignedRange(1, bs); return Ok(Byte(v));
      case 2 => var v :- ReadFixed(2, true, src); GetSignedRange(2, bs); return Ok(Short(v));
      case 3 => var v :- ReadFixed(4, true, src); GetSignedRange(4, bs); return Ok(Int(v));
      case 4 => var v :- ReadFixed(8, true, src); GetSignedRange(8, bs); return Ok(Long(v));
      case 5 => var v :- ReadFixed(4, false, src); GetSignedRange(4, bs); return Ok(Float(v));
      case 6 => var v :- ReadFixed(8, false, src); GetSignedRange(8, bs); return Ok(Double(v));
      case 7 => var vs :- ReadArray(1, src); return Ok(ByteArray(vs));
      case 8 => var text :- ReadString(src); return Ok(String(text));
      case 11 => var vs :- ReadArray(4, src); return Ok(IntArray(vs));
      case _ => var vs :- ReadArray(8, src); return Ok(LongArray(vs));
    }
  }

  lemma GetSignedRange(k: nat, bs: seq<byte>)
    ensures GetSigned(k, bs).Ok? ==> -Pow256(k) <= 2 * GetSigned(k, bs).value.0 < Pow256(k)
    ensures GetUnsigned(k, bs).Ok? ==> GetUnsigned(k, bs).value.0 < Pow256(k)
  {
    if |bs| >= k {
      SignedRange(bs[..k]);
      UnsignedBound(bs[..k]);
    }
  }

  method ReadTag(kind: Kind, src: Source, depth: nat) returns (r: Result<Tag, Error>)
    modifies src
    ensures Did(Erased(Get(kind, old(src.rest), depth)), r, src.rest)
    decreases |src.rest|, 1
  {
    hide GetLeaf, GetItems, GetEntries, Signed;
    if kind == LIST {
      if src.rest == [] {
        return Err(UnexpectedEof);
      }
      var element := KindOfByte(src.rest[0]);
      src.rest := src.rest[1..];
      if element.Err? {
        return Err(element.error);
      }
      var len :- ReadFixed(4, true, src);
      if len < 0 || len > MAX_ARRAY {
        return Err(UnknownNbtTag(0));
      }
      if element.value == COMPOUND && depth >= MAX_DEPTH {
        return Err(UnknownNbtTag(0));
      }
      r := ReadItems(element.value, len, src, if element.value == COMPOUND then depth + 1 else depth);
    } else if kind == COMPOUND {
      if depth >= MAX_DEPTH {
        return Err(UnknownNbtTag(0));
      }
      r := ReadEntries(src, depth + 1);
    } else {
      var leaf :- ReadLeaf(kind, src);
      return Ok(Plain(leaf));
    }
  }

  /** The loop over the items of a list. */
  method ReadItems(kind: Kind, len: nat, src: Source, depth: nat) returns (r: Result<Tag, Error>)
    modifies src
    ensures Did(ErasedItems(GetItems(kind, len, old(src.rest), depth)), r, src.rest)
    decreases |src.rest|, 2
  {
    hide Get, Erase;
    var items := [];
    ghost var start, os := src.rest, [];
    PrependNothing(GetItems(kind, len, start, depth));
    for i := 0 to len
      invariant |src.rest| <= |start| && items == EraseAll(os)
      invariant GetItems(kind, len, start, depth) == Prepend(os, GetItems(kind, len - i, src.rest, depth))
    {
      ghost var got := Get(kind, src.rest, depth);
      var item := ReadTag(kind, src, depth);
      if item.Err? {
        return Err(item.error);
      }
      PrependTwice(os, got.value.0, GetItems(kind, len - i - 1, src.rest, depth));
      EraseAllSnoc(os, got.value.0);
      items, os := items + [item.value], os + [got.value.0];
    }
    assert os + [] == os;
    return Ok(List(items));
  }

  /** The loop over the entries of a compound, inserting into the map as it goes. */
  method ReadEntries(src: Source, depth: nat) returns (r: Result<Tag, Error>)
    modifies src
    ensures Did(ErasedEntries(GetEntries(old(src.rest), depth)), r, src.rest)
    decreases |src.rest|, 0
  {
    hide Get, Erase, GetString;
    var m: map<string, Tag> := map[];
    ghost var start, es := src.rest, [];
    PrependNothing(GetEntries(start, depth));
    while true
      invariant |src.rest| <= |start| && m == EraseInto(map[], es)
      invariant GetEntries(start, depth) == Prepend(es, GetEntries(src.rest, depth))
      decreases |src.rest|
    {
      if src.rest == [] {
        return Err(UnexpectedEof);
      }
      var kind := KindOfByte(src.rest[0]);
      src.rest := src.rest[1..];
      if kind.Err? {
        return Err(kind.error);
      }
      if kind.value == END {
        assert es + [] == es;
        return Ok(Compound(m));
      }
      var name := ReadString(src);
      if name.Err? {
        return Err(name.error);
      }
      ghost var got := Get(kind.value, src.rest, depth);
      var value := ReadTag(kind.value, src, depth);
      if value.Err? {
        return Err(value.error);
      }
      ghost var e := Entry(name.value, got.value.0);
      PrependTwice(es, e, GetEntries(src.rest, depth));
      EraseIntoSnoc(map[], es, e);
      m, es := m[name.value := value.value], es + [e];
    }
  }

  method ReadRoot(src: Source) returns (r: Result<Root, Error>)
    modifies src
    ensures Did(GetRoot(old(src.rest)), r, src.rest)
  {
    hide Get, GetString, Erase;
    if src.rest == [] {
      return Err(UnexpectedEof);
    }
    var b := src.rest[0];
    src.rest := src.rest[1..];
    if b == END {
      return Ok(Root("", map[]));
    }
    var kind := KindOfByte(b);
    if kind.Err? {
      return Err(kind.error);
    }
    var name :- ReadString(src);
    var payload :- ReadTag(kind.value, src, 0);
    match payload {
      case Compound(m) => return Ok(Root(name, m));
      case _ => return Err(UnknownNbtTag(b));
    }
  }

  // ---------------------------------------------------------------------
  // Writing
  // ---------------------------------------------------------------------

  /** A write that succeeds exactly when `ok` and then appends `bs`. */
  ghost predicate Wrote(before: seq<byte>, after: seq<byte>, r: Result<(), Error>, ok: bool, bs: seq<byte>) {
    && (r.Ok? <==> ok)
    && (r.Ok? ==> after == before + bs)
    && (r.Err? ==> r.error == UnknownNbtTag(0))
  }

  method WriteString(text: string, dst: Buffer) returns (r: Result<(), Error>)
    modifies dst
    ensures Wrote(old(dst.data), dst.data, r, ShortString(text), PutString(text))
  {
    var bs := Utf8.Encode(text);
    if |bs| > MAX_STRING {
      return Err(UnknownNbtTag(0));
    }
    dst.data := dst.data + PutBe(2, |bs|);
    dst.data := dst.data + bs;
    assert dst.data == old(dst.data) + (PutBe(2, |bs|) + bs);
    return Ok(());
  }

  method WriteArray(k: nat, ns: seq<int>, dst: Buffer)
    modifies dst
    ensures dst.data == old(dst.data) + PutArray(k, ns)
  {
    hide PutBe;
    dst.data := dst.data + PutBe(4, |ns|);
    for i := 0 to |ns|
      invariant dst.data + PutInts(k, ns[i..]) == old(dst.data) + PutArray(k, ns)
    {
      ghost var before := dst.data;
      dst.data := dst.data + PutBe(k, ns[i]);
      assert ns[i..][1..] == ns[i + 1..];
      assert before + (PutBe(k, ns[i]) + PutInts(k, ns[i + 1..])) == dst.data + PutInts(k, ns[i + 1..]);
    }
  }

  method WriteLeaf(l: Leaf, dst: Buffer) returns (r: Result<(), Error>)
    modifies dst
    ensures Wrote(old(dst.data), dst.data, r, Writable(OPlain(l)), PutLeaf(l))
  {
    hide PutBe, PutArray, PutString, ShortString;
    match l {
      case End =>
      case Byte(v) => dst.data := dst.data + PutBe(1, v);
      case Short(v) => dst.data := dst.data + PutBe(2, v);
      case Int(v) => dst.data := dst.data + PutBe(4, v);
      case Long(v) => dst.data := dst.data + PutBe(8, v);
      case Float(v) => dst.data := dst.data + PutBe(4, v);
      case Double(v) => dst.data := dst.data + PutBe(8, v);
      case ByteArray(vs) => WriteArray(1, vs, dst);
      case IntArray(vs) => WriteArray(4, vs, dst);
      case LongArray(vs) => WriteArray(8, vs, dst);
      case String(text) =>
        r := WriteString(text, dst);
        return;
    }
    return Ok(());
  }

  method WriteTag(o: Ordered, dst: Buffer) returns (r: Result<(), Error>)
    modifies dst
    ensures Wrote(old(dst.data), dst.data, r, Writable(o), Put(o))
    decreases o
  {
    match o {
      case OPlain(l) => r := WriteLeaf(l, dst);
      case OList(items) => r := WriteItems(items, dst);
      case OCompound(es) => r := WriteEntries(es, dst);
    }
  }

  method WriteItems(items: seq<Ordered>, dst: Buffer) returns (r: Result<(), Error>)
    modifies dst
    ensures Wrote(old(dst.data), dst.data, r, Writable(OList(items)), Put(OList(items)))
    decreases items
  {
    hide PutBe, KindOf;
    dst.data := dst.data + [if items == [] then END else KindOf(items[0])];
    dst.data := dst.data + PutBe(4, |items|);
    for i := 0 to |items|
      invariant dst.data + PutItems(items[i..]) == old(dst.data) + Put(OList(items))
      invariant forall j :: 0 <= j < i ==> Writable(items[j])
    {
      ghost var before := dst.data;
      var one := WriteTag(items[i], dst);
      if one.Err? {
        return Err(one.error);
      }
      assert items[i..][1..] == items[i + 1..];
      assert before + (Put(items[i]) + PutItems(items[i + 1..])) == dst.data + PutItems(items[i + 1..]);
    }
    return Ok(());
  }

  method WriteEntries(es: seq<Entry>, dst: Buffer) returns (r: Result<(), Error>)
    modifies dst
    ensures Wrote(old(dst.data), dst.data, r, Writable(OCompound(es)), Put(OCompound(es)))
    decreases es
  {
    hide KindOf, ShortString, PutString;
    for i := 0 to |es|
      invariant dst.data + PutEntries(es[i..]) == old(dst.data) + PutEntries(es)
      invariant forall j :: 0 <= j < i ==> ShortString(es[j].name) && Writable(es[j].value)
    {
      ghost var before := dst.data;
      var e := es[i];
      dst.data := dst.data + [KindOf(e.value)];
      var name := WriteString(e.name, dst);
      if name.Err? {
        return Err(name.error);
      }
      var value := WriteTag(e.value, dst);
      if value.Err? {
        return Err(value.error);
      }
      assert es[i..][1..] == es[i + 1..];
      assert dst.data == before + PutEntry(e);
      assert before + (PutEntry(e) + PutEntries(es[i + 1..])) == dst.data + PutEntries(es[i + 1..]);
    }
    dst.data := dst.data + [END];
    return Ok(());
  }

  /** `Nbt::encode`, the root's map being walked in the order of `es`. */
  method WriteRoot(name: string, es: seq<Entry>, dst: Buffer) returns (r: Result<(), Error>)
    modifies dst
    ensures Wrote(old(dst.data), dst.data, r, ShortString(name) && Writable(OCompound(es)), PutRoot(name, es))
  {
    hide Put, PutString, ShortString, Writable;
    ghost var before := dst.data;
    dst.data := dst.data + [COMPOUND];
    var named := WriteString(name, dst);
    if named.Err? {
      return Err(named.error);
    }
    r := WriteTag(OCompound(es), dst);
    if r.Ok? {
      assert dst.data == before + PutRoot(name, es);
    }
  }
}
