/** Inventory slots: the modern and the pre-1.13 form. */
module Slot {
  import opened Bytes
  import opened Nbt
  import opened NbtWire
  import NbtCursor
  import VarNum

  /** A root compound with the order in which its entries are walked. */
  datatype RootWalk = RootWalk(name: string, entries: seq<Entry>)

  /** A slot as it is written (with a walk of its NBT) or as it is read (with the NBT itself). */
  datatype Slot<+N> = Empty | Item(id: i32, count: i8, nbt: Option<N>)

  datatype LegacySlot<+N> = NoItem | LegacyItem(itemId: i16, amount: i8, damage: i16, data: Option<N>)

  function EraseRoot(w: Option<RootWalk>): Option<Root> {
    if w.None? then None else Some(Root(w.value.name, EraseInto(map[], w.value.entries)))
  }

  /** The walk is one of a tree, under a name the writer takes. */
  ghost predicate ProperWalk(w: Option<RootWalk>) {
    w.Some? ==> IsWalk(OCompound(w.value.entries)) && ShortString(w.value.name)
  }

  ghost predicate ReadableRoot(w: Option<RootWalk>) {
    w.Some? ==> Readable(Compound(EraseInto(map[], w.value.entries)), 0)
  }

  // ---------------------------------------------------------------------
  // The NBT-or-zero tail
  // ---------------------------------------------------------------------

  function EncodeTail(w: Option<RootWalk>): seq<byte> {
    if w.None? then [0] else PutRoot(w.value.name, w.value.entries)
  }

  function DecodeTail(bs: seq<byte>): (r: Decoded<Option<Root>>) {
    if bs != [] && bs[0] == 0 then Ok((None, bs[1..]))
    else
      var (root, rest) :- GetRoot(bs);
      Ok((Some(root), rest))
  }

  /** A root never starts with the zero that stands for none. */
  lemma TailRoundTrip(w: Option<RootWalk>, suffix: seq<byte>)
    requires ProperWalk(w)
    ensures DecodeTail(EncodeTail(w) + suffix) == Ok((EraseRoot(w), suffix)) <==> ReadableRoot(w)
  {
    hide GetRoot, Readable, IsWalk, PutString, Put, EraseInto;
    if w.Some? {
      RootRoundTrip(w.value.name, w.value.entries, suffix);
      var bs := EncodeTail(w) + suffix;
      assert bs[0] == COMPOUND;
      match GetRoot(bs)
      case Ok((root, rest)) => assert DecodeTail(bs) == Ok((Some(root), rest));
      case Err(_) =>
    } else {
      assert ([0] + suffix)[1..] == suffix;
    }
  }

  // ---------------------------------------------------------------------
  // Modern slots
  // ---------------------------------------------------------------------

  function EncodeSlot(s: Slot<RootWalk>): seq<byte> {
    match s
    case Empty => [0]
    case Item(id, count, nbt) => [1] + VarNum.Encode(VarNum.Int32, id) + PutBe(1, count) + EncodeTail(nbt)
  }

  function DecodeSlot(bs: seq<byte>): (r: Decoded<Slot<Root>>) {
    if bs == [] then Err(UnexpectedEof)
    else if bs[0] == 0 then Ok((Empty, bs[1..]))
    else
      var (id, rest) :- VarNum.Decode(VarNum.Int32, bs[1..]);
      VarNum.DecodedInRange(VarNum.Int32, bs[1..]);
      var (count, rest') :- GetSigned(1, rest);
      Widths();
      SignedRange(rest[..1]);
      var (nbt, rest'') :- DecodeTail(rest');
      Ok((Item(id, count, nbt), rest''))
  }

  function EraseSlot(s: Slot<RootWalk>): Slot<Root> {
    match s
    case Empty => Empty
    case Item(id, count, nbt) => Item(id, count, EraseRoot(nbt))
  }

  /** A slot comes back, with any suffix, exactly when its NBT does. */
  lemma SlotRoundTrip(s: Slot<RootWalk>, suffix: seq<byte>)
    requires s.Item? ==> ProperWalk(s.nbt)
    ensures DecodeSlot(EncodeSlot(s) + suffix) == Ok((EraseSlot(s), suffix)) <==> (s.Item? ==> ReadableRoot(s.nbt))
  {
    hide VarNum.Decode, VarNum.Encode, DecodeTail, EncodeTail, PutBe, ReadableRoot, ProperWalk, Signed;
    match s
    case Empty => assert ([0] + suffix)[1..] == suffix;
    case Item(id, count, nbt) =>
      var tail := EncodeTail(nbt) + suffix;
      var bs := EncodeSlot(s) + suffix;
      assert bs[1..] == VarNum.Encode(VarNum.Int32, id) + (PutBe(1, count) + tail);
      VarNum.RoundTrip(VarNum.Int32, id, PutBe(1, count) + tail);
      Widths();
      GetSignedOfPut(1, count, tail);
      TailRoundTrip(nbt, suffix);
      match DecodeTail(tail)
      case Ok((got, rest)) => assert DecodeSlot(bs) == Ok((Item(id, count, got), rest));
      case Err(_) =>
  }

  // ---------------------------------------------------------------------
  // Legacy slots
  // ---------------------------------------------------------------------

  function EncodeLegacy(s: LegacySlot<RootWalk>): seq<byte> {
    match s
    case NoItem => PutBe(2, -1)
    case LegacyItem(id, amount, damage, data) => PutBe(2, id) + PutBe(1, amount) + PutBe(2, damage) + EncodeTail(data)
  }

  function DecodeLegacy(bs: seq<byte>): (r: Decoded<LegacySlot<Root>>) {
    var (id, rest) :- GetSigned(2, bs);
    Widths();
    SignedRange(bs[..2]);
    if id == -1 then Ok((NoItem, rest))
    else if |rest| < 3 then Err(UnexpectedEof)
    else
      var (amount, rest') :- GetSigned(1, rest);
      SignedRange(rest[..1]);
      var (damage, rest'') :- GetSigned(2, rest');
      SignedRange(rest'[..2]);
      var (data, rest''') :- DecodeTail(rest'');
      Ok((LegacyItem(id, amount, damage, data), rest'''))
  }

  function EraseLegacy(s: LegacySlot<RootWalk>): LegacySlot<Root> {
    match s
    case NoItem => NoItem
    case LegacyItem(id, amount, damage, data) => LegacyItem(id, amount, damage, EraseRoot(data))
  }

  /** A legacy slot comes back exactly when its NBT does and its item is not the one that means none. */
  lemma LegacyRoundTrip(s: LegacySlot<RootWalk>, suffix: seq<byte>)
    requires s.LegacyItem? ==> ProperWalk(s.data)
    ensures DecodeLegacy(EncodeLegacy(s) + suffix) == Ok((EraseLegacy(s), suffix)) <==>
      (s.LegacyItem? ==> s.itemId != -1 && ReadableRoot(s.data))
  {
    hide DecodeTail, EncodeTail, PutBe, ReadableRoot, ProperWalk, Signed;
    Widths();
    match s
    case NoItem => GetSignedOfPut(2, -1, suffix);
    case LegacyItem(id, amount, damage, data) =>
      var tail := EncodeTail(data) + suffix;
      var bs := EncodeLegacy(s) + suffix;
      var rest' := PutBe(2, damage) + tail;
      var rest := PutBe(1, amount) + rest';
      assert bs == PutBe(2, id) + rest;
      GetSignedOfPut(2, id, rest);
      GetSignedOfPut(1, amount, rest');
      GetSignedOfPut(2, damage, tail);
      TailRoundTrip(data, suffix);
      if id != -1 {
        match DecodeTail(tail)
        case Ok((got, left)) => assert DecodeLegacy(bs) == Ok((LegacyItem(id, amount, damage, got), left));
        case Err(_) =>
      }
  }

  // ---------------------------------------------------------------------
  // What is on the wire
  // ---------------------------------------------------------------------

  /** A byte as a signed number, and two. */
  function OneSigned(b: byte): i8 {
    if b < 128 then b else b - 256
  }

  function TwoSigned(hi: byte, lo: byte): i16 {
    if hi < 128 then 256 * hi + lo else 256 * hi + lo - 65536
  }

  lemma SignedSmall(a: byte, b: byte)
    ensures Signed([a]) == OneSigned(a) && Signed([a, b]) == TwoSigned(a, b)
  {
    assert [a, b][..1] == [a] && [a][..0] == [] && [a, b][1] == b;
    assert Unsigned([a]) == a && Unsigned([a, b]) == 256 * a + b;
    assert Pow256(1) == 256 && Pow256(2) == 65536;
  }

  lemma TakeOne(a: byte, rest: seq<byte>)
    ensures GetSigned(1, [a] + rest) == Ok((OneSigned(a), rest))
  {
    hide Signed;
    SignedSmall(a, 0);
    assert ([a] + rest)[..1] == [a] && ([a] + rest)[1..] == rest;
  }

  lemma TakeTwo(a: byte, b: byte, rest: seq<byte>)
    ensures GetSigned(2, [a, b] + rest) == Ok((TwoSigned(a, b), rest))
  {
    hide Signed;
    SignedSmall(a, b);
    assert ([a, b] + rest)[..2] == [a, b] && ([a, b] + rest)[2..] == rest;
  }

  /** The NBT of a slot: a zero byte for none, and otherwise a root, which starts with another byte. */
  lemma TailForms(b: byte, rest: seq<byte>)
    ensures DecodeTail([0] + rest) == Ok((None, rest))
    ensures b != 0 ==> match GetRoot([b] + rest)
      case Ok((root, after)) => DecodeTail([b] + rest) == Ok((Some(root), after))
      case Err(e) => DecodeTail([b] + rest) == Err(e)
    ensures DecodeTail([]) == Err(UnexpectedEof)
  {
    hide Get;
    assert ([0] + rest)[1..] == rest;
  }

  /** A slot on the wire: a zero byte for an empty one; any other byte, the id spelled in any accepted
      way, a byte for the count and the tail. */
  lemma SlotForms(b: byte, h: seq<byte>, id: i32, count: byte, tail: seq<byte>)
    requires VarNum.Spells(VarNum.Int32, h, id) && b != 0
    ensures DecodeSlot([0] + tail) == Ok((Empty, tail))
    ensures DecodeSlot([]) == DecodeSlot([b]) == DecodeSlot([b] + h) == Err(UnexpectedEof)
    ensures match DecodeTail(tail)
      case Ok((nbt, rest)) => DecodeSlot([b] + h + [count] + tail) == Ok((Item(id, OneSigned(count), nbt), rest))
      case Err(e) => DecodeSlot([b] + h + [count] + tail) == Err(e)
  {
    hide VarNum.Decode, VarNum.Spells, DecodeTail, Signed;
    assert ([0] + tail)[1..] == tail;
    VarNum.SpellsDecodes(VarNum.Int32, h, id, []);
    VarNum.SpellsDecodes(VarNum.Int32, h, id, [count] + tail);
    VarNum.UnfinishedExactly(VarNum.Int32, []);
    assert [b][1..] == [] && ([b] + h)[1..] == h + [];
    assert ([b] + h + [count] + tail)[1..] == h + ([count] + tail);
    TakeOne(count, tail);
  }

  /** A pre-1.13 slot: two bytes FF FF for none; otherwise two for the item, one for the amount, two for
      the damage, and the tail. */
  lemma LegacyForms(a: byte, b: byte, c: byte, d: byte, e: byte, tail: seq<byte>)
    ensures DecodeLegacy([0xFF, 0xFF] + tail) == Ok((NoItem, tail))
    ensures [a, b] != [0xFF, 0xFF] && |tail| < 3 ==> DecodeLegacy([a, b] + tail) == Err(UnexpectedEof)
    ensures [a, b] != [0xFF, 0xFF] ==> match DecodeTail(tail)
      case Ok((data, rest)) =>
        DecodeLegacy([a, b] + ([c] + ([d, e] + tail))) == Ok((LegacyItem(TwoSigned(a, b), OneSigned(c), TwoSigned(d, e), data), rest))
      case Err(error) => DecodeLegacy([a, b] + ([c] + ([d, e] + tail))) == Err(error)
  {
    hide DecodeTail, Signed, GetSigned;
    TakeTwo(0xFF, 0xFF, tail);
    TakeTwo(a, b, tail);
    TakeTwo(a, b, [c] + ([d, e] + tail));
    TakeOne(c, [d, e] + tail);
    TakeTwo(d, e, tail);
    assert [a, b][0] == a && [a, b][1] == b;
    assert TwoSigned(a, b) == -1 <==> a == 0xFF && b == 0xFF;
    assert [a, b] == [0xFF, 0xFF] <==> a == 0xFF && b == 0xFF;
  }

  lemma PutSmall(n: int)
    ensures PutBe(1, n) == [n % 256] && PutBe(2, n) == [n / 256 % 256, n % 256]
  {
    assert PutBe(0, n / 256) == [] && PutBe(1, n / 256) == [n / 256 % 256];
  }

  /** What is written. */
  lemma SlotBytes(id: i32, count: i8, item: i16, damage: i16, w: Option<RootWalk>)
    ensures EncodeSlot(Empty) == [0]
    ensures exists h ::
      && VarNum.Spells(VarNum.Int32, h, id) && (|h| > 1 ==> h[|h| - 1] != 0)
      && EncodeSlot(Item(id, count, w)) == [1] + h + [count % 256] + EncodeTail(w)
    ensures EncodeLegacy(NoItem) == [0xFF, 0xFF]
    ensures EncodeLegacy(LegacyItem(item, count, damage, w))
         == [item / 256 % 256, item % 256, count % 256, damage / 256 % 256, damage % 256] + EncodeTail(w)
    ensures EncodeTail(None) == [0]
  {
    hide VarNum.Encode, VarNum.Spells, EncodeTail, PutBe;
    PutSmall(count);
    PutSmall(item);
    PutSmall(damage);
    PutSmall(-1);
    VarNum.EncodeShape(VarNum.Int32, id);
    VarNum.EncodeSpells(VarNum.Int32, id);
    var h := VarNum.Encode(VarNum.Int32, id);
    assert VarNum.Spells(VarNum.Int32, h, id) && EncodeSlot(Item(id, count, w)) == [1] + h + [count % 256] + EncodeTail(w);
    NoTail();
  }

  lemma NoTail()
    ensures EncodeTail(None) == [0]
  {
  }

  // ---------------------------------------------------------------------
  // Over cursors
  // ---------------------------------------------------------------------

  method ReadTail(src: Source) returns (r: Result<Option<Root>, Error>)
    modifies src
    ensures Did(DecodeTail(old(src.rest)), r, src.rest)
  {
    hide GetRoot;
    if src.rest != [] && src.rest[0] == 0 {
      src.rest := src.rest[1..];
      return Ok(None);
    }
    var root :- NbtCursor.ReadRoot(src);
    return Ok(Some(root));
  }

  method ReadSlot(src: Source) returns (r: Result<Slot<Root>, Error>)
    modifies src
    ensures Did(DecodeSlot(old(src.rest)), r, src.rest)
  {
    hide VarNum.Decode, DecodeTail, Signed;
    if src.rest == [] {
      return Err(UnexpectedEof);
    }
    var present := src.rest[0] != 0;
    src.rest := src.rest[1..];
    if !present {
      return Ok(Empty);
    }
    ghost var bs := src.rest;
    var id := VarNum.DecodeFrom(VarNum.Int32, src);
    if id.Err? {
      return Err(id.error);
    }
    VarNum.DecodedInRange(VarNum.Int32, bs);
    if src.rest == [] {
      return Err(UnexpectedEof);
    }
    Widths();
    SignedRange(src.rest[..1]);
    var count := Signed(src.rest[..1]);
    src.rest := src.rest[1..];
    var nbt :- ReadTail(src);
    return Ok(Item(id.value, count, nbt));
  }

  method WriteSlot(s: Slot<RootWalk>, dst: Buffer) returns (r: Result<(), Error>)
    modifies dst
    ensures r.Ok? <==> (s.Item? && s.nbt.Some? ==>
      ShortString(s.nbt.value.name) && Writable(OCompound(s.nbt.value.entries)))
    ensures r.Ok? ==> dst.data == old(dst.data) + EncodeSlot(s)
  {
    hide VarNum.Encode, PutBe, PutRoot, Writable, ShortString;
    match s {
      case Empty =>
        dst.data := dst.data + [0];
      case Item(id, count, nbt) =>
        dst.data := dst.data + [1];
        VarNum.EncodeTo(VarNum.Int32, id, dst);
        dst.data := dst.data + PutBe(1, count);
        if nbt.None? {
          dst.data := dst.data + [0];
        } else {
          r := NbtCursor.WriteRoot(nbt.value.name, nbt.value.entries, dst);
          if r.Err? {
            return;
          }
        }
        assert dst.data == old(dst.data) + EncodeSlot(s);
    }
    return Ok(());
  }

  method WriteLegacy(s: LegacySlot<RootWalk>, dst: Buffer) returns (r: Result<(), Error>)
    modifies dst
    ensures r.Ok? <==> (s.LegacyItem? && s.data.Some? ==>
      ShortString(s.data.value.name) && Writable(OCompound(s.data.value.entries)))
    ensures r.Ok? ==> dst.data == old(dst.data) + EncodeLegacy(s)
  {
    hide PutBe, PutRoot, Writable, ShortString;
    match s {
      case NoItem =>
        dst.data := dst.data + PutBe(2, -1);
      case LegacyItem(id, amount, damage, data) =>
        dst.data := dst.data + PutBe(2, id);
        dst.data := dst.data + PutBe(1, amount);
        dst.data := dst.data + PutBe(2, damage);
        if data.None? {
          dst.data := dst.data + [0];
        } else {
          r := NbtCursor.WriteRoot(data.value.name, data.value.entries, dst);
          if r.Err? {
            return;
          }
        }
        assert dst.data == old(dst.data) + EncodeLegacy(s);
    }
    return Ok(());
  }

  method ReadLegacy(src: Source) returns (r: Result<LegacySlot<Root>, Error>)
    modifies src
    ensures Did(DecodeLegacy(old(src.rest)), r, src.rest)
  {
    hide DecodeTail, Signed;
    if |src.rest| < 2 {
      return Err(UnexpectedEof);
    }
    Widths();
    SignedRange(src.rest[..2]);
    var id := Signed(src.rest[..2]);
    src.rest := src.rest[2..];
    if id == -1 {
      return Ok(NoItem);
    }
    if |src.rest| < 3 {
      return Err(UnexpectedEof);
    }
    SignedRange(src.rest[..1]);
    var amount := Signed(src.rest[..1]);
    src.rest := src.rest[1..];
    SignedRange(src.rest[..2]);
    var damage := Signed(src.rest[..2]);
    src.rest := src.rest[2..];
    var data :- ReadTail(src);
    return Ok(LegacyItem(id, amount, damage, data));
  }
}
