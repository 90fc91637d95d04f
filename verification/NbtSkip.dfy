/** Stepping over an NBT value without building it, and where that agrees with reading it. */
module NbtSkip {
  import opened Bytes
  import opened Nbt
  import opened NbtWire
  import Utf8

  /** `Panicked` is a fixed-width read past the end of the buffer, which is not an error return. */
  datatype Outcome = Skipped(rest: seq<byte>) | Failed(error: Error) | Panicked

  /** The helper the skipper calls before every read; it also advances. */
  function Need(bs: seq<byte>, n: nat): Outcome {
    if |bs| < n then Failed(UnexpectedEof) else Skipped(bs[n..])
  }

  function SkipName(bs: seq<byte>): (s: Outcome)
    ensures s.Skipped? ==> |s.rest| + 2 <= |bs|
  {
    if |bs| < 2 then Failed(UnexpectedEof) else Need(bs[2..], Unsigned(bs[..2]))
  }

  /** A length-prefixed tag: `Need` has moved past the length, so what is read as the length is what
      comes after it. */
  function SkipCounted(bs: seq<byte>, lengthBytes: nat, signed: bool, width: nat): (s: Outcome)
    ensures s.Skipped? ==> |s.rest| <= |bs|
  {
    if |bs| < lengthBytes then Failed(UnexpectedEof)
    else
      var cur := bs[lengthBytes..];
      if |cur| < lengthBytes then Panicked
      else
        var n := if signed then Signed(cur[..lengthBytes]) else Unsigned(cur[..lengthBytes]);
        if n < 0 then Failed(UnknownNbtTag(0)) else Need(cur[lengthBytes..], n * width)
  }

  function SkipPayload(kind: Kind, bs: seq<byte>, depth: nat): (s: Outcome)
    ensures s.Skipped? ==> |s.rest| <= |bs|
    decreases |bs|, 1, 0
  {
    match kind
    case 0 => Skipped(bs)
    case 1 => Need(bs, 1)
    case 2 => Need(bs, 2)
    case 3 => Need(bs, 4)
    case 4 => Need(bs, 8)
    case 5 => Need(bs, 4)
    case 6 => Need(bs, 8)
    case 7 => SkipCounted(bs, 4, true, 1)
    case 8 => SkipCounted(bs, 2, false, 1)
    case 9 => SkipList(bs, depth)
    case 10 => if depth >= MAX_DEPTH then Failed(UnknownNbtTag(0)) else SkipEntries(bs, depth + 1)
    case 11 => SkipCounted(bs, 4, true, 4)
    case 12 => SkipCounted(bs, 4, true, 8)
  }

  function SkipList(bs: seq<byte>, depth: nat): (s: Outcome)
    ensures s.Skipped? ==> |s.rest| + 10 <= |bs|
    decreases |bs|, 0, 0
  {
    if |bs| < 5 then Failed(UnexpectedEof)
    else
      var cur := bs[5..];
      if cur == [] then Panicked
      else
        var inner := KindOfByte(cur[0]);
        if inner.Err? then Failed(inner.error)
        else if |cur| < 5 then Panicked
        else
          var n := Signed(cur[1..5]);
          if n < 0 then Failed(UnknownNbtTag(0))
          else if inner.value == COMPOUND || inner.value == LIST then
            if depth >= MAX_DEPTH then Failed(UnknownNbtTag(0)) else SkipItems(inner.value, n, cur[5..], depth + 1)
          else SkipItems(inner.value, n, cur[5..], depth)
  }

  function SkipItems(kind: Kind, n: nat, bs: seq<byte>, depth: nat): (s: Outcome)
    ensures s.Skipped? ==> |s.rest| <= |bs|
    decreases |bs|, 2, n
  {
    if n == 0 then Skipped(bs)
    else
      var s := SkipPayload(kind, bs, depth);
      if s.Skipped? then SkipItems(kind, n - 1, s.rest, depth) else s
  }

  function SkipEntries(bs: seq<byte>, depth: nat): (s: Outcome)
    ensures s.Skipped? ==> |s.rest| < |bs|
    decreases |bs|, 0, 0
  {
    if bs == [] then Failed(UnexpectedEof)
    else if bs[0] == END then Skipped(bs[1..])
    else
      var kind := KindOfByte(bs[0]);
      if kind.Err? then Failed(kind.error)
      else
        var name := SkipName(bs[1..]);
        if !name.Skipped? then name
        else
          var s := SkipPayload(kind.value, name.rest, depth);
          if s.Skipped? then SkipEntries(s.rest, depth) else s
  }

  function SkipRoot(bs: seq<byte>): (s: Outcome) {
    if bs == [] then Failed(UnexpectedEof)
    else if bs[0] == END then Skipped(bs[1..])
    else
      var kind := KindOfByte(bs[0]);
      if kind.Err? then Failed(kind.error)
      else
        var name := SkipName(bs[1..]);
        if name.Skipped? then SkipPayload(kind.value, name.rest, 0) else name
  }

  // ---------------------------------------------------------------------
  // Agreement with the reader
  // ---------------------------------------------------------------------

  /** Fixed-width leaves and compounds of such: no tag that carries a length. */
  predicate Lengthless(o: Ordered)
    decreases o
  {
    match o
    case OPlain(l) => LeafKind(l) < 7
    case OList(_) => false
    case OCompound(es) => forall i :: 0 <= i < |es| ==> Lengthless(es[i].value)
  }

  lemma SkipNameAgrees(bs: seq<byte>)
    requires GetString(bs).Ok?
    ensures SkipName(bs) == Skipped(GetString(bs).value.1)
  {
  }

  /** On every input: when the reader gets a lengthless value, the skipper ends where it ended. */
  lemma {:induction false} SkipAgrees(kind: Kind, bs: seq<byte>, depth: nat)
    requires Get(kind, bs, depth).Ok? && Lengthless(Get(kind, bs, depth).value.0)
    ensures SkipPayload(kind, bs, depth) == Skipped(Get(kind, bs, depth).value.1)
    decreases |bs|, 1
  {
    hide Signed, Unsigned, GetEntries, SkipEntries, GetItems;
    if kind == COMPOUND {
      SkipEntriesAgrees(bs, depth + 1);
    } else if kind != LIST {
      GetLeafFits(kind, bs);
    }
  }

  lemma {:induction false} SkipEntriesAgrees(bs: seq<byte>, depth: nat)
    requires GetEntries(bs, depth).Ok?
    requires forall e <- GetEntries(bs, depth).value.0 :: Lengthless(e.value)
    ensures SkipEntries(bs, depth) == Skipped(GetEntries(bs, depth).value.1)
    decreases |bs|, 0
  {
    hide Get, GetString, SkipName, SkipPayload, Lengthless;
    var kind := KindOfByte(bs[0]).value;
    if kind != END {
      var (name, rest) := GetString(bs[1..]).value;
      var (value, rest') := Get(kind, rest, depth).value;
      var es := GetEntries(rest', depth).value.0;
      var all := GetEntries(bs, depth).value.0;
      assert all == [Entry(name, value)] + es;
      assert all[0] in all;
      assert forall e <- es :: e in all;
      SkipNameAgrees(bs[1..]);
      SkipAgrees(kind, rest, depth);
      SkipEntriesAgrees(rest', depth);
    }
  }

  /** The same for a whole root, as the reader of roots takes it. */
  lemma SkipRootAgrees(bs: seq<byte>)
    requires GetRoot(bs).Ok? && (bs[0] != END ==> Lengthless(GetRootWalk(bs).value.0.1))
    ensures SkipRoot(bs) == Skipped(GetRoot(bs).value.1)
  {
    hide Get, GetString, SkipPayload, SkipName, Erase;
    if bs[0] != END {
      SkipNameAgrees(bs[1..]);
      SkipAgrees(bs[0], GetString(bs[1..]).value.1, 0);
    }
  }

  /** Within the depth limit; both walkers count compounds, from the root's zero. */
  predicate WithinDepth(o: Ordered, depth: nat)
    decreases o
  {
    o.OCompound? ==> depth < MAX_DEPTH && forall e <- o.entries :: WithinDepth(e.value, depth + 1)
  }

  /** A lengthless tree with names and values as the format wants them. */
  predicate Sound(o: Ordered)
    decreases o
  {
    match o
    case OPlain(l) => LeafKind(l) < 7
    case OList(_) => false
    case OCompound(es) => forall e <- es :: ShortString(e.name) && KindOf(e.value) != END && Sound(e.value)
  }

  /** Nested to any depth, a sound tree is read and skipped alike: both take it when it is within the
      512 levels and both refuse it when it is not. */
  lemma {:induction false} DepthLimitAgrees(o: Ordered, depth: nat, suffix: seq<byte>)
    requires Sound(o)
    ensures var (got, skipped) := (Get(KindOf(o), Put(o) + suffix, depth), SkipPayload(KindOf(o), Put(o) + suffix, depth));
      if WithinDepth(o, depth) then got == Ok((o, suffix)) && skipped == Skipped(suffix)
      else got == Err(UnknownNbtTag(0)) && skipped == Failed(UnknownNbtTag(0))
    decreases o, 1
  {
    hide GetItems, GetEntries, SkipEntries, SkipList, SkipCounted, PutEntries;
    match o
    case OPlain(l) =>
      LeafRoundTrip(l, suffix);
      SkipAgrees(LeafKind(l), Put(o) + suffix, depth);
    case OCompound(es) =>
      if depth < MAX_DEPTH {
        EntriesDepthAgrees(es, depth + 1, suffix);
      }
  }

  /** The entries once a name and a value have been read. */
  function EntriesAfter(name: string, value: Decoded<Ordered>, depth: nat): Decoded<seq<Entry>> {
    var (v, rest) :- value;
    var (es, rest') :- GetEntries(rest, depth);
    Ok(([Entry(name, v)] + es, rest'))
  }

  /** Reading and skipping one entry and what comes after it. */
  lemma EntryUnfold(e: Entry, depth: nat, tail: seq<byte>)
    requires ShortString(e.name) && KindOf(e.value) != END
    ensures GetEntries(PutEntry(e) + tail, depth)
         == EntriesAfter(e.name, Get(KindOf(e.value), Put(e.value) + tail, depth), depth)
    ensures SkipEntries(PutEntry(e) + tail, depth)
         == var s := SkipPayload(KindOf(e.value), Put(e.value) + tail, depth);
            if s.Skipped? then SkipEntries(s.rest, depth) else s
  {
    hide Get, Put, SkipPayload, GetString, PutString, SkipName, ShortString, KindOf;
    var value := Put(e.value) + tail;
    var bs := PutEntry(e) + tail;
    assert bs == [KindOf(e.value)] + (PutString(e.name) + value);
    assert bs[1..] == PutString(e.name) + value;
    StringRoundTrip(e.name, value);
    SkipNameAgrees(bs[1..]);
  }

  lemma {:induction false} EntriesDepthAgrees(es: seq<Entry>, depth: nat, suffix: seq<byte>)
    requires forall e <- es :: ShortString(e.name) && KindOf(e.value) != END && Sound(e.value)
    ensures var (got, skipped) := (GetEntries(PutEntries(es) + suffix, depth), SkipEntries(PutEntries(es) + suffix, depth));
      if forall e <- es :: WithinDepth(e.value, depth)
      then got == Ok((es, suffix)) && skipped == Skipped(suffix)
      else got == Err(UnknownNbtTag(0)) && skipped == Failed(UnknownNbtTag(0))
    decreases es, 0
  {
    hide Get, Put, PutEntry, SkipPayload, WithinDepth, Sound, ShortString, KindOf;
    if es == [] {
      assert PutEntries(es) + suffix == [END] + suffix;
    } else {
      hide GetEntries, SkipEntries;
      var e, rest := es[0], es[1..];
      var tail := PutEntries(rest) + suffix;
      assert es == [e] + rest;
      assert forall x :: x in es <==> x == e || x in rest;
      assert PutEntries(es) + suffix == PutEntry(e) + tail;
      EntryUnfold(e, depth, tail);
      DepthLimitAgrees(e.value, depth, tail);
      EntriesDepthAgrees(rest, depth, suffix);
    }
  }

  // ---------------------------------------------------------------------
  // Where it does not agree
  // ---------------------------------------------------------------------

  /** When the bytes after the length happen to hold the number that makes up for it. */
  predicate Lucky(l: Leaf) {
    match l
    case ByteArray(vs) => |vs| >= 4 && Signed(PutInts(1, vs[..4])) == |vs| - 4
    case String(text) => var bs := Utf8.Encode(text); |bs| >= 2 && Unsigned(bs[..2]) == |bs| - 2
    case IntArray(vs) => |vs| >= 1 && vs[0] == |vs| - 1
    case LongArray(_) => false
    case _ => true
  }

  lemma {:induction false} PutIntsLength(k: nat, ns: seq<int>)
    ensures |PutInts(k, ns)| == k * |ns|
  {
    if ns != [] {
      PutIntsLength(k, ns[1..]);
      assert k * |ns| == k + k * (|ns| - 1);
    }
  }

  lemma {:induction false} PutIntsSplit(k: nat, a: seq<int>, b: seq<int>)
    ensures PutInts(k, a + b) == PutInts(k, a) + PutInts(k, b)
  {
    hide PutBe;
    if a == [] {
      assert a + b == b;
    } else {
      PutIntsSplit(k, a[1..], b);
      assert (a + b)[1..] == a[1..] + b;
      var x, y, z := PutBe(k, a[0]), PutInts(k, a[1..]), PutInts(k, b);
      assert x + (y + z) == x + y + z;
    }
  }

  lemma NeedExact(front: seq<byte>, suffix: seq<byte>, n: nat)
    ensures Need(front + suffix, n) == Skipped(suffix) <==> n == |front|
  {
    if n == |front| {
      assert (front + suffix)[n..] == suffix;
    }
  }

  /** Stepping over bytes `length + body + suffix` ends at `suffix` exactly when the front of the body
      says how much of the body is left. */
  lemma CountedExact(length: seq<byte>, body: seq<byte>, suffix: seq<byte>, signed: bool, width: nat)
    ensures SkipCounted(length + body + suffix, |length|, signed, width) == Skipped(suffix) <==>
      && |body| >= |length|
      && var n := if signed then Signed(body[..|length|]) else Unsigned(body[..|length|]);
         n >= 0 && n * width == |body| - |length|
  {
    hide Signed, Unsigned, Need;
    var k, cur := |length|, body + suffix;
    assert (length + body + suffix)[k..] == cur;
    if |body| >= k {
      assert cur[..k] == body[..k] && cur[k..] == body[k..] + suffix;
      var n := if signed then Signed(body[..k]) else Unsigned(body[..k]);
      if n >= 0 {
        var m := n * width;
        NeedExact(body[k..], suffix, m);
      }
    } else if |cur| >= k {
      var n := if signed then Signed(cur[..k]) else Unsigned(cur[..k]);
      if n >= 0 {
        NeedTooFar(cur[k..], n * width, suffix);
      }
    }
  }

  lemma NeedTooFar(bs: seq<byte>, n: nat, suffix: seq<byte>)
    requires |bs| < |suffix|
    ensures Need(bs, n) != Skipped(suffix)
  {
  }

  /** The leaves that are skipped correctly, whatever follows: those without a length, and the lucky ones. */
  lemma LeafSkipExact(l: Leaf, suffix: seq<byte>, depth: nat)
    requires LeafFits(l)
    ensures SkipPayload(LeafKind(l), PutLeaf(l) + suffix, depth) == Skipped(suffix) <==> Lucky(l)
  {
    hide Signed, Unsigned, PutBe, PutInts, SkipCounted, Utf8.Encode;
    match l
    case ByteArray(vs) =>
      PutIntsLength(1, vs);
      CountedExact(PutBe(4, |vs|), PutInts(1, vs), suffix, true, 1);
      if |vs| >= 4 {
        PutIntsLength(1, vs[..4]);
        PutIntsSplit(1, vs[..4], vs[4..]);
        assert vs == vs[..4] + vs[4..];
        assert PutInts(1, vs)[..4] == PutInts(1, vs[..4]);
      }
    case IntArray(vs) =>
      PutIntsLength(4, vs);
      CountedExact(PutBe(4, |vs|), PutInts(4, vs), suffix, true, 4);
      if vs != [] {
        FirstInt(vs);
      }
    case LongArray(vs) =>
      PutIntsLength(8, vs);
      CountedExact(PutBe(4, |vs|), PutInts(8, vs), suffix, true, 8);
    case String(text) =>
      var bs := Utf8.Encode(text);
      CountedExact(PutBe(2, |bs|), bs, suffix, false, 1);
    case _ =>
      assert PutLeaf(l) + suffix == PutLeaf(l) + suffix;
      LeafRoundTrip(l, suffix);
      SkipAgrees(LeafKind(l), PutLeaf(l) + suffix, depth);
  }

  lemma FirstInt(vs: seq<i32>)
    requires vs != []
    ensures |PutInts(4, vs)| >= 4 && Signed(PutInts(4, vs)[..4]) == vs[0]
  {
    hide PutBe, Signed;
    Widths();
    SignedOfPut(4, vs[0]);
    assert PutInts(4, vs)[..4] == PutBe(4, vs[0]);
  }

  predicate EmptyBody(l: Leaf) {
    || (l.String? && l.text == "")
    || (l.ByteArray? && l.bytes == [])
    || (l.IntArray? && l.ints == [])
    || (l.LongArray? && l.longs == [])
  }

  lemma EmptyBodyOvershoots(l: Leaf, tail: seq<byte>, depth: nat)
    requires EmptyBody(l)
    ensures var s := SkipPayload(LeafKind(l), PutLeaf(l) + tail, depth); s.Skipped? ==> |s.rest| + 2 <= |tail|
  {
    hide Signed, Unsigned, PutBe;
  }

  /** A root that reads back but is never skipped correctly: one entry, an empty string or array. */
  lemma EmptyBodyDerailsRoot(name: string, key: string, l: Leaf, suffix: seq<byte>)
    requires EmptyBody(l) && ShortString(name) && ShortString(key)
    ensures var bs := PutRoot(name, [Entry(key, OPlain(l))]) + suffix;
      && GetRoot(bs) == Ok((Root(name, map[key := Plain(l)]), suffix))
      && SkipRoot(bs) != Skipped(suffix)
  {
    hide GetRoot, PutString, ShortString, SkipName, SkipPayload, PutLeaf, LeafKind, SkipEntries, GetString;
    var e := Entry(key, OPlain(l));
    var es := [e];
    var o := OCompound(es);
    var bs := PutRoot(name, es) + suffix;
    SingleReadable(key, l);
    assert EraseInto(map[], es) == map[key := Plain(l)] by { SingleErased(e); }
    assert IsWalk(o) by { assert forall i :: 0 <= i < |es| ==> es[i] == e; }
    RootRoundTrip(name, es, suffix);

    var tail := [END] + suffix;
    SingleEntries(e, suffix);
    assert bs[0] == COMPOUND && bs[1..] == PutString(name) + (PutEntry(e) + tail);
    StringRoundTrip(name, PutEntry(e) + tail);
    SkipNameAgrees(bs[1..]);
    CompoundSkips(PutEntry(e) + tail);
    EntryUnfold(e, 1, tail);
    EmptyBodyOvershoots(l, tail, 1);
  }

  lemma CompoundSkips(bs: seq<byte>)
    ensures SkipPayload(COMPOUND, bs, 0) == SkipEntries(bs, 1)
  {
  }

  lemma SingleReadable(key: string, l: Leaf)
    requires EmptyBody(l) && ShortString(key)
    ensures LeafFits(l) && Readable(Compound(map[key := Plain(l)]), 0)
  {
  }

  lemma SingleErased(e: Entry)
    ensures EraseInto(map[], [e]) == map[e.name := Erase(e.value)]
  {
    var es := [e];
    assert es[1..] == [];
  }

  lemma SingleEntries(e: Entry, suffix: seq<byte>)
    ensures Put(OCompound([e])) + suffix == PutEntry(e) + ([END] + suffix)
  {
    var es := [e];
    assert es[1..] == [];
    assert PutEntries([]) == [END];
  }

  // ---------------------------------------------------------------------
  // The loops
  // ---------------------------------------------------------------------

  datatype Status = Done | Error(error: Error) | Panic

  /** A cursor method ended as the function says. */
  ghost predicate Ended(spec: Outcome, status: Status, rest: seq<byte>) {
    match spec
    case Skipped(tail) => status == Done && rest == tail
    case Failed(e) => status == Error(e)
    case Panicked => status == Panic
  }

  method NeedFrom(src: Source, n: nat) returns (status: Status)
    modifies src
    ensures Ended(Need(old(src.rest), n), status, src.rest)
  {
    if |src.rest| < n {
      return Error(UnexpectedEof);
    }
    src.rest := src.rest[n..];
    return Done;
  }

  method SkipNameFrom(src: Source) returns (status: Status)
    modifies src
    ensures Ended(SkipName(old(src.rest)), status, src.rest)
  {
    if |src.rest| < 2 {
      return Error(UnexpectedEof);
    }
    var len := Unsigned(src.rest[..2]);
    src.rest := src.rest[2..];
    status := NeedFrom(src, len);
  }

  method SkipCountedFrom(src: Source, lengthBytes: nat, signed: bool, width: nat) returns (status: Status)
    modifies src
    ensures Ended(SkipCounted(old(src.rest), lengthBytes, signed, width), status, src.rest)
  {
    status := NeedFrom(src, lengthBytes);
    if status != Done {
      return;
    }
    if |src.rest| < lengthBytes {
      return Panic;
    }
    var n := if signed then Signed(src.rest[..lengthBytes]) else Unsigned(src.rest[..lengthBytes]);
    src.rest := src.rest[lengthBytes..];
    if n < 0 {
      return Error(UnknownNbtTag(0));
    }
    status := NeedFrom(src, n * width);
  }

  method SkipPayloadFrom(kind: Kind, src: Source, depth: nat) returns (status: Status)
    modifies src
    ensures Ended(SkipPayload(kind, old(src.rest), depth), status, src.rest)
    decreases |src.rest|, 1
  {
    match kind {
      case 0 => status := Done;
      case 1 => status := NeedFrom(src, 1);
      case 2 => status := NeedFrom(src, 2);
      case 3 => status := NeedFrom(src, 4);
      case 4 => status := NeedFrom(src, 8);
      case 5 => status := NeedFrom(src, 4);
      case 6 => status := NeedFrom(src, 8);
      case 7 => status := SkipCountedFrom(src, 4, true, 1);
      case 8 => status := SkipCountedFrom(src, 2, false, 1);
      case 9 => status := SkipListFrom(src, depth);
      case 10 =>
        if depth >= MAX_DEPTH {
          return Error(UnknownNbtTag(0));
        }
        status := SkipEntriesFrom(src, depth + 1);
      case 11 => status := SkipCountedFrom(src, 4, true, 4);
      case 12 => status := SkipCountedFrom(src, 4, true, 8);
    }
  }

  method SkipListFrom(src: Source, depth: nat) returns (status: Status)
    modifies src
    ensures Ended(SkipList(old(src.rest), depth), status, src.rest)
    decreases |src.rest|, 0
  {
    hide SkipPayload, Signed;
    status := NeedFrom(src, 5);
    if status != Done {
      return;
    }
    ghost var cur := src.rest;
    if src.rest == [] {
      return Panic;
    }
    var inner := KindOfByte(src.rest[0]);
    src.rest := src.rest[1..];
    if inner.Err? {
      return Error(inner.error);
    }
    if |src.rest| < 4 {
      return Panic;
    }
    assert src.rest[..4] == cur[1..5] && src.rest[4..] == cur[5..];
    var n := Signed(src.rest[..4]);
    src.rest := src.rest[4..];
    if n < 0 {
      return Error(UnknownNbtTag(0));
    }
    var nested := inner.value == COMPOUND || inner.value == LIST;
    if nested && depth >= MAX_DEPTH {
      return Error(UnknownNbtTag(0));
    }
    var d := if nested then depth + 1 else depth;
    ghost var start := src.rest;
    for i := 0 to n
      invariant |src.rest| <= |start|
      invariant SkipItems(inner.value, n, start, d) == SkipItems(inner.value, n - i, src.rest, d)
    {
      status := SkipPayloadFrom(inner.value, src, d);
      if status != Done {
        return;
      }
    }
    return Done;
  }

  method SkipEntriesFrom(src: Source, depth: nat) returns (status: Status)
    modifies src
    ensures Ended(SkipEntries(old(src.rest), depth), status, src.rest)
    decreases |src.rest|, 0
  {
    hide SkipPayload, SkipName;
    ghost var start := src.rest;
    while true
      invariant |src.rest| <= |start|
      invariant SkipEntries(start, depth) == SkipEntries(src.rest, depth)
      decreases |src.rest|
    {
      if src.rest == [] {
        return Error(UnexpectedEof);
      }
      var b := src.rest[0];
      src.rest := src.rest[1..];
      if b == END {
        return Done;
      }
      var kind := KindOfByte(b);
      if kind.Err? {
        return Error(kind.error);
      }
      status := SkipNameFrom(src);
      if status != Done {
        return;
      }
      status := SkipPayloadFrom(kind.value, src, depth);
      if status != Done {
        return;
      }
    }
  }

  /** `skip`: on success the number of bytes stepped over. */
  method SkipFrom(src: Source) returns (status: Status, consumed: nat)
    modifies src
    ensures Ended(SkipRoot(old(src.rest)), status, src.rest)
    ensures status == Done ==> consumed == |old(src.rest)| - |src.rest|
  {
    hide SkipPayload, SkipName;
    consumed := 0;
    var start := |src.rest|;
    if start < 1 {
      return Error(UnexpectedEof), 0;
    }
    var b := src.rest[0];
    src.rest := src.rest[1..];
    if b == END {
      return Done, start - |src.rest|;
    }
    var kind := KindOfByte(b);
    if kind.Err? {
      return Error(kind.error), 0;
    }
    status := SkipNameFrom(src);
    if status == Done {
      status := SkipPayloadFrom(kind.value, src, 0);
      if status == Done {
        consumed := start - |src.rest|;
      }
    }
  }
}
