/** What decides whether the skipper ends where it should: a value's own bytes, and for lists and trees
    which bytes those are. */
module NbtSkipExact {
  import opened Bytes
  import opened Nbt
  import opened NbtWire
  import opened NbtSkip
  import Utf8

  // ---------------------------------------------------------------------
  // Every outcome, by the bytes themselves
  // ---------------------------------------------------------------------

  function TwoBytes(bs: seq<byte>): nat
    requires |bs| == 2
  {
    bs[0] as int * 256 + bs[1]
  }

  function FourBytes(bs: seq<byte>): int
    requires |bs| == 4
  {
    var u := ((bs[0] as int * 256 + bs[1]) * 256 + bs[2]) * 256 + bs[3];
    if bs[0] < 128 then u else u - 0x1_0000_0000
  }

  lemma TwoBytesRead(bs: seq<byte>)
    requires |bs| == 2
    ensures Unsigned(bs) == TwoBytes(bs)
  {
    assert bs[..1][..0] == [] && bs[..1][0] == bs[0];
    assert Unsigned(bs[..1]) == bs[0];
  }

  lemma FourBytesRead(bs: seq<byte>)
    requires |bs| == 4
    ensures Signed(bs) == FourBytes(bs)
  {
    var two := bs[..2];
    var three := bs[..3];
    TwoBytesRead(two);
    assert three[..2] == two && Unsigned(three) == 256 * Unsigned(two) + bs[2];
    assert Unsigned(bs) == 256 * Unsigned(three) + bs[3];
    assert Pow256(1) == 256 && Pow256(2) == 65536 && Pow256(3) == 16777216 && Pow256(4) == 0x1_0000_0000;
  }

  /** A tag without a length: so many bytes, or too few. */
  lemma FixedForms(bs: seq<byte>, depth: nat)
    ensures SkipPayload(0, bs, depth) == Skipped(bs)
    ensures SkipPayload(1, bs, depth) == if |bs| < 1 then Failed(UnexpectedEof) else Skipped(bs[1..])
    ensures SkipPayload(2, bs, depth) == if |bs| < 2 then Failed(UnexpectedEof) else Skipped(bs[2..])
    ensures SkipPayload(3, bs, depth) == if |bs| < 4 then Failed(UnexpectedEof) else Skipped(bs[4..])
    ensures SkipPayload(4, bs, depth) == if |bs| < 8 then Failed(UnexpectedEof) else Skipped(bs[8..])
    ensures SkipPayload(5, bs, depth) == if |bs| < 4 then Failed(UnexpectedEof) else Skipped(bs[4..])
    ensures SkipPayload(6, bs, depth) == if |bs| < 8 then Failed(UnexpectedEof) else Skipped(bs[8..])
  {
  }

  /** A string: the two bytes after its length decide how far to go; without them the skipper panics. */
  lemma StringForms(bs: seq<byte>, depth: nat)
    ensures |bs| < 2 ==> SkipPayload(8, bs, depth) == Failed(UnexpectedEof)
    ensures 2 <= |bs| < 4 ==> SkipPayload(8, bs, depth) == Panicked
    ensures |bs| >= 4 ==>
      var n := TwoBytes(bs[2..4]);
      SkipPayload(8, bs, depth) == if |bs| < 4 + n then Failed(UnexpectedEof) else Skipped(bs[4 + n..])
  {
    hide Unsigned;
    if |bs| >= 4 {
      TwoBytesRead(bs[2..4]);
      assert bs[2..][..2] == bs[2..4] && bs[2..][2..] == bs[4..];
    }
  }

  /** An array: the same with the four bytes after its length, which may also say less than nothing. */
  lemma ArrayForms(kind: Kind, bs: seq<byte>, depth: nat)
    requires kind == 7 || kind == 11 || kind == 12
    ensures |bs| < 4 ==> SkipPayload(kind, bs, depth) == Failed(UnexpectedEof)
    ensures 4 <= |bs| < 8 ==> SkipPayload(kind, bs, depth) == Panicked
    ensures |bs| >= 8 ==>
      var n := FourBytes(bs[4..8]);
      var size := if kind == 7 then n else if kind == 11 then 4 * n else 8 * n;
      SkipPayload(kind, bs, depth) ==
        if n < 0 then Failed(UnknownNbtTag(0))
        else if |bs| < 8 + size then Failed(UnexpectedEof)
        else Skipped(bs[8 + size..])
  {
    hide Signed;
    if |bs| >= 8 {
      FourBytesRead(bs[4..8]);
      assert bs[4..][..4] == bs[4..8] && bs[4..][4..] == bs[8..];
    }
  }

  /** A list: the five bytes after its header are taken for it. */
  lemma ListForms(bs: seq<byte>, depth: nat)
    ensures |bs| < 5 ==> SkipPayload(9, bs, depth) == Failed(UnexpectedEof)
    ensures |bs| == 5 ==> SkipPayload(9, bs, depth) == Panicked
    ensures |bs| > 5 && bs[5] > 12 ==> SkipPayload(9, bs, depth) == Failed(UnknownNbtTag(bs[5]))
    ensures 5 < |bs| < 10 && bs[5] <= 12 ==> SkipPayload(9, bs, depth) == Panicked
    ensures |bs| >= 10 && bs[5] <= 12 ==>
      var n := FourBytes(bs[6..10]);
      var nests := bs[5] == 9 || bs[5] == 10;
      SkipPayload(9, bs, depth) ==
        if n < 0 || (nests && depth >= 512) then Failed(UnknownNbtTag(0))
        else SkipItems(bs[5], n, bs[10..], if nests then depth + 1 else depth)
  {
    hide Signed, SkipItems;
    if |bs| >= 10 {
      FourBytesRead(bs[6..10]);
      assert bs[5..][1..5] == bs[6..10] && bs[5..][5..] == bs[10..];
    }
  }

  /** An entry: its tag, two bytes with the length of its name, the name, the value. A root is one, at
      depth nought, and an End in its place is all there is. */
  lemma EntryForms(kind: byte, hi: byte, lo: byte, rest: seq<byte>, depth: nat)
    requires kind != 0
    ensures SkipRoot([]) == SkipEntries([], depth) == Failed(UnexpectedEof)
    ensures SkipRoot([0] + rest) == SkipEntries([0] + rest, depth) == Skipped(rest)
    ensures kind > 12 ==> SkipRoot([kind] + rest) == SkipEntries([kind] + rest, depth) == Failed(UnknownNbtTag(kind))
    ensures kind <= 12 && |rest| < 2 ==> SkipRoot([kind] + rest) == SkipEntries([kind] + rest, depth) == Failed(UnexpectedEof)
    ensures kind <= 12 ==>
      var (bs, n) := ([kind] + ([hi, lo] + rest), TwoBytes([hi, lo]));
      if |rest| < n then SkipRoot(bs) == SkipEntries(bs, depth) == Failed(UnexpectedEof)
      else
        && SkipRoot(bs) == SkipPayload(kind, rest[n..], 0)
        && var s := SkipPayload(kind, rest[n..], depth);
           SkipEntries(bs, depth) == if s.Skipped? then SkipEntries(s.rest, depth) else s
  {
    hide Unsigned, SkipPayload;
    assert ([0] + rest)[1..] == rest && ([kind] + rest)[1..] == rest;
    var body := [hi, lo] + rest;
    assert ([kind] + body)[1..] == body && body[..2] == [hi, lo] && body[2..] == rest;
    TwoBytesRead([hi, lo]);
  }

  /** A compound is its entries, one deeper, up to 512 deep. */
  lemma CompoundForms(bs: seq<byte>, depth: nat)
    ensures SkipPayload(10, bs, depth) == if depth >= 512 then Failed(UnknownNbtTag(0)) else SkipEntries(bs, depth + 1)
  {
    hide SkipEntries;
  }

  // ---------------------------------------------------------------------
  // A value's own bytes
  // ---------------------------------------------------------------------

  /** Skipping `own` bytes and skipping them with `more` behind them: a success carries over, and so
      does, the other way, a success that did not reach into what is behind. */
  predicate Local(own: Outcome, whole: Outcome, more: seq<byte>) {
    && (own.Skipped? ==> whole == Skipped(own.rest + more))
    && (whole.Skipped? && |whole.rest| >= |more| ==> own.Skipped?)
  }

  lemma NeedLocal(bs: seq<byte>, more: seq<byte>, n: nat)
    ensures Local(Need(bs, n), Need(bs + more, n), more)
  {
    if n <= |bs| {
      assert (bs + more)[n..] == bs[n..] + more;
    }
  }

  lemma NameLocal(bs: seq<byte>, more: seq<byte>)
    ensures Local(SkipName(bs), SkipName(bs + more), more)
  {
    hide Unsigned, Need;
    if |bs| >= 2 {
      assert (bs + more)[..2] == bs[..2] && (bs + more)[2..] == bs[2..] + more;
      NeedLocal(bs[2..], more, Unsigned(bs[..2]));
    }
  }

  lemma CountedLocal(bs: seq<byte>, more: seq<byte>, k: nat, signed: bool, width: nat)
    ensures Local(SkipCounted(bs, k, signed, width), SkipCounted(bs + more, k, signed, width), more)
  {
    hide Signed, Unsigned, Need;
    var whole := SkipCounted(bs + more, k, signed, width);
    if |bs| >= 2 * k {
      var cur, cur' := bs[k..], (bs + more)[k..];
      assert cur' == cur + more;
      assert cur'[..k] == cur[..k] && cur'[k..] == cur[k..] + more;
      var n := if signed then Signed(cur[..k]) else Unsigned(cur[..k]);
      if n >= 0 {
        NeedLocal(cur[k..], more, n * width);
      }
    } else if whole.Skipped? {
      CountedTakes(bs + more, k, signed, width);
    }
  }

  lemma CountedTakes(bs: seq<byte>, k: nat, signed: bool, width: nat)
    requires SkipCounted(bs, k, signed, width).Skipped?
    ensures |SkipCounted(bs, k, signed, width).rest| + 2 * k <= |bs|
  {
    hide Signed, Unsigned;
  }

  /** One step after the other. */
  lemma ThenLocal(first: Outcome, first': Outcome, second: Outcome, second': Outcome, more: seq<byte>)
    requires Local(first, first', more)
    requires first.Skipped? ==> Local(second, second', more)
    requires first'.Skipped? && second'.Skipped? ==> |second'.rest| <= |first'.rest|
    ensures Local(if first.Skipped? then second else first, if first'.Skipped? then second' else first', more)
  {
  }

  lemma {:induction false} PayloadLocal(kind: Kind, bs: seq<byte>, more: seq<byte>, depth: nat)
    ensures Local(SkipPayload(kind, bs, depth), SkipPayload(kind, bs + more, depth), more)
    decreases |bs|, 1, 0
  {
    hide Need, SkipCounted, SkipList, SkipEntries, Local;
    match kind
    case 0 => EndLocal(bs, more);
    case 1 => NeedLocal(bs, more, 1);
    case 2 => NeedLocal(bs, more, 2);
    case 3 => NeedLocal(bs, more, 4);
    case 4 => NeedLocal(bs, more, 8);
    case 5 => NeedLocal(bs, more, 4);
    case 6 => NeedLocal(bs, more, 8);
    case 7 => CountedLocal(bs, more, 4, true, 1);
    case 8 => CountedLocal(bs, more, 2, false, 1);
    case 9 => ListLocal(bs, more, depth);
    case 10 =>
      if depth >= MAX_DEPTH {
        FailureLocal(UnknownNbtTag(0), more);
      } else {
        EntriesLocal(bs, more, depth + 1);
      }
    case 11 => CountedLocal(bs, more, 4, true, 4);
    case 12 => CountedLocal(bs, more, 4, true, 8);
  }

  lemma EndLocal(bs: seq<byte>, more: seq<byte>)
    ensures Local(Skipped(bs), Skipped(bs + more), more)
  {
  }

  lemma FailureLocal(e: Error, more: seq<byte>)
    ensures Local(Failed(e), Failed(e), more)
  {
  }

  lemma {:induction false} ListLocal(bs: seq<byte>, more: seq<byte>, depth: nat)
    ensures Local(SkipList(bs, depth), SkipList(bs + more, depth), more)
    decreases |bs|, 0, 0
  {
    hide Signed, SkipItems;
    if |bs| >= 10 {
      var cur, cur' := bs[5..], (bs + more)[5..];
      assert cur' == cur + more;
      assert cur'[0] == cur[0] && cur'[1..5] == cur[1..5] && cur'[5..] == cur[5..] + more;
      var inner, n := KindOfByte(cur[0]), Signed(cur[1..5]);
      if inner.Ok? && n >= 0 {
        var d := if inner.value == COMPOUND || inner.value == LIST then depth + 1 else depth;
        ItemsLocal(inner.value, n, cur[5..], more, d);
      }
    }
  }

  lemma {:induction false} ItemsLocal(kind: Kind, n: nat, bs: seq<byte>, more: seq<byte>, depth: nat)
    ensures Local(SkipItems(kind, n, bs, depth), SkipItems(kind, n, bs + more, depth), more)
    decreases |bs|, 2, n
  {
    hide SkipPayload, Local;
    if n == 0 {
      EndLocal(bs, more);
    } else {
      var s, s' := SkipPayload(kind, bs, depth), SkipPayload(kind, bs + more, depth);
      PayloadLocal(kind, bs, more, depth);
      var t := if s.Skipped? then SkipItems(kind, n - 1, s.rest, depth) else s;
      var t' := if s'.Skipped? then SkipItems(kind, n - 1, s'.rest, depth) else s';
      if s.Skipped? {
        LocalRest(s, s', more);
        ItemsLocal(kind, n - 1, s.rest, more, depth);
      }
      ThenLocal(s, s', t, t', more);
    }
  }

  lemma LocalRest(own: Outcome, whole: Outcome, more: seq<byte>)
    requires Local(own, whole, more) && own.Skipped?
    ensures whole == Skipped(own.rest + more)
  {
  }

  lemma {:induction false} EntriesLocal(bs: seq<byte>, more: seq<byte>, depth: nat)
    ensures Local(SkipEntries(bs, depth), SkipEntries(bs + more, depth), more)
    decreases |bs|, 0, 0
  {
    if bs == [] {
      NothingLocal(more, depth);
    } else {
      hide SkipPayload, SkipName, Local;
      assert (bs + more)[0] == bs[0] && (bs + more)[1..] == bs[1..] + more;
      var kind := KindOfByte(bs[0]);
      if bs[0] == END {
        EndLocal(bs[1..], more);
      } else if kind.Err? {
        FailureLocal(kind.error, more);
      } else {
        var name, name' := SkipName(bs[1..]), SkipName(bs[1..] + more);
        NameLocal(bs[1..], more);
        var s := if name.Skipped? then SkipPayload(kind.value, name.rest, depth) else name;
        var s' := if name'.Skipped? then SkipPayload(kind.value, name'.rest, depth) else name';
        if name.Skipped? {
          LocalRest(name, name', more);
          PayloadLocal(kind.value, name.rest, more, depth);
        }
        ThenLocal(name, name', s, s', more);
        var t := if s.Skipped? then SkipEntries(s.rest, depth) else s;
        var t' := if s'.Skipped? then SkipEntries(s'.rest, depth) else s';
        if s.Skipped? {
          LocalRest(s, s', more);
          EntriesLocal(s.rest, more, depth);
        }
        ThenLocal(s, s', t, t', more);
      }
    }
  }

  lemma NothingLocal(more: seq<byte>, depth: nat)
    ensures Local(SkipEntries([], depth), SkipEntries([] + more, depth), more)
  {
    assert [] + more == more;
  }

  /** Whether a value is stepped over exactly does not depend on what follows it: its own bytes decide. */
  lemma OwnBytesDecide(kind: Kind, bs: seq<byte>, suffix: seq<byte>, depth: nat)
    ensures SkipPayload(kind, bs + suffix, depth) == Skipped(suffix) <==> SkipPayload(kind, bs, depth) == Skipped([])
  {
    hide SkipPayload;
    PayloadLocal(kind, bs, suffix, depth);
    assert [] + suffix == suffix;
  }

  /** The same for a whole root. */
  lemma RootBytesDecide(bs: seq<byte>, suffix: seq<byte>)
    requires bs != []
    ensures SkipRoot(bs + suffix) == Skipped(suffix) <==> SkipRoot(bs) == Skipped([])
  {
    hide SkipPayload, SkipName;
    assert (bs + suffix)[0] == bs[0] && (bs + suffix)[1..] == bs[1..] + suffix;
    assert [] + suffix == suffix;
    var kind := KindOfByte(bs[0]);
    if bs[0] != END && kind.Ok? {
      var name, name' := SkipName(bs[1..]), SkipName(bs[1..] + suffix);
      NameLocal(bs[1..], suffix);
      if name.Skipped? {
        PayloadLocal(kind.value, name.rest, suffix, 0);
      }
    }
  }

  // ---------------------------------------------------------------------
  // Lists
  // ---------------------------------------------------------------------

  /** The bytes of a fixed-width value. */
  function Width(kind: Kind): nat
    requires kind < 7
  {
    match kind
    case 0 => 0
    case 1 => 1
    case 2 => 2
    case 3 => 4
    case 4 => 8
    case 5 => 4
    case 6 => 8
  }

  /** Fixed-width items are stepped over as one block. */
  lemma {:induction false} FixedItems(kind: Kind, n: nat, bs: seq<byte>, depth: nat)
    requires kind < 7
    ensures SkipItems(kind, n, bs, depth) == Need(bs, n * Width(kind))
  {
    if n > 0 {
      var w := Width(kind);
      assert n * w == w + (n - 1) * w;
      if w <= |bs| {
        FixedItems(kind, n - 1, bs[w..], depth);
      }
    }
  }

  /** What the skipper takes for the kind and the count of a list is the front of its items. It ends
      where the list ends exactly when these say how much of the items is left: by their width, or for
      items that are themselves walked over, by walking them. */
  predicate ListLucky(body: seq<byte>, depth: nat) {
    && |body| >= 5 && KindOfByte(body[0]).Ok?
    && var n, rest := Signed(body[1..5]), body[5..];
       && n >= 0
       && (if body[0] < 7 then n * Width(body[0]) == |rest|
           else if body[0] == LIST || body[0] == COMPOUND then
             depth < MAX_DEPTH && SkipItems(body[0], n, rest, depth + 1) == Skipped([])
           else SkipItems(body[0], n, rest, depth) == Skipped([]))
  }

  lemma ListBytes(items: seq<Ordered>)
    ensures |Put(OList(items))| == 5 + |PutItems(items)| && Put(OList(items))[5..] == PutItems(items)
  {
    hide PutItems, PutBe;
  }

  /** The lists that are skipped correctly, whatever follows. A list whose items take fewer than five
      bytes, such as the empty one, never is. */
  lemma ListSkipExact(items: seq<Ordered>, suffix: seq<byte>, depth: nat)
    ensures SkipPayload(LIST, Put(OList(items)) + suffix, depth) == Skipped(suffix) <==> ListLucky(PutItems(items), depth)
  {
    hide Signed, PutItems, SkipItems, Put;
    var bs, body := Put(OList(items)), PutItems(items);
    OwnBytesDecide(LIST, bs, suffix, depth);
    ListBytes(items);
    assert SkipPayload(LIST, bs, depth) == SkipList(bs, depth);
    if |body| >= 5 && KindOfByte(body[0]).Ok? && Signed(body[1..5]) >= 0 {
      var n, rest := Signed(body[1..5]), body[5..];
      if body[0] < 7 {
        FixedItems(body[0], n, rest, depth);
        assert rest + [] == rest;
        NeedExact(rest, [], n * Width(body[0]));
      }
    }
  }

  /** The bytes a length-carrying value costs the skipper at the least. */
  function LeastTaken(kind: Kind): nat
    requires kind >= 7
  {
    match kind
    case 7 => 8
    case 8 => 4
    case 9 => 10
    case 10 => 1
    case 11 => 8
    case 12 => 8
  }

  lemma PayloadTakes(kind: Kind, bs: seq<byte>, depth: nat)
    requires kind >= 7 && SkipPayload(kind, bs, depth).Skipped?
    ensures |SkipPayload(kind, bs, depth).rest| + LeastTaken(kind) <= |bs|
  {
    hide SkipCounted, SkipList, SkipEntries;
    match kind
    case 7 => CountedTakes(bs, 4, true, 1);
    case 8 => CountedTakes(bs, 2, false, 1);
    case 9 =>
    case 10 =>
    case 11 => CountedTakes(bs, 4, true, 4);
    case 12 => CountedTakes(bs, 4, true, 8);
  }

  lemma {:induction false} ItemsTake(kind: Kind, n: nat, bs: seq<byte>, depth: nat)
    requires kind >= 7 && SkipItems(kind, n, bs, depth).Skipped?
    ensures |SkipItems(kind, n, bs, depth).rest| + n * LeastTaken(kind) <= |bs|
    decreases n
  {
    hide SkipPayload, LeastTaken;
    if n > 0 {
      var s := SkipPayload(kind, bs, depth);
      PayloadTakes(kind, bs, depth);
      ItemsTake(kind, n - 1, s.rest, depth);
      assert n * LeastTaken(kind) == LeastTaken(kind) + (n - 1) * LeastTaken(kind);
    }
  }

  /** So a list is skipped correctly only if what is taken for its count leaves room for so many items. */
  lemma LuckyCountIsSmall(items: seq<Ordered>, suffix: seq<byte>, depth: nat)
    requires SkipPayload(LIST, Put(OList(items)) + suffix, depth) == Skipped(suffix)
    ensures var body := PutItems(items);
      && |body| >= 5 && 0 <= Signed(body[1..5])
      && (body[0] >= 7 ==> body[0] <= 12 && Signed(body[1..5]) * LeastTaken(body[0]) <= |body| - 5)
  {
    hide Signed, PutItems, SkipItems, Put, SkipPayload, LeastTaken;
    ListSkipExact(items, suffix, depth);
    var body := PutItems(items);
    if body[0] >= 7 {
      ItemsTake(body[0], Signed(body[1..5]), body[5..],
                if body[0] == LIST || body[0] == COMPOUND then depth + 1 else depth);
    }
  }

  // ---------------------------------------------------------------------
  // Trees
  // ---------------------------------------------------------------------

  /** Every value of the tree that carries a length, outside lists, is one the skipper gets right. */
  ghost predicate AllLucky(o: Ordered, depth: nat)
    decreases o
  {
    match o
    case OPlain(l) => Lucky(l)
    case OList(items) => ListLucky(PutItems(items), depth)
    case OCompound(es) => forall e <- es :: AllLucky(e.value, depth + 1)
  }

  ghost predicate EntriesLucky(es: seq<Entry>, depth: nat) {
    forall i :: 0 <= i < |es| ==> EntryFits(es[i], depth) && AllLucky(es[i].value, depth)
  }

  lemma EntriesFit(es: seq<Entry>, depth: nat)
    requires IsWalk(OCompound(es)) && Readable(Erase(OCompound(es)), depth) && AllLucky(OCompound(es), depth)
    ensures depth < MAX_DEPTH && EntriesLucky(es, depth + 1)
  {
    hide ShortString, ListLucky, Lucky;
    EraseIntoSpec(map[], es);
    forall i | 0 <= i < |es| ensures EntryFits(es[i], depth + 1) && AllLucky(es[i].value, depth + 1) {
      KindOfErased(es[i].value);
      assert es[i] in es;
    }
  }

  /** A tree that reads back and whose lengths are all lucky is skipped to where the reader ends, in
      every order of its compounds. */
  lemma {:induction false} LuckyTreeSkips(o: Ordered, depth: nat, suffix: seq<byte>)
    requires IsWalk(o) && Readable(Erase(o), depth) && AllLucky(o, depth)
    ensures Get(KindOf(o), Put(o) + suffix, depth) == Ok((o, suffix))
    ensures SkipPayload(KindOf(o), Put(o) + suffix, depth) == Skipped(suffix)
    decreases o, 1
  {
    hide Get, IsWalk, Readable, PutItems, PutEntries, SkipEntries, SkipList, SkipCounted, Lucky, ListLucky, PutLeaf;
    GetOfPut(o, depth, suffix);
    match o
    case OPlain(l) =>
      LeafReadable(l, depth);
      LeafSkipExact(l, suffix, depth);
    case OList(items) =>
      ListSkipExact(items, suffix, depth);
    case OCompound(es) =>
      EntriesFit(es, depth);
      LuckyEntriesSkip(es, depth + 1, suffix);
  }

  lemma LeafReadable(l: Leaf, depth: nat)
    requires Readable(Erase(OPlain(l)), depth)
    ensures LeafFits(l)
  {
  }

  lemma {:induction false} LuckyEntriesSkip(es: seq<Entry>, depth: nat, suffix: seq<byte>)
    requires EntriesLucky(es, depth)
    ensures SkipEntries(PutEntries(es) + suffix, depth) == Skipped(suffix)
    decreases es, 0
  {
    hide Get, Put, PutEntry, SkipPayload, Readable, IsWalk, AllLucky, ShortString, KindOf, Erase;
    if es == [] {
      assert PutEntries(es) + suffix == [END] + suffix;
    } else {
      hide SkipEntries;
      var e, rest := es[0], es[1..];
      var tail := PutEntries(rest) + suffix;
      assert PutEntries(es) == PutEntry(e) + PutEntries(rest);
      assert PutEntries(es) + suffix == PutEntry(e) + tail;
      EntryUnfold(e, depth, tail);
      LuckyTreeSkips(e.value, depth, tail);
      LuckyEntriesSkip(rest, depth, suffix);
    }
  }

  /** For a root. */
  lemma LuckyRootSkips(name: string, es: seq<Entry>, suffix: seq<byte>)
    requires IsWalk(OCompound(es)) && ShortString(name)
    requires Readable(Compound(EraseInto(map[], es)), 0) && AllLucky(OCompound(es), 0)
    ensures var bs := PutRoot(name, es) + suffix;
      && GetRoot(bs) == Ok((Root(name, EraseInto(map[], es)), suffix))
      && SkipRoot(bs) == Skipped(suffix)
  {
    hide Get, Put, GetRoot, GetString, PutString, Readable, IsWalk, ShortString, SkipPayload, SkipName, AllLucky;
    var o := OCompound(es);
    var bs := PutRoot(name, es) + suffix;
    RootRoundTrip(name, es, suffix);
    assert Erase(o) == Compound(EraseInto(map[], es));
    assert bs[0] == COMPOUND && bs[1..] == PutString(name) + (Put(o) + suffix);
    StringRoundTrip(name, Put(o) + suffix);
    SkipNameAgrees(bs[1..]);
    LuckyTreeSkips(o, 0, suffix);
  }

  // ---------------------------------------------------------------------
  // Wrong turns that cancel
  // ---------------------------------------------------------------------

  /** A string that is not lucky can send the skipper to the end of the next entry, after which it is on
      track again. */
  lemma EntriesWrongTurn(key: string, text: string, e: Entry, depth: nat, suffix: seq<byte>)
    requires ShortString(key) && ShortString(text)
    requires var bs := Utf8.Encode(text); |bs| >= 2 && Unsigned(bs[..2]) == |bs| - 2 + |PutEntry(e)|
    ensures !Lucky(String(text))
    ensures SkipEntries(PutEntries([Entry(key, OPlain(String(text))), e]) + suffix, depth) == Skipped(suffix)
  {
    hide Unsigned, Utf8.Encode, PutEntry, SkipPayload, SkipCounted, PutBe, ShortString, PutEntries, SkipEntries;
    var first := Entry(key, OPlain(String(text)));
    var bs, tail := Utf8.Encode(text), [END] + suffix;
    TwoEntries(first, e, suffix);
    EntryUnfold(first, depth, PutEntry(e) + tail);
    CountedExact(PutBe(2, |bs|), bs + PutEntry(e), tail, false, 1);
    assert (bs + PutEntry(e))[..2] == bs[..2];
    StringSkips(text, PutEntry(e) + tail, depth);
    assert PutBe(2, |bs|) + bs + (PutEntry(e) + tail) == PutBe(2, |bs|) + (bs + PutEntry(e)) + tail;
    EndEnds(suffix, depth);
    EntrySize(e);
  }

  lemma EntrySize(e: Entry)
    ensures |PutEntry(e)| > 0
  {
  }

  lemma EndEnds(suffix: seq<byte>, depth: nat)
    ensures SkipEntries([END] + suffix, depth) == Skipped(suffix)
  {
  }

  lemma StringSkips(text: string, tail: seq<byte>, depth: nat)
    ensures SkipPayload(KindOf(OPlain(String(text))), Put(OPlain(String(text))) + tail, depth)
         == SkipCounted(PutBe(2, |Utf8.Encode(text)|) + Utf8.Encode(text) + tail, 2, false, 1)
  {
    hide SkipCounted, PutBe, Utf8.Encode;
  }

  lemma TwoEntries(first: Entry, second: Entry, suffix: seq<byte>)
    ensures PutEntries([first, second]) + suffix == PutEntry(first) + (PutEntry(second) + ([END] + suffix))
  {
    hide PutEntry;
    var es := [first, second];
    assert es[1..] == [second] && es[1..][1..] == [];
    assert PutEntries([]) == [END];
  }

  /** So the condition on trees does not go the other way: a root of two such entries reads back and is
      skipped to where the reader ends, although not all of it is lucky. */
  lemma WrongTurnCancels(name: string, key: string, text: string, e: Entry, suffix: seq<byte>)
    requires ShortString(name) && ShortString(key) && ShortString(text) && key != e.name && EntryFits(e, 1)
    requires var bs := Utf8.Encode(text); |bs| >= 2 && Unsigned(bs[..2]) == |bs| - 2 + |PutEntry(e)|
    ensures var es := [Entry(key, OPlain(String(text))), e];
      var bs := PutRoot(name, es) + suffix;
      && GetRoot(bs) == Ok((Root(name, EraseInto(map[], es)), suffix))
      && SkipRoot(bs) == Skipped(suffix)
      && !AllLucky(OCompound(es), 0)
  {
    hide GetRoot, PutString, ShortString, SkipName, SkipPayload, PutEntry, SkipEntries, PutEntries, GetString,
         Unsigned, Utf8.Encode, Lucky;
    var first := Entry(key, OPlain(String(text)));
    var es := [first, e];
    var bs := PutRoot(name, es) + suffix;
    EntriesWrongTurn(key, text, e, 1, suffix);
    TwoReadable(first, e);
    assert Erase(OCompound(es)) == Compound(EraseInto(map[], es));
    RootRoundTrip(name, es, suffix);
    var body := PutEntries(es) + suffix;
    assert bs[0] == COMPOUND && bs[1..] == PutString(name) + body;
    StringRoundTrip(name, body);
    SkipNameAgrees(bs[1..]);
    CompoundSkips(body);
    assert es[0] in es && AllLucky(first.value, 1) == Lucky(String(text));
  }

  lemma TwoReadable(first: Entry, second: Entry)
    requires first.name != second.name && ShortString(first.name) && EntryFits(second, 1)
    requires first.value.OPlain? && first.value.leaf.String? && ShortString(first.value.leaf.text)
    ensures var o := OCompound([first, second]); IsWalk(o) && Readable(Erase(o), 0)
  {
    var es := [first, second];
    assert forall i :: 0 <= i < |es| ==> es[i] == first || es[i] == second;
    CompoundReadable(es, 0);
  }

  /** There are such entries. */
  lemma WrongTurnExists() returns (key: string, text: string, e: Entry)
    ensures ShortString(key) && ShortString(text) && key != e.name && EntryFits(e, 1)
    ensures var bs := Utf8.Encode(text); |bs| >= 2 && Unsigned(bs[..2]) == |bs| - 2 + |PutEntry(e)|
  {
    key, text, e := "", [0 as char, 5 as char], Entry("a", OPlain(Byte(0)));
    assert text[1..] == [5 as char] && text[1..][1..] == [];
    assert Utf8.Encode([]) == [];
    assert Utf8.Encode([5 as char]) == Utf8.EncodeChar(5 as char) + [] == [5];
    assert Utf8.Encode(text) == [0] + [5] == [0, 5];
    assert [0 as byte, 5][..2] == [0, 5];
    assert Unsigned([0, 5]) == 5;
    assert "a"[1..] == [];
    assert |PutString("a")| == 3;
  }
}
