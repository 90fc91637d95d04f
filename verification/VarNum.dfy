/** The variable-length integers VarInt (32 bits) and VarLong (64 bits). */
module VarNum {
  import opened Bytes

  /** The two encodings differ in width, in byte limit and in the check on the last byte. */
  datatype Width = Int32 | Int64 {
    function MaxBytes(): nat {
      if Int32? then 5 else 10
    }

    /** Values the last permitted byte must stay under; VarLong does not check it. */
    function LastLimit(): nat {
      if Int32? then 16 else 256
    }

    function Modulus(): nat {
      if Int32? then 0x1_0000_0000 else 0x1_0000_0000_0000_0000
    }

    /** The signed values of this width. */
    predicate InRange(v: int) {
      -(Modulus() as int) <= 2 * v < Modulus()
    }

    /** `u as i32` / `u as i64`. */
    function ToSigned(u: nat): int {
      var m := u % Modulus();
      if 2 * m < Modulus() then m else m - Modulus()
    }
  }

  /** Seven bits a byte, least significant first, top bit set on all but the last. */
  function Groups(n: nat): (bs: seq<byte>)
    ensures |bs| >= 1
  {
    if n < 128 then [n] else [n % 128 + 128] + Groups(n / 128)
  }

  function Encode(w: Width, v: int): (bs: seq<byte>) {
    Groups(v % w.Modulus())
  }

  /** The decoder after `k` bytes: the value of the groups still to come. */
  function DecodeGroups(w: Width, k: nat, bs: seq<byte>): (r: Decoded<nat>)
    ensures r.Ok? ==> |r.value.1| < |bs| && r.value.1 == bs[|bs| - |r.value.1|..]
    decreases |bs|
  {
    if k >= w.MaxBytes() then Err(VarIntOverflow(k))
    else if bs == [] then Err(UnexpectedEof)
    else if k + 1 == w.MaxBytes() && bs[0] >= w.LastLimit() then Err(VarIntOverflow(k + 1))
    else if bs[0] < 128 then Ok((bs[0], bs[1..]))
    else
      var (high, rest) :- DecodeGroups(w, k + 1, bs[1..]);
      Ok((bs[0] - 128 + 128 * high, rest))
  }

  function Decode(w: Width, bs: seq<byte>): (r: Decoded<int>)
    ensures r.Ok? ==> |r.value.1| < |bs| && r.value.1 == bs[|bs| - |r.value.1|..]
  {
    var (u, rest) :- DecodeGroups(w, 0, bs);
    Ok((w.ToSigned(u), rest))
  }

  // ---------------------------------------------------------------------
  // Round trip
  // ---------------------------------------------------------------------

  /** The numbers that still fit once `k` groups are written: the modulus, seven bits at a time. */
  function Capacity(w: Width, k: nat): nat
    requires k < w.MaxBytes()
    decreases w.MaxBytes() - k
  {
    if k + 1 == w.MaxBytes() then (if w.Int32? then 16 else 2) else 128 * Capacity(w, k + 1)
  }

  /** One more group in front of what decodes. */
  lemma GroupInFront(w: Width, k: nat, n: nat, tail: seq<byte>, rest: seq<byte>)
    requires k + 1 < w.MaxBytes() && DecodeGroups(w, k + 1, tail) == Ok((n / 128, rest))
    ensures DecodeGroups(w, k, [n % 128 + 128] + tail) == Ok((n, rest))
  {
    assert ([n % 128 + 128] + tail)[1..] == tail;
  }

  /** A number with more than one group leaves room for the others. */
  lemma HighFits(w: Width, k: nat, n: nat)
    requires k < w.MaxBytes() && 128 <= n < Capacity(w, k)
    ensures k + 1 < w.MaxBytes() && n / 128 < Capacity(w, k + 1) && n / 128 < n
  {
  }

  lemma GroupsAndMore(n: nat, suffix: seq<byte>)
    requires n >= 128
    ensures Groups(n) + suffix == [n % 128 + 128] + (Groups(n / 128) + suffix)
  {
    var head, tail := [n % 128 + 128], Groups(n / 128);
    assert head + tail + suffix == head + (tail + suffix);
  }

  /** The last group. */
  lemma GroupAtEnd(w: Width, k: nat, n: byte, suffix: seq<byte>)
    requires k < w.MaxBytes() && n < 128 && n < Capacity(w, k)
    ensures DecodeGroups(w, k, [n] + suffix) == Ok((n, suffix))
  {
    assert ([n] + suffix)[1..] == suffix;
  }

  lemma {:induction false} GroupsRoundTrip(w: Width, k: nat, n: nat, suffix: seq<byte>)
    requires k < w.MaxBytes() && n < Capacity(w, k)
    ensures DecodeGroups(w, k, Groups(n) + suffix) == Ok((n, suffix))
    decreases n
  {
    hide DecodeGroups, Capacity;
    if n < 128 {
      GroupAtEnd(w, k, n, suffix);
    } else {
      hide Groups;
      HighFits(w, k, n);
      GroupsRoundTrip(w, k + 1, n / 128, suffix);
      GroupInFront(w, k, n, Groups(n / 128) + suffix, suffix);
      GroupsAndMore(n, suffix);
    }
  }

  lemma FullCapacity(w: Width)
    ensures Capacity(w, 0) == w.Modulus()
  {
    if w.Int32? {
      assert Capacity(w, 3) == 128 * Capacity(w, 4);
      assert Capacity(w, 1) == 128 * Capacity(w, 2);
    } else {
      assert Capacity(w, 7) == 128 * Capacity(w, 8);
      assert Capacity(w, 5) == 128 * Capacity(w, 6);
      assert Capacity(w, 3) == 128 * Capacity(w, 4);
      assert Capacity(w, 1) == 128 * Capacity(w, 2);
    }
  }

  /** Decoding inverts encoding, whatever follows on the wire. */
  lemma RoundTrip(w: Width, v: int, suffix: seq<byte>)
    requires w.InRange(v)
    ensures Decode(w, Encode(w, v) + suffix) == Ok((v, suffix))
  {
    hide DecodeGroups, Groups;
    FullCapacity(w);
    var u := v % w.Modulus();
    UniqueRemainder(v, w.Modulus(), if v < 0 then -1 else 0, if v < 0 then v + w.Modulus() else v);
    GroupsRoundTrip(w, 0, u, suffix);
  }

  /** A length goes into a 32-bit header modulo 2^32 and comes out as the signed number. */
  lemma LengthHeader(n: nat, suffix: seq<byte>)
    ensures Decode(Int32, Encode(Int32, n) + suffix) == Ok((Int32.ToSigned(n), suffix))
  {
    hide Decode, Groups;
    var m, r := Int32.ToSigned(n), n % 0x1_0000_0000;
    UniqueRemainder(m, 0x1_0000_0000, if m == r then 0 else -1, r);
    RoundTrip(Int32, m, suffix);
  }

  // ---------------------------------------------------------------------
  // What is written
  // ---------------------------------------------------------------------

  /** The value of groups of seven bits, the least significant first, whatever their top bits. */
  function Positional(bs: seq<byte>): nat {
    if bs == [] then 0 else bs[0] % 128 + 128 * Positional(bs[1..])
  }

  function Pow128(k: nat): (p: nat)
    ensures p > 0
  {
    if k == 0 then 1 else 128 * Pow128(k - 1)
  }

  /** The top bit is set on all bytes but the last. */
  predicate Continued(bs: seq<byte>) {
    bs != [] && bs[|bs| - 1] < 128 && forall i :: 0 <= i < |bs| - 1 ==> bs[i] >= 128
  }

  lemma ContinuedFront(b: byte, bs: seq<byte>)
    requires b >= 128 && Continued(bs)
    ensures Continued([b] + bs) && Positional([b] + bs) == b - 128 + 128 * Positional(bs)
  {
    var all := [b] + bs;
    assert forall i :: 1 <= i < |all| ==> all[i] == bs[i - 1];
    assert all[1..] == bs;
  }

  lemma ContinuedOne(b: byte)
    requires b < 128
    ensures Continued([b]) && Positional([b]) == b
  {
    assert [b][1..] == [];
  }

  lemma {:induction false} PositionalBound(bs: seq<byte>)
    ensures Positional(bs) < Pow128(|bs|)
  {
    if bs != [] {
      PositionalBound(bs[1..]);
    }
  }

  lemma {:induction false} PositionalLeast(bs: seq<byte>)
    requires bs != [] && bs[|bs| - 1] % 128 != 0
    ensures Positional(bs) >= Pow128(|bs| - 1)
  {
    if |bs| > 1 {
      PositionalLeast(bs[1..]);
    }
  }

  lemma {:induction false} GroupsShape(n: nat)
    ensures var bs := Groups(n); Continued(bs) && Positional(bs) == n && (|bs| > 1 ==> bs[|bs| - 1] != 0)
  {
    hide Positional, Continued;
    if n < 128 {
      ContinuedOne(n);
    } else {
      var rest := Groups(n / 128);
      GroupsShape(n / 128);
      ContinuedFront(n % 128 + 128, rest);
      assert Groups(n)[|rest|] == rest[|rest| - 1];
    }
  }

  /** What is written for a number: groups of seven bits, least significant first, that add up to it
      modulo the width, the top bit set on all but the last, and none to spare. */
  lemma EncodeShape(w: Width, v: int)
    ensures var bs := Encode(w, v);
      && Continued(bs)
      && Positional(bs) == v % w.Modulus()
      && (|bs| > 1 ==> bs[|bs| - 1] != 0)
  {
    hide Groups, Continued, Positional;
    GroupsShape(v % w.Modulus());
  }

  /** What is read, on all bytes that are accepted: the first groups up to one without its top bit, and
      the number they add up to, taken as a signed number of the width. */
  lemma {:induction false} DecodeGroupsShape(w: Width, k: nat, bs: seq<byte>)
    requires DecodeGroups(w, k, bs).Ok?
    ensures var (n, rest) := DecodeGroups(w, k, bs).value;
      var used := bs[..|bs| - |rest|];
      Continued(used) && n == Positional(used) && |used| <= w.MaxBytes() - k
    decreases |bs|
  {
    hide Positional, Continued;
    var (n, rest) := DecodeGroups(w, k, bs).value;
    var used := bs[..|bs| - |rest|];
    if bs[0] < 128 {
      assert used == [bs[0]];
      ContinuedOne(bs[0]);
    } else {
      DecodeGroupsShape(w, k + 1, bs[1..]);
      var more := bs[1..][..|bs| - 1 - |rest|];
      assert used == [bs[0]] + more;
      ContinuedFront(bs[0], more);
    }
  }

  lemma DecodeShape(w: Width, bs: seq<byte>)
    requires Decode(w, bs).Ok?
    ensures var (v, rest) := Decode(w, bs).value;
      var used := bs[..|bs| - |rest|];
      && bs == used + rest && Continued(used) && |used| <= w.MaxBytes()
      && v == w.ToSigned(Positional(used))
  {
    hide DecodeGroups, Continued, Positional;
    DecodeGroupsShape(w, 0, bs);
  }

  lemma FirstGroup(w: Width, k: nat, b: byte, tail: seq<byte>)
    requires k < w.MaxBytes()
    ensures b < 128 && (k + 1 < w.MaxBytes() || b < w.LastLimit()) ==> DecodeGroups(w, k, [b] + tail) == Ok((b, tail))
    ensures b >= 128 && k + 1 < w.MaxBytes() && DecodeGroups(w, k + 1, tail).Ok? ==>
      DecodeGroups(w, k, [b] + tail)
        == Ok((b - 128 + 128 * DecodeGroups(w, k + 1, tail).value.0, DecodeGroups(w, k + 1, tail).value.1))
  {
    assert ([b] + tail)[1..] == tail;
  }

  lemma {:induction false} GroupsAccepted(w: Width, k: nat, used: seq<byte>, rest: seq<byte>)
    requires Continued(used) && k < w.MaxBytes() && |used| <= w.MaxBytes() - k && !Overlong(w, k, used)
    ensures DecodeGroups(w, k, used + rest) == Ok((Positional(used), rest))
    decreases |used|
  {
    hide Continued, Positional, Overlong, DecodeGroups;
    ContinuedEnd(used);
    OverlongEnd(w, k, used);
    if |used| == 1 {
      assert used == [used[0]];
      FirstGroup(w, k, used[0], rest);
      ContinuedOne(used[0]);
    } else {
      var more := used[1..];
      assert used == [used[0]] + more && used + rest == [used[0]] + (more + rest);
      OverlongStep(w, k, used);
      ContinuedTail(used);
      GroupsAccepted(w, k + 1, more, rest);
      FirstGroup(w, k, used[0], more + rest);
      ContinuedFront(used[0], more);
    }
  }

  lemma ContinuedTail(bs: seq<byte>)
    requires Continued(bs) && |bs| > 1
    ensures Continued(bs[1..]) && bs[0] >= 128
  {
    var more := bs[1..];
    assert forall i :: 0 <= i < |more| ==> more[i] == bs[i + 1];
  }

  /** Every such group sequence that is not overlong is accepted, shortest or not. */
  lemma DecodeAccepts(w: Width, used: seq<byte>, rest: seq<byte>)
    requires Continued(used) && |used| <= w.MaxBytes() && !Overlong(w, 0, used)
    ensures Decode(w, used + rest) == Ok((w.ToSigned(Positional(used)), rest))
  {
    hide DecodeGroups, Continued, Positional, Overlong;
    GroupsAccepted(w, 0, used, rest);
  }

  lemma {:induction false} Pow128Grows(a: nat, b: nat)
    requires a <= b
    ensures Pow128(a) <= Pow128(b)
  {
    if a < b {
      Pow128Grows(a, b - 1);
    }
  }

  lemma SignedResidue(w: Width, u: nat)
    ensures w.ToSigned(u) % w.Modulus() == u % w.Modulus()
  {
    var m, r := w.Modulus(), u % w.Modulus();
    UniqueRemainder(w.ToSigned(u), m, if w.ToSigned(u) == r then 0 else -1, r);
  }

  /** No accepted bytes for a number are shorter than those written for it. */
  lemma EncodeShortest(w: Width, v: int, bs: seq<byte>, rest: seq<byte>)
    requires Decode(w, bs) == Ok((v, rest))
    ensures |Encode(w, v)| <= |bs| - |rest|
  {
    hide Encode, Decode, Positional, Continued, Pow128;
    var mine, used := Encode(w, v), bs[..|bs| - |rest|];
    EncodeShape(w, v);
    DecodeShape(w, bs);
    SignedResidue(w, Positional(used));
    PositionalBound(used);
    assert mine != [] by { ContinuedEnd(mine); }
    if |used| < |mine| {
      ContinuedEnd(mine);
      ContinuedEnd(used);
      PositionalLeast(mine);
      Pow128Grows(|used|, |mine| - 1);
      SmallResidue(Positional(used), Positional(mine), w.Modulus());
      assert false;
    }
  }

  lemma ContinuedEnd(bs: seq<byte>)
    requires Continued(bs)
    ensures bs != [] && bs[|bs| - 1] < 128 && bs[|bs| - 1] % 128 == bs[|bs| - 1]
  {
  }

  lemma SmallResidue(a: nat, b: nat, m: nat)
    requires a < b < m
    ensures a % m == a && a % m != b
  {
    UniqueRemainder(a, m, 0, a);
  }

  /** The examples of the format's documentation. */
  lemma KnownEncodings()
    ensures Encode(Int32, 0) == [0x00] && Encode(Int32, 127) == [0x7F]
    ensures Encode(Int32, 128) == [0x80, 0x01] && Encode(Int32, 255) == [0xFF, 0x01]
    ensures Encode(Int32, 25565) == [0xDD, 0xC7, 0x01]
  {
    assert Groups(1) == [1] && Groups(199) == [0xC7, 1];
  }

  /** A decoded number is a number of the width, so it can be encoded again. */
  lemma DecodedInRange(w: Width, bs: seq<byte>)
    requires Decode(w, bs).Ok?
    ensures w.InRange(Decode(w, bs).value.0)
  {
  }

  /** More bytes only ever turn "not enough bytes" into an answer: answers are final. */
  lemma {:induction false} GroupsExtend(w: Width, k: nat, bs: seq<byte>, more: seq<byte>)
    ensures match DecodeGroups(w, k, bs)
      case Ok((n, rest)) => DecodeGroups(w, k, bs + more) == Ok((n, rest + more))
      case Err(UnexpectedEof) => true
      case Err(e) => DecodeGroups(w, k, bs + more) == Err(e)
    decreases |bs|
  {
    if k < w.MaxBytes() && bs != [] {
      assert (bs + more)[1..] == bs[1..] + more;
      GroupsExtend(w, k + 1, bs[1..], more);
    }
  }

  /** Bytes that can be no number, whatever follows: all the groups there may be, all with the top bit
      set but the last, and that one with more than fits. */
  predicate Overlong(w: Width, k: nat, bs: seq<byte>) {
    k < w.MaxBytes() && |bs| >= w.MaxBytes() - k
    && (forall i :: 0 <= i < w.MaxBytes() - k - 1 ==> bs[i] >= 128)
    && bs[w.MaxBytes() - k - 1] >= if w.Int32? then 16 else 128
  }

  lemma OverlongStep(w: Width, k: nat, bs: seq<byte>)
    requires bs != [] && k + 1 < w.MaxBytes()
    ensures Overlong(w, k, bs) <==> bs[0] >= 128 && Overlong(w, k + 1, bs[1..])
  {
    var rest, last := bs[1..], w.MaxBytes() - k - 1;
    assert forall i :: 0 <= i < |rest| ==> rest[i] == bs[i + 1];
    if bs[0] >= 128 && Overlong(w, k + 1, rest) {
      forall i | 0 <= i < last ensures bs[i] >= 128 {
        assert i > 0 ==> bs[i] == rest[i - 1];
      }
      assert bs[last] == rest[last - 1];
    }
  }

  lemma OverlongEnd(w: Width, k: nat, bs: seq<byte>)
    ensures bs == [] ==> !Overlong(w, k, bs)
    ensures k + 1 == w.MaxBytes() && bs != [] ==> (Overlong(w, k, bs) <==> bs[0] >= if w.Int32? then 16 else 128)
  {
  }

  lemma {:induction false} GroupsOverflowExactly(w: Width, k: nat, bs: seq<byte>)
    requires k < w.MaxBytes()
    ensures DecodeGroups(w, k, bs) == Err(VarIntOverflow(w.MaxBytes())) <==> Overlong(w, k, bs)
    ensures var r := DecodeGroups(w, k, bs); r.Err? ==> r.error == VarIntOverflow(w.MaxBytes()) || r.error == UnexpectedEof
    decreases |bs|
  {
    hide Overlong;
    OverlongEnd(w, k, bs);
    if bs != [] && k + 1 < w.MaxBytes() {
      OverlongStep(w, k, bs);
      if bs[0] >= 128 {
        GroupsOverflowExactly(w, k + 1, bs[1..]);
      }
    }
  }

  /** Reading overflows on exactly these bytes, and else only runs out of them. */
  lemma OverflowExactly(w: Width, bs: seq<byte>)
    ensures Decode(w, bs) == Err(VarIntOverflow(w.MaxBytes())) <==> Overlong(w, 0, bs)
    ensures var r := Decode(w, bs); r.Err? ==> r.error == VarIntOverflow(w.MaxBytes()) || r.error == UnexpectedEof
  {
    GroupsOverflowExactly(w, 0, bs);
  }

  /** The bytes are a number of this width, and `v` is its value. */
  predicate Spells(w: Width, h: seq<byte>, v: int) {
    Continued(h) && |h| <= w.MaxBytes() && !Overlong(w, 0, h) && v == w.ToSigned(Positional(h))
  }

  /** The decoder on every input: what it takes off the front is a number, and every number is taken. */
  lemma DecodeExactly(w: Width, bs: seq<byte>, v: int, rest: seq<byte>)
    ensures Decode(w, bs) == Ok((v, rest)) <==> exists h :: Spells(w, h, v) && bs == h + rest
  {
    hide Decode, Positional;
    if Decode(w, bs) == Ok((v, rest)) {
      DecodeShape(w, bs);
      var used := bs[..|bs| - |rest|];
      OverflowExactly(w, bs);
      assert !Overlong(w, 0, used);
      assert Spells(w, used, v) && bs == used + rest;
    }
    if exists h :: Spells(w, h, v) && bs == h + rest {
      var h :| Spells(w, h, v) && bs == h + rest;
      DecodeAccepts(w, h, rest);
    }
  }

  lemma SpellsDecodes(w: Width, h: seq<byte>, v: int, rest: seq<byte>)
    requires Spells(w, h, v)
    ensures Decode(w, h + rest) == Ok((v, rest))
  {
    hide Spells;
    DecodeExactly(w, h + rest, v, rest);
  }

  /** It asks for more exactly while the number may still go on. */
  lemma {:induction false} GroupsUnfinishedExactly(w: Width, k: nat, bs: seq<byte>)
    requires k < w.MaxBytes()
    ensures DecodeGroups(w, k, bs) == Err(UnexpectedEof) <==>
      |bs| < w.MaxBytes() - k && forall i :: 0 <= i < |bs| ==> bs[i] >= 128
    decreases |bs|
  {
    if bs != [] && bs[0] >= 128 && k + 1 < w.MaxBytes() {
      GroupsUnfinishedExactly(w, k + 1, bs[1..]);
      assert forall i :: 0 < i < |bs| ==> bs[i] == bs[1..][i - 1];
    }
  }

  lemma UnfinishedExactly(w: Width, bs: seq<byte>)
    ensures Decode(w, bs) == Err(UnexpectedEof) <==> |bs| < w.MaxBytes() && forall i :: 0 <= i < |bs| ==> bs[i] >= 128
  {
    GroupsUnfinishedExactly(w, 0, bs);
  }

  /** The encoder spells every number of its width. */
  lemma EncodeSpells(w: Width, v: int)
    requires w.InRange(v)
    ensures Spells(w, Encode(w, v), v)
  {
    hide Encode, Decode, Continued, Positional;
    var bs := Encode(w, v);
    RoundTrip(w, v, []);
    assert bs + [] == bs;
    DecodeShape(w, bs);
    assert bs[..|bs| - 0] == bs;
    OverflowExactly(w, bs);
  }

  /** A number that is not finished can be finished. */
  lemma {:induction false} GroupsFinish(w: Width, k: nat, bs: seq<byte>)
    requires DecodeGroups(w, k, bs) == Err(UnexpectedEof)
    ensures DecodeGroups(w, k, bs + [0]).Ok?
    decreases |bs|
  {
    if bs == [] {
      assert bs + [0] == [0];
    } else {
      GroupsFinish(w, k + 1, bs[1..]);
      assert (bs + [0])[1..] == bs[1..] + [0];
    }
  }

  lemma DecodeExtend(w: Width, bs: seq<byte>, more: seq<byte>)
    ensures match Decode(w, bs)
      case Ok((v, rest)) => Decode(w, bs + more) == Ok((v, rest + more))
      case Err(UnexpectedEof) => true
      case Err(e) => Decode(w, bs + more) == Err(e)
  {
    GroupsExtend(w, 0, bs, more);
  }

  // ---------------------------------------------------------------------
  // The loops
  // ---------------------------------------------------------------------

  method EncodeTo(w: Width, v: int, dst: Buffer)
    modifies dst
    ensures dst.data == old(dst.data) + Encode(w, v)
  {
    var val := v % w.Modulus();
    while val >= 128
      invariant 0 <= val
      invariant dst.data + Groups(val) == old(dst.data) + Encode(w, v)
      decreases val
    {
      ghost var before, n := dst.data, val;
      var low := val % 128;
      val := val / 128;
      dst.data := dst.data + [low + 128];
      assert before + Groups(n) == before + [low + 128] + Groups(val);
    }
    dst.data := dst.data + [val];
  }

  method EncodedLen(v: i32) returns (count: nat)
    ensures count == |Encode(Int32, v)|
  {
    var val := v % Int32.Modulus();
    count := 1;
    while val >= 0x80
      invariant 0 <= val
      invariant count + |Groups(val)| == 1 + |Encode(Int32, v)|
      decreases val
    {
      val := val / 128;
      count := count + 1;
    }
  }

  /** What the bytes still to be read make of a decoder that holds `acc` from the `k` groups
      read so far, the next group weighing `weight`. */
  ghost function Resume(w: Width, k: nat, weight: nat, acc: nat, bs: seq<byte>): Decoded<nat> {
    var (high, rest) :- DecodeGroups(w, k, bs);
    Ok((acc + weight * high, rest))
  }

  /** One turn of the reader's loop. */
  lemma ResumeStep(w: Width, k: nat, weight: nat, acc: nat, bs: seq<byte>)
    requires k < w.MaxBytes() && bs != []
    ensures Resume(w, k, weight, acc, bs)
         == if k + 1 == w.MaxBytes() && bs[0] >= w.LastLimit() then Err(VarIntOverflow(k + 1))
            else if bs[0] < 128 then Ok((acc + weight * bs[0], bs[1..]))
            else Resume(w, k + 1, 128 * weight, acc + weight * (bs[0] - 128), bs[1..])
  {
    if bs[0] >= 128 {
      var next := DecodeGroups(w, k + 1, bs[1..]);
      if next.Ok? {
        Distribute(weight, bs[0] - 128, next.value.0);
      }
    }
  }

  lemma Distribute(p: int, low: int, high: int)
    ensures p * (low + 128 * high) == p * low + 128 * p * high
  {
  }

  lemma NoSign(weight: nat, b: byte)
    ensures weight * b >= 0 && (b >= 128 ==> weight * (b - 128) >= 0)
  {
  }

  lemma ResumeEnds(w: Width, k: nat, weight: nat, acc: nat, bs: seq<byte>)
    ensures DecodeGroups(w, 0, bs) == Resume(w, 0, 1, 0, bs)
    ensures k >= w.MaxBytes() ==> Resume(w, k, weight, acc, bs) == Err(VarIntOverflow(k))
    ensures k < w.MaxBytes() ==> Resume(w, k, weight, acc, []) == Err(UnexpectedEof)
  {
  }

  /** The reader's loop. `result |= group << shift` is a sum because the bits are disjoint; what
      a 64-bit shift drops is dropped by `ToSigned`. */
  method DecodeFrom(w: Width, src: Source) returns (r: Result<int, Error>)
    modifies src
    ensures match Decode(w, old(src.rest))
      case Ok((v, rest)) => r == Ok(v) && src.rest == rest
      case Err(e) => r == Err(e)
  {
    hide Resume, DecodeGroups, Width.ToSigned;
    var result: nat, weight: nat, bytesRead: nat := 0, 1, 0;
    ResumeEnds(w, 0, 1, 0, src.rest);
    while true
      invariant DecodeGroups(w, 0, old(src.rest)) == Resume(w, bytesRead, weight, result, src.rest)
      decreases |src.rest|
    {
      ResumeEnds(w, bytesRead, weight, result, src.rest);
      if bytesRead >= w.MaxBytes() {
        return Err(VarIntOverflow(bytesRead));
      }
      if src.rest == [] {
        return Err(UnexpectedEof);
      }
      ResumeStep(w, bytesRead, weight, result, src.rest);
      var b := src.rest[0];
      NoSign(weight, b);
      src.rest := src.rest[1..];
      bytesRead := bytesRead + 1;
      if bytesRead == w.MaxBytes() && b >= w.LastLimit() {
        return Err(VarIntOverflow(bytesRead));
      }
      if b < 128 {
        return Ok(w.ToSigned(result + weight * b));
      }
      result, weight := result + weight * (b - 128), 128 * weight;
    }
  }
}
