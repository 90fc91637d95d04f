/** Bytes, fixed-width big-endian integers and the result type of every decoder. */
module Bytes {

  type byte = b: int | 0 <= b < 256
  type i8 = n: int | -0x80 <= n < 0x80
  type i16 = n: int | -0x8000 <= n < 0x8000
  type i32 = n: int | -0x8000_0000 <= n < 0x8000_0000
  type i64 = n: int | -0x8000_0000_0000_0000 <= n < 0x8000_0000_0000_0000

  /** The errors a codec can return, with the numbers they carry. */
  datatype Error =
    | UnexpectedEof
    | VarIntOverflow(bytesRead: nat)
    | StringTooLong(length: int, max: nat)
    | InvalidUtf8
    | UnknownNbtTag(tag: int)
    | PacketTooLarge(size: int, maximum: nat)

  datatype Result<+T, +E> = Ok(value: T) | Err(error: E) {
    predicate IsFailure() {
      Err?
    }

    function PropagateFailure<U>(): (r: Result<U, E>)
      requires Err?
    {
      Err(error)
    }

    function Extract(): T
      requires Ok?
    {
      value
    }
  }

  datatype Option<+T> = None | Some(value: T)

  /** What a decoder hands back: the value and the bytes it left. */
  type Decoded<+T> = Result<(T, seq<byte>), Error>

  /** `to_ascii_lowercase` of one character. */
  function Lower(c: char): char {
    if 'A' <= c <= 'Z' then (c as int + 32) as char else c
  }

  /** A read cursor (`bytes::Bytes`): reading drops the bytes read. */
  class Source {
    var rest: seq<byte>

    constructor (data: seq<byte>)
      ensures rest == data
    {
      rest := data;
    }
  }

  /** A growing byte buffer (`bytes::BytesMut`). */
  class Buffer {
    var data: seq<byte>

    constructor ()
      ensures data == []
    {
      data := [];
    }
  }

  // ---------------------------------------------------------------------
  // Big-endian fixed width
  // ---------------------------------------------------------------------

  function Pow256(k: nat): (p: int)
    ensures p > 0
  {
    if k == 0 then 1 else 256 * Pow256(k - 1)
  }

  /** The low `k` bytes of `n` in two's complement, most significant first. */
  function PutBe(k: nat, n: int): (bs: seq<byte>)
    ensures |bs| == k
  {
    if k == 0 then [] else PutBe(k - 1, n / 256) + [n % 256]
  }

  /** The unsigned value of big-endian bytes. */
  function Unsigned(bs: seq<byte>): (n: nat)
  {
    if bs == [] then 0 else Unsigned(bs[..|bs| - 1]) * 256 + bs[|bs| - 1]
  }

  /** The two's-complement value of big-endian bytes. */
  function Signed(bs: seq<byte>): (n: int)
  {
    var u := Unsigned(bs);
    if 2 * u < Pow256(|bs|) then u else u - Pow256(|bs|)
  }

  lemma MultipleApart(d: int, m: int)
    requires m > 0
    ensures d >= 1 ==> d * m >= m
    ensures d <= -1 ==> d * m <= -m
  {
    if d >= 1 {
      assert (d - 1) * m >= 0;
    } else if d <= -1 {
      assert (-d - 1) * m >= 0;
    }
  }

  lemma UniqueRemainder(n: int, m: int, q: int, r: int)
    requires m > 0 && n == q * m + r && 0 <= r < m
    ensures n % m == r && n / m == q
  {
    var d := q - n / m;
    assert d * m == q * m - n / m * m;
    MultipleApart(d, m);
  }

  lemma SplitRemainder(n: int, p: nat)
    requires p > 0
    ensures n % (256 * p) == (n / 256) % p * 256 + n % 256
  {
    var h := n / 256;
    var q, r := h / p, h % p;
    assert h == q * p + r;
    calc {
      n;
      256 * h + n % 256;
      256 * (q * p + r) + n % 256;
      q * (256 * p) + (r * 256 + n % 256);
    }
    assert r * 256 + n % 256 < 256 * p by { assert r + 1 <= p; }
    UniqueRemainder(n, 256 * p, q, r * 256 + n % 256);
  }

  lemma DivideTwice(n: int, p: nat)
    requires p > 0
    ensures n / 256 / p == n / (256 * p)
  {
    var h := n / 256;
    var q, r := h / p, h % p;
    assert h == q * p + r;
    assert n == q * (256 * p) + (r * 256 + n % 256) by {
      assert 256 * (q * p + r) == q * (256 * p) + r * 256;
    }
    assert r * 256 + n % 256 < 256 * p by { assert r + 1 <= p; }
    UniqueRemainder(n, 256 * p, q, r * 256 + n % 256);
  }

  /** Most significant byte first: each byte is the digit of its place. */
  lemma {:induction false} PutBeAt(k: nat, n: int, i: nat)
    requires i < k
    ensures PutBe(k, n)[i] == n / Pow256(k - 1 - i) % 256
  {
    if i < k - 1 {
      PutBeAt(k - 1, n / 256, i);
      DivideTwice(n, Pow256(k - 2 - i));
    }
  }

  lemma {:induction false} UnsignedOfPut(k: nat, n: int)
    ensures Unsigned(PutBe(k, n)) == n % Pow256(k)
  {
    if k > 0 {
      UnsignedOfPut(k - 1, n / 256);
      SplitRemainder(n, Pow256(k - 1));
      assert PutBe(k, n)[..k - 1] == PutBe(k - 1, n / 256);
    }
  }

  lemma {:induction false} UnsignedBound(bs: seq<byte>)
    ensures Unsigned(bs) < Pow256(|bs|)
  {
    if bs != [] {
      UnsignedBound(bs[..|bs| - 1]);
    }
  }

  lemma {:induction false} PutOfUnsigned(bs: seq<byte>)
    ensures PutBe(|bs|, Unsigned(bs)) == bs
  {
    if bs != [] {
      PutOfUnsigned(bs[..|bs| - 1]);
      assert bs == bs[..|bs| - 1] + [bs[|bs| - 1]];
    }
  }

  /** Writing a signed integer and reading it back gives the integer. */
  lemma SignedOfPut(k: nat, n: int)
    requires -Pow256(k) <= 2 * n < Pow256(k)
    ensures Signed(PutBe(k, n)) == n
  {
    UnsignedOfPut(k, n);
    UniqueRemainder(n, Pow256(k), if n >= 0 then 0 else -1, if n >= 0 then n else n + Pow256(k));
  }

  lemma Widths()
    ensures Pow256(1) == 0x100
    ensures Pow256(2) == 0x1_0000
    ensures Pow256(4) == 0x1_0000_0000
    ensures Pow256(8) == 0x1_0000_0000_0000_0000
  {
    assert Pow256(2) == 256 * Pow256(1);
    assert Pow256(3) == 256 * Pow256(2);
    assert Pow256(4) == 256 * Pow256(3);
    assert Pow256(5) == 256 * Pow256(4);
    assert Pow256(6) == 256 * Pow256(5);
    assert Pow256(7) == 256 * Pow256(6);
    assert Pow256(8) == 256 * Pow256(7);
  }

  /** A fixed-width big-endian read that fails, consuming nothing, when too few bytes are left. */
  function GetSigned(k: nat, bs: seq<byte>): (r: Decoded<int>)
  {
    if |bs| < k then Err(UnexpectedEof) else Ok((Signed(bs[..k]), bs[k..]))
  }

  function GetUnsigned(k: nat, bs: seq<byte>): (r: Decoded<nat>)
  {
    if |bs| < k then Err(UnexpectedEof) else Ok((Unsigned(bs[..k]), bs[k..]))
  }

  /** Reading back a written signed integer leaves exactly the bytes after it. */
  lemma GetSignedOfPut(k: nat, n: int, suffix: seq<byte>)
    requires -Pow256(k) <= 2 * n < Pow256(k)
    ensures GetSigned(k, PutBe(k, n) + suffix) == Ok((n, suffix))
  {
    SignedOfPut(k, n);
    assert (PutBe(k, n) + suffix)[..k] == PutBe(k, n);
    assert (PutBe(k, n) + suffix)[k..] == suffix;
  }

  lemma GetUnsignedOfPut(k: nat, n: nat, suffix: seq<byte>)
    requires n < Pow256(k)
    ensures GetUnsigned(k, PutBe(k, n) + suffix) == Ok((n, suffix))
  {
    UnsignedOfPut(k, n);
    UniqueRemainder(n, Pow256(k), 0, n);
    assert (PutBe(k, n) + suffix)[..k] == PutBe(k, n);
    assert (PutBe(k, n) + suffix)[k..] == suffix;
  }

  /** A signed read is always in range. */
  lemma SignedRange(bs: seq<byte>)
    ensures -Pow256(|bs|) <= 2 * Signed(bs) < Pow256(|bs|)
  {
    UnsignedBound(bs);
  }

  // ---------------------------------------------------------------------
  // Cursor methods against decoder functions
  // ---------------------------------------------------------------------

  /** A method that read from a cursor did what the decoder function says. */
  ghost predicate Did<T, R, E>(spec: Result<(T, R), E>, r: Result<T, E>, rest: R) {
    match spec
    case Ok((v, tail)) => r == Ok(v) && rest == tail
    case Err(e) => r == Err(e)
  }

  /** The result of a loop that has read `xs` already. */
  ghost function Prepend<T, R, E>(xs: seq<T>, d: Result<(seq<T>, R), E>): Result<(seq<T>, R), E> {
    match d
    case Ok((ys, rest)) => Ok((xs + ys, rest))
    case Err(e) => Err(e)
  }

  lemma PrependTwice<T, R, E>(xs: seq<T>, x: T, d: Result<(seq<T>, R), E>)
    ensures Prepend(xs, Prepend([x], d)) == Prepend(xs + [x], d)
  {
    if d.Ok? {
      assert xs + ([x] + d.value.0) == xs + [x] + d.value.0;
    }
  }

  lemma PrependNothing<T, R, E>(d: Result<(seq<T>, R), E>)
    ensures Prepend([], d) == d
  {
    if d.Ok? {
      assert [] + d.value.0 == d.value.0;
    }
  }
}
