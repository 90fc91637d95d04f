/** UTF-8 (section 3 of RFC 3629): how a Rust `String` becomes bytes and `from_utf8` reads them. */
module Utf8 {
  import opened Bytes

  function EncodeChar(c: char): (bs: seq<byte>)
    ensures 1 <= |bs| <= 4
  {
    var n := c as int;
    if n < 0x80 then [n]
    else if n < 0x800 then [0xC0 + n / 64, 0x80 + n % 64]
    else if n < 0x1_0000 then [0xE0 + n / 64 / 64, 0x80 + n / 64 % 64, 0x80 + n % 64]
    else [0xF0 + n / 64 / 64 / 64, 0x80 + n / 64 / 64 % 64, 0x80 + n / 64 % 64, 0x80 + n % 64]
  }

  function Encode(s: string): (bs: seq<byte>)
    ensures |s| <= |bs|
  {
    if s == [] then [] else EncodeChar(s[0]) + Encode(s[1..])
  }

  predicate Continuation(b: byte) {
    0x80 <= b < 0xC0
  }

  predicate Scalar(n: int) {
    0 <= n < 0xD800 || 0xE000 <= n < 0x11_0000
  }

  /** Append the six bits of a continuation byte. */
  function Six(n: int, b: int): int {
    n * 64 + (b - 0x80)
  }

  /** The first character and its length; no overlong forms, surrogates or values above 10FFFF. */
  function DecodeChar(bs: seq<byte>): (r: Option<(char, nat)>)
    ensures r.Some? ==> 1 <= r.value.1 <= |bs|
  {
    if bs == [] then None
    else
      var lead: int := bs[0];
      if lead < 0x80 then Some((lead as char, 1))
      else if |bs| >= 2 && 0xC2 <= lead < 0xE0 && Continuation(bs[1]) then
        Some((Six(lead - 0xC0, bs[1]) as char, 2))
      else if |bs| >= 3 && 0xE0 <= lead < 0xF0 && Continuation(bs[1]) && Continuation(bs[2]) then
        var n := Six(Six(lead - 0xE0, bs[1]), bs[2]);
        if n >= 0x800 && Scalar(n) then Some((n as char, 3)) else None
      else if |bs| >= 4 && 0xF0 <= lead && Continuation(bs[1]) && Continuation(bs[2]) && Continuation(bs[3]) then
        var n := Six(Six(Six(lead - 0xF0, bs[1]), bs[2]), bs[3]);
        if n >= 0x1_0000 && Scalar(n) then Some((n as char, 4)) else None
      else None
  }

  function Decode(bs: seq<byte>): (r: Option<string>)
  {
    if bs == [] then Some([])
    else
      match DecodeChar(bs)
      case None => None
      case Some((c, k)) =>
        match Decode(bs[k..])
        case None => None
        case Some(s) => Some([c] + s)
  }

  lemma SixDigits(n: nat)
    ensures Six(n / 64, 0x80 + n % 64) == n && n % 64 < 64
  {
  }

  lemma SixInverse(n: nat, b: byte)
    requires Continuation(b)
    ensures Six(n, b) / 64 == n && 0x80 + Six(n, b) % 64 == b
  {
  }

  lemma CharRoundTrip(c: char, suffix: seq<byte>)
    ensures DecodeChar(EncodeChar(c) + suffix) == Some((c, |EncodeChar(c)|))
  {
    var n := c as int;
    SixDigits(n);
    SixDigits(n / 64);
    SixDigits(n / 64 / 64);
    hide Six;
  }

  lemma {:induction false} RoundTrip(s: string)
    ensures Decode(Encode(s)) == Some(s)
  {
    if s != [] {
      hide EncodeChar, DecodeChar;
      var head, tail := EncodeChar(s[0]), Encode(s[1..]);
      CharRoundTrip(s[0], tail);
      RoundTrip(s[1..]);
      assert (head + tail)[|head|..] == tail;
      assert s == [s[0]] + s[1..];
    }
  }

  /** Valid UTF-8 is the encoding of exactly one string. */
  lemma CharCanonical(bs: seq<byte>)
    requires DecodeChar(bs).Some?
    ensures var (c, k) := DecodeChar(bs).value; EncodeChar(c) == bs[..k]
  {
    var (c, k) := DecodeChar(bs).value;
    if k == 2 {
      SixInverse(bs[0] - 0xC0, bs[1]);
    } else if k == 3 {
      SixInverse(bs[0] - 0xE0, bs[1]);
      SixInverse(Six(bs[0] - 0xE0, bs[1]), bs[2]);
    } else if k == 4 {
      SixInverse(bs[0] - 0xF0, bs[1]);
      SixInverse(Six(bs[0] - 0xF0, bs[1]), bs[2]);
      SixInverse(Six(Six(bs[0] - 0xF0, bs[1]), bs[2]), bs[3]);
    }
  }

  lemma {:induction false} Canonical(bs: seq<byte>)
    requires Decode(bs).Some?
    ensures Encode(Decode(bs).value) == bs
    decreases |bs|
  {
    if bs != [] {
      hide EncodeChar, DecodeChar;
      CharCanonical(bs);
      var (c, k) := DecodeChar(bs).value;
      Canonical(bs[k..]);
      assert bs == bs[..k] + bs[k..];
      var cs := Decode(bs[k..]).value;
      assert Decode(bs).value == [c] + cs;
      assert ([c] + cs)[1..] == cs;
    }
  }

  /** The table of RFC 3629: how many bytes a character takes, and which of its bits stand where. */
  lemma CharLayout(c: char)
    ensures var (n, bs) := (c as int, EncodeChar(c));
      && |bs| == (if n < 0x80 then 1 else if n < 0x800 then 2 else if n < 0x1_0000 then 3 else 4)
      && (|bs| == 1 ==> n == bs[0])
      && (|bs| == 2 ==> 0xC2 <= bs[0] <= 0xDF && n == (bs[0] - 0xC0) as int * 64 + (bs[1] - 0x80) as int)
      && (|bs| == 3 ==> 0xE0 <= bs[0] <= 0xEF && n == (bs[0] - 0xE0) as int * 4096 + (bs[1] - 0x80) as int * 64 + (bs[2] - 0x80) as int)
      && (|bs| == 4 ==> 0xF0 <= bs[0] <= 0xF4)
      && (|bs| == 4 ==>
           n == (bs[0] - 0xF0) as int * 262144 + (bs[1] - 0x80) as int * 4096 + (bs[2] - 0x80) as int * 64 + (bs[3] - 0x80) as int)
      && forall i :: 1 <= i < |bs| ==> 0x80 <= bs[i] <= 0xBF
  {
    var n := c as int;
    SixDigits(n);
    SixDigits(n / 64);
    SixDigits(n / 64 / 64);
  }
}
