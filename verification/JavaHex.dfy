/** The signed hexadecimal digest the session server expects. */
module JavaHex {
  import opened Bytes

  // ---------------------------------------------------------------------
  // Hexadecimal text
  // ---------------------------------------------------------------------

  function HexChar(d: nat): char
    requires d < 16
  {
    if d < 10 then ('0' as int + d) as char else ('a' as int + d - 10) as char
  }

  predicate IsHex(c: char) {
    '0' <= c <= '9' || 'a' <= c <= 'f'
  }

  function HexDigit(c: char): (d: nat)
    requires IsHex(c)
    ensures d < 16
  {
    if c <= '9' then c as int - '0' as int else c as int - 'a' as int + 10
  }

  /** The digits, in lower case. */
  lemma HexLetters(d: nat)
    requires d < 16
    ensures HexChar(d) == "0123456789abcdef"[d] && HexDigit(HexChar(d)) == d
  {
  }

  /** `hex::encode`. */
  function Hex(bs: seq<byte>): (s: string)
    ensures |s| == 2 * |bs| && forall c <- s :: IsHex(c)
  {
    if bs == [] then ""
    else Hex(bs[..|bs| - 1]) + [HexChar(bs[|bs| - 1] / 16), HexChar(bs[|bs| - 1] % 16)]
  }

  function HexValue(s: string): nat
    requires forall c <- s :: IsHex(c)
  {
    if s == "" then 0
    else
      var last := s[|s| - 1];
      assert last in s;
      HexValue(s[..|s| - 1]) * 16 + HexDigit(last)
  }

  /** `trim_start_matches('0')`. */
  function TrimZeros(s: string): (t: string)
    ensures t == "" || t[0] != '0'
    ensures (forall c <- s :: IsHex(c)) ==> forall c <- t :: IsHex(c)
  {
    if s != "" && s[0] == '0' then TrimZeros(s[1..]) else s
  }

  lemma {:induction false} HexIsUnsigned(bs: seq<byte>)
    ensures HexValue(Hex(bs)) == Unsigned(bs)
  {
    if bs != [] {
      hide HexValue, HexChar;
      var init, b := bs[..|bs| - 1], bs[|bs| - 1];
      var hi, lo := b / 16, b % 16;
      assert b == hi * 16 + lo;
      HexIsUnsigned(init);
      HexTwice(Hex(init), hi, lo);
      assert Hex(bs) == Hex(init) + [HexChar(hi)] + [HexChar(lo)];
    }
  }

  lemma HexTwice(s: string, hi: nat, lo: nat)
    requires hi < 16 && lo < 16 && forall c <- s :: IsHex(c)
    ensures HexValue(s + [HexChar(hi)] + [HexChar(lo)]) == HexValue(s) * 256 + hi * 16 + lo
  {
    var one := s + [HexChar(hi)];
    assert one[..|s|] == s;
    assert (one + [HexChar(lo)])[..|one|] == one;
  }

  lemma {:induction false} ZeroInFront(s: string)
    requires s != "" && s[0] == '0' && forall c <- s :: IsHex(c)
    ensures HexValue(s) == HexValue(s[1..])
    decreases |s|
  {
    if |s| > 1 {
      ZeroInFront(s[..|s| - 1]);
      assert s[..|s| - 1][1..] == s[1..][..|s| - 2];
    } else {
      assert s[..0] == "" && s[1..] == "";
    }
  }

  lemma {:induction false} TrimKeepsValue(s: string)
    requires forall c <- s :: IsHex(c)
    ensures HexValue(TrimZeros(s)) == HexValue(s)
  {
    if s != "" && s[0] == '0' {
      ZeroInFront(s);
      TrimKeepsValue(s[1..]);
    }
  }

  // ---------------------------------------------------------------------
  // Negation in two's complement
  // ---------------------------------------------------------------------

  function Complement(bs: seq<byte>): (r: seq<byte>)
    ensures |r| == |bs|
  {
    seq(|bs|, i requires 0 <= i < |bs| => 255 - bs[i])
  }

  /** Add one, the carry running from the last byte up as far as it has to. */
  function Increment(bs: seq<byte>): (r: seq<byte>)
    ensures |r| == |bs|
  {
    if bs == [] then []
    else if bs[|bs| - 1] == 255 then Increment(bs[..|bs| - 1]) + [0]
    else bs[..|bs| - 1] + [bs[|bs| - 1] + 1]
  }

  lemma {:induction false} ComplementValue(bs: seq<byte>)
    ensures Unsigned(Complement(bs)) == Pow256(|bs|) - 1 - Unsigned(bs)
  {
    if bs != [] {
      ComplementValue(bs[..|bs| - 1]);
      assert Complement(bs)[..|bs| - 1] == Complement(bs[..|bs| - 1]);
    }
  }

  lemma {:induction false} IncrementValue(bs: seq<byte>)
    requires Unsigned(bs) + 1 < Pow256(|bs|)
    ensures Unsigned(Increment(bs)) == Unsigned(bs) + 1
  {
    if bs != [] {
      var init := bs[..|bs| - 1];
      assert Increment(bs)[..|bs| - 1] == if bs[|bs| - 1] == 255 then Increment(init) else init;
      if bs[|bs| - 1] == 255 {
        IncrementValue(init);
      }
    }
  }

  lemma {:induction false} TopBit(bs: seq<byte>)
    requires bs != []
    ensures bs[0] >= 128 <==> 2 * Unsigned(bs) >= Pow256(|bs|)
  {
    if |bs| > 1 {
      TopBit(bs[..|bs| - 1]);
    } else {
      assert Pow256(1) == 256;
      assert bs[..0] == [];
    }
  }

  /** Complementing and adding one negates: a negative number becomes its magnitude. */
  lemma NegateValue(bs: seq<byte>)
    requires bs != [] && bs[0] >= 128
    ensures Unsigned(Increment(Complement(bs))) == -Signed(bs) > 0
  {
    TopBit(bs);
    UnsignedBound(bs);
    ComplementValue(bs);
    IncrementValue(Complement(bs));
  }

  // ---------------------------------------------------------------------
  // The digest
  // ---------------------------------------------------------------------

  function Digest(bs: seq<byte>): (s: string)
    requires bs != []
  {
    if bs[0] >= 128 then ['-'] + TrimZeros(Hex(Increment(Complement(bs))))
    else
      var t := TrimZeros(Hex(bs));
      if t == "" then "0" else t
  }

  /** Reading signed hexadecimal text. */
  function ParseHex(s: string): (r: Option<int>) {
    var negative := s != "" && s[0] == '-';
    var digits := if negative then s[1..] else s;
    if digits == "" || exists c <- digits :: !IsHex(c) then None
    else Some(if negative then -(HexValue(digits) as int) else HexValue(digits))
  }

  /** The digest reads back as the hash's signed big-endian value. */
  lemma DigestIsSigned(bs: seq<byte>)
    requires bs != []
    ensures ParseHex(Digest(bs)) == Some(Signed(bs))
  {
    hide Hex, TrimZeros, Increment, Complement, Unsigned;
    TopBit(bs);
    if bs[0] >= 128 {
      NegateValue(bs);
      var n := Increment(Complement(bs));
      HexIsUnsigned(n);
      TrimKeepsValue(Hex(n));
      assert Digest(bs)[1..] == TrimZeros(Hex(n));
      EmptyIsZero();
    } else {
      HexIsUnsigned(bs);
      TrimKeepsValue(Hex(bs));
      EmptyIsZero();
      var t := TrimZeros(Hex(bs));
      if t == "" {
        ZeroText();
      } else {
        assert t[0] in t;
      }
    }
  }

  lemma EmptyIsZero()
    ensures HexValue("") == 0
  {
  }

  lemma ZeroText()
    ensures ParseHex("0") == Some(0)
  {
    var s := "0";
    assert s[..0] == "";
  }

  /** Nothing but the number zero is written with a leading zero. */
  lemma NoLeadingZeros(bs: seq<byte>)
    requires bs != []
    ensures var s := Digest(bs);
      s == "0" || (if s[0] == '-' then |s| > 1 && s[1] != '0' else s[0] != '0')
  {
    hide Hex, Increment, Complement;
    var s := Digest(bs);
    if bs[0] >= 128 {
      DigestIsSigned(bs);
      var t := TrimZeros(Hex(Increment(Complement(bs))));
      assert s[0] == '-' && s[1..] == t && t != "";
    } else {
      assert s[0] in s;
    }
  }

  /** Different hashes of one length have different digests. */
  lemma DigestInjective(a: seq<byte>, b: seq<byte>)
    requires a != [] && |a| == |b| && Digest(a) == Digest(b)
    ensures a == b
  {
    hide Digest, ParseHex;
    DigestIsSigned(a);
    DigestIsSigned(b);
    UnsignedBound(a);
    UnsignedBound(b);
    assert Unsigned(a) == Unsigned(b);
    PutOfUnsigned(a);
    PutOfUnsigned(b);
  }

  /** `java_hex`: negation in place in a copy, with the early exit from the carry loop. */
  method Encode(bytes: array<byte>) returns (s: string)
    requires bytes.Length == 20
    ensures s == Digest(bytes[..])
  {
    hide Hex, TrimZeros;
    if bytes[0] >= 128 {
      var b := new byte[20](i requires 0 <= i < 20 reads bytes => bytes[i]);
      ghost var original := bytes[..];
      assert b[..] == original;
      Negate(b);
      s := ['-'] + TrimZeros(Hex(b[..]));
    } else {
      var t := TrimZeros(Hex(bytes[..]));
      s := if t == "" then "0" else t;
    }
  }

  method Negate(b: array<byte>)
    modifies b
    ensures b[..] == Increment(Complement(old(b[..])))
  {
    for i := 0 to b.Length
      invariant forall j :: 0 <= j < i ==> b[j] == 255 - old(b[j])
      invariant forall j :: i <= j < b.Length ==> b[j] == old(b[j])
    {
      b[i] := 255 - b[i];
    }
    assert b[..] == Complement(old(b[..]));
    AddOne(b);
  }

  /** The carry loop: from the last byte up, until a byte does not overflow. */
  method AddOne(b: array<byte>)
    modifies b
    ensures b[..] == Increment(old(b[..]))
  {
    ghost var c := b[..];
    var i := b.Length;
    assert c[..i] == c;
    while i > 0
      invariant 0 <= i <= b.Length
      invariant b[..i] == c[..i]
      invariant Increment(c) == Increment(c[..i]) + b[i..]
    {
      i := i - 1;
      ghost var tail := b[i + 1..];
      assert c[..i + 1][..i] == c[..i];
      if b[i] != 255 {
        b[i] := b[i] + 1;
        assert b[..] == c[..i] + [c[i] + 1] + tail;
        return;
      }
      b[i] := 0;
      assert b[i..] == [0] + tail;
      assert Increment(c[..i]) + [0] + tail == Increment(c[..i]) + ([0] + tail);
    }
    assert b[0..] == b[..];
  }
}
