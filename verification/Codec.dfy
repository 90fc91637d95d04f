/** The field codecs built on the variable-length length prefix. */
module Codec {
  import opened Bytes
  import VarNum
  import Utf8

  const MAX_STRING_BYTES := 32767 * 3
  const MAX_PACKET_SIZE := 0x200_0000
  const MAX_VEC_LEN := 65536

  /** An encoder and a decoder for the values of a type. */
  datatype Codec<!T> = Codec(enc: T -> Result<seq<byte>, Error>, dec: seq<byte> -> Decoded<T>)

  /** `x` can be written, and read back from in front of anything. */
  ghost predicate RoundTrips<T>(c: Codec<T>, x: T) {
    && c.enc(x).Ok?
    && forall suffix :: c.dec(c.enc(x).value + suffix) == Ok((x, suffix))
  }

  function EncodeLength(n: nat): seq<byte> {
    VarNum.Encode(VarNum.Int32, n)
  }

  /** `len as i32` read back: the length itself, as long as it fits. */
  lemma LengthRoundTrip(n: nat, suffix: seq<byte>)
    requires n < 0x8000_0000
    ensures VarNum.Decode(VarNum.Int32, EncodeLength(n) + suffix) == Ok((n, suffix))
  {
    VarNum.RoundTrip(VarNum.Int32, n, suffix);
  }

  // ---------------------------------------------------------------------
  // Booleans, strings, byte arrays
  // ---------------------------------------------------------------------

  function EncodeBool(b: bool): seq<byte> {
    [if b then 1 else 0]
  }

  function DecodeBool(bs: seq<byte>): (r: Decoded<bool>) {
    if bs == [] then Err(UnexpectedEof) else Ok((bs[0] != 0, bs[1..]))
  }

  function EncodeString(text: string): (r: Result<seq<byte>, Error>) {
    var bs := Utf8.Encode(text);
    if |bs| > MAX_STRING_BYTES then Err(StringTooLong(|bs|, MAX_STRING_BYTES)) else Ok(EncodeLength(|bs|) + bs)
  }

  /** A negative length becomes, `as usize`, a length that is too long. */
  function DecodeString(bs: seq<byte>): (r: Decoded<string>)
    ensures r.Ok? ==> |r.value.1| < |bs|
  {
    var (raw, rest) :- VarNum.Decode(VarNum.Int32, bs);
    var len := if raw < 0 then raw + 0x1_0000_0000_0000_0000 else raw;
    if len > MAX_STRING_BYTES then Err(StringTooLong(len, MAX_STRING_BYTES))
    else if |rest| < len then Err(UnexpectedEof)
    else
      var text := Utf8.Decode(rest[..len]);
      if text.None? then Err(InvalidUtf8) else Ok((text.value, rest[len..]))
  }

  function StringCodec(): Codec<string> {
    Codec(EncodeString, DecodeString)
  }

  lemma StringRoundTrips(text: string)
    ensures EncodeString(text).Ok? ==> RoundTrips(StringCodec(), text)
  {
    hide Utf8.Encode, Utf8.Decode, VarNum.Decode, EncodeLength;
    if EncodeString(text).Ok? {
      forall suffix ensures DecodeString(EncodeString(text).value + suffix) == Ok((text, suffix)) {
        var bs := Utf8.Encode(text);
        LengthRoundTrip(|bs|, bs + suffix);
        Utf8.RoundTrip(text);
        assert EncodeLength(|bs|) + bs + suffix == EncodeLength(|bs|) + (bs + suffix);
        assert (bs + suffix)[..|bs|] == bs && (bs + suffix)[|bs|..] == suffix;
      }
    }
  }

  function EncodeBytes(data: seq<byte>): (r: Result<seq<byte>, Error>) {
    Ok(EncodeLength(|data|) + data)
  }

  function DecodeBytes(bs: seq<byte>): (r: Decoded<seq<byte>>)
    ensures r.Ok? ==> |r.value.0| <= MAX_PACKET_SIZE
  {
    var (raw, rest) :- VarNum.Decode(VarNum.Int32, bs);
    if raw < 0 then Err(PacketTooLarge(raw + 0x1_0000_0000_0000_0000, MAX_PACKET_SIZE))
    else if raw > MAX_PACKET_SIZE then Err(PacketTooLarge(raw, MAX_PACKET_SIZE))
    else if |rest| < raw then Err(UnexpectedEof)
    else Ok((rest[..raw], rest[raw..]))
  }

  function BytesCodec(): Codec<seq<byte>> {
    Codec(EncodeBytes, DecodeBytes)
  }

  /** The writer takes any array; the reader takes it back exactly up to its cap. */
  lemma BytesRoundTrips(data: seq<byte>)
    ensures RoundTrips(BytesCodec(), data) <==> |data| <= MAX_PACKET_SIZE
  {
    hide VarNum.Decode, EncodeLength;
    if |data| <= MAX_PACKET_SIZE {
      forall suffix ensures DecodeBytes(EncodeBytes(data).value + suffix) == Ok((data, suffix)) {
        LengthRoundTrip(|data|, data + suffix);
        assert EncodeLength(|data|) + data + suffix == EncodeLength(|data|) + (data + suffix);
        assert (data + suffix)[..|data|] == data && (data + suffix)[|data|..] == suffix;
      }
    } else {
      var c := BytesCodec();
      assert c.enc(data) == EncodeBytes(data);
      assert c.dec(c.enc(data).value + []) != Ok((data, []));
    }
  }

  // ---------------------------------------------------------------------
  // Vectors and options of any codec
  // ---------------------------------------------------------------------

  function EncodeItems<T>(c: Codec<T>, xs: seq<T>): (r: Result<seq<byte>, Error>) {
    if xs == [] then Ok([])
    else
      var first :- c.enc(xs[0]);
      var rest :- EncodeItems(c, xs[1..]);
      Ok(first + rest)
  }

  function DecodeItems<T>(c: Codec<T>, n: nat, bs: seq<byte>): (r: Decoded<seq<T>>)
    ensures r.Ok? ==> |r.value.0| == n
  {
    if n == 0 then Ok(([], bs))
    else
      var (x, rest) :- c.dec(bs);
      var (xs, rest') :- DecodeItems(c, n - 1, rest);
      Ok(([x] + xs, rest'))
  }

  function EncodeVec<T>(c: Codec<T>, xs: seq<T>): (r: Result<seq<byte>, Error>) {
    var items :- EncodeItems(c, xs);
    Ok(EncodeLength(|xs|) + items)
  }

  function DecodeVec<T>(c: Codec<T>, bs: seq<byte>): (r: Decoded<seq<T>>)
    ensures r.Ok? ==> |r.value.0| <= MAX_VEC_LEN
  {
    var (raw, rest) :- VarNum.Decode(VarNum.Int32, bs);
    if raw < 0 then Err(PacketTooLarge(raw + 0x1_0000_0000_0000_0000, MAX_VEC_LEN))
    else if raw > MAX_VEC_LEN then Err(PacketTooLarge(raw, MAX_VEC_LEN))
    else DecodeItems(c, raw, rest)
  }

  function VecCodec<T>(c: Codec<T>): Codec<seq<T>> {
    Codec(xs => EncodeVec(c, xs), bs => DecodeVec(c, bs))
  }

  lemma {:induction false} ItemsRoundTrip<T>(c: Codec<T>, xs: seq<T>, suffix: seq<byte>)
    requires forall i :: 0 <= i < |xs| ==> RoundTrips(c, xs[i])
    ensures EncodeItems(c, xs).Ok?
    ensures DecodeItems(c, |xs|, EncodeItems(c, xs).value + suffix) == Ok((xs, suffix))
    decreases |xs|
  {
    if xs == [] {
      assert EncodeItems(c, xs).value + suffix == suffix;
    } else {
      ItemsRoundTrip(c, xs[1..], suffix);
      var first, rest := c.enc(xs[0]).value, EncodeItems(c, xs[1..]).value;
      assert RoundTrips(c, xs[0]);
      assert first + rest + suffix == first + (rest + suffix);
      assert c.dec(first + (rest + suffix)) == Ok((xs[0], rest + suffix));
      assert xs == [xs[0]] + xs[1..];
    }
  }

  /** A vector of values that round trip does so exactly up to the reader's cap. */
  lemma VecRoundTrips<T>(c: Codec<T>, xs: seq<T>)
    requires forall i :: 0 <= i < |xs| ==> RoundTrips(c, xs[i])
    ensures RoundTrips(VecCodec(c), xs) <==> |xs| <= MAX_VEC_LEN
  {
    hide VarNum.Decode, EncodeLength, RoundTrips, EncodeItems, DecodeItems;
    var v := VecCodec(c);
    ItemsRoundTrip(c, xs, []);
    if |xs| <= MAX_VEC_LEN {
      forall suffix ensures v.dec(v.enc(xs).value + suffix) == Ok((xs, suffix)) {
        ItemsRoundTrip(c, xs, suffix);
        var items := EncodeItems(c, xs).value;
        LengthRoundTrip(|xs|, items + suffix);
        assert EncodeLength(|xs|) + items + suffix == EncodeLength(|xs|) + (items + suffix);
      }
      RoundTripsIntro(v, xs);
    } else if RoundTrips(v, xs) {
      RoundTripsElim(v, xs, []);
      assert false;
    }
  }

  lemma RoundTripsIntro<T>(c: Codec<T>, x: T)
    requires c.enc(x).Ok? && forall suffix :: c.dec(c.enc(x).value + suffix) == Ok((x, suffix))
    ensures RoundTrips(c, x)
  {
  }

  lemma RoundTripsElim<T>(c: Codec<T>, x: T, suffix: seq<byte>)
    requires RoundTrips(c, x)
    ensures c.enc(x).Ok? && c.dec(c.enc(x).value + suffix) == Ok((x, suffix))
  {
  }

  function EncodeOption<T>(c: Codec<T>, o: Option<T>): (r: Result<seq<byte>, Error>) {
    match o
    case None => Ok(EncodeBool(false))
    case Some(x) => var bs :- c.enc(x); Ok(EncodeBool(true) + bs)
  }

  function DecodeOption<T>(c: Codec<T>, bs: seq<byte>): (r: Decoded<Option<T>>) {
    var (present, rest) :- DecodeBool(bs);
    if present then var (x, rest') :- c.dec(rest); Ok((Some(x), rest')) else Ok((None, rest))
  }

  function OptionCodec<T>(c: Codec<T>): Codec<Option<T>> {
    Codec(o => EncodeOption(c, o), bs => DecodeOption(c, bs))
  }

  /** An option round trips exactly when its content does. */
  lemma OptionRoundTrips<T>(c: Codec<T>, o: Option<T>)
    ensures RoundTrips(OptionCodec(c), o) <==> (o.Some? ==> RoundTrips(c, o.value))
  {
    var oc := OptionCodec(c);
    match o
    case None =>
      forall suffix ensures oc.dec(oc.enc(o).value + suffix) == Ok((o, suffix)) {
        assert ([0] + suffix)[1..] == suffix;
      }
    case Some(x) =>
      if c.enc(x).Ok? {
        var bs := c.enc(x).value;
        assert oc.enc(o) == EncodeOption(c, o) == Ok(EncodeBool(true) + bs);
        forall suffix
          ensures oc.dec(EncodeBool(true) + bs + suffix) == Ok((o, suffix)) <==> c.dec(bs + suffix) == Ok((x, suffix))
        {
          SomeSuffix(c, x, bs, suffix);
          assert oc.dec(EncodeBool(true) + bs + suffix) == DecodeOption(c, EncodeBool(true) + bs + suffix);
        }
        if RoundTrips(oc, o) {
          forall suffix ensures c.dec(bs + suffix) == Ok((x, suffix)) {
            assert oc.dec(oc.enc(o).value + suffix) == Ok((o, suffix));
          }
        }
      }
  }

  lemma SomeSuffix<T>(c: Codec<T>, x: T, bs: seq<byte>, suffix: seq<byte>)
    ensures DecodeOption(c, EncodeBool(true) + bs + suffix) == Ok((Some(x), suffix)) <==> c.dec(bs + suffix) == Ok((x, suffix))
  {
    assert (EncodeBool(true) + bs + suffix)[1..] == bs + suffix;
    match c.dec(bs + suffix)
    case Ok((y, rest)) =>
      assert DecodeOption(c, EncodeBool(true) + bs + suffix) == Ok((Some(y), rest));
    case Err(_) =>
  }

  // ---------------------------------------------------------------------
  // What is on the wire
  // ---------------------------------------------------------------------

  /** `n as usize` of a negative length: the length the error carries. */
  function AsSize(n: int): int {
    if n < 0 then n + 0x1_0000_0000_0000_0000 else n
  }

  /** A string that is read is its length in bytes, spelled in any accepted way, and its bytes. */
  lemma StringExactly(bs: seq<byte>, text: string, rest: seq<byte>)
    ensures DecodeString(bs) == Ok((text, rest)) <==>
      && |Utf8.Encode(text)| <= 98301
      && exists h :: VarNum.Spells(VarNum.Int32, h, |Utf8.Encode(text)|) && bs == h + (Utf8.Encode(text) + rest)
  {
    hide VarNum.Decode, VarNum.Spells, Utf8.Encode, Utf8.Decode;
    var body := Utf8.Encode(text);
    VarNum.DecodeExactly(VarNum.Int32, bs, |body|, body + rest);
    if DecodeString(bs) == Ok((text, rest)) {
      VarNum.DecodedInRange(VarNum.Int32, bs);
      var (n, after) := VarNum.Decode(VarNum.Int32, bs).value;
      Utf8.Canonical(after[..n]);
      assert after == body + rest;
    }
    if |body| <= 98301 && VarNum.Decode(VarNum.Int32, bs) == Ok((|body|, body + rest)) {
      Utf8.RoundTrip(text);
      assert (body + rest)[..|body|] == body && (body + rest)[|body|..] == rest;
    }
  }

  /** How a string is refused: by its length first, then for want of bytes, then for bytes that are no text. */
  lemma StringRefused(h: seq<byte>, n: int, rest: seq<byte>)
    requires VarNum.Spells(VarNum.Int32, h, n)
    ensures n < 0 || n > 98301 ==> DecodeString(h + rest) == Err(StringTooLong(AsSize(n), 98301))
    ensures 0 <= n <= 98301 && |rest| < n ==> DecodeString(h + rest) == Err(UnexpectedEof)
    ensures 0 <= n <= 98301 && n <= |rest| ==>
      (DecodeString(h + rest) == Err(InvalidUtf8) <==> forall text :: Utf8.Encode(text) != rest[..n])
  {
    hide VarNum.Decode, VarNum.Spells, Utf8.Encode, Utf8.Decode;
    VarNum.SpellsDecodes(VarNum.Int32, h, n, rest);
    VarNum.DecodedInRange(VarNum.Int32, h + rest);
    if 0 <= n <= 98301 && n <= |rest| {
      var body := rest[..n];
      if Utf8.Decode(body).Some? {
        Utf8.Canonical(body);
      } else {
        forall text ensures Utf8.Encode(text) != body {
          Utf8.RoundTrip(text);
        }
      }
    }
  }

  /** What is written: the bytes of the text behind the shortest spelling of their number. */
  lemma StringWritten(text: string)
    ensures var (r, body) := (EncodeString(text), Utf8.Encode(text));
      if |body| > 98301 then r == Err(StringTooLong(|body|, 98301))
      else
        && r.Ok?
        && exists h :: VarNum.Spells(VarNum.Int32, h, |body|) && (|h| > 1 ==> h[|h| - 1] != 0) && r.value == h + body
  {
    hide VarNum.Encode, VarNum.Spells, Utf8.Encode;
    var body := Utf8.Encode(text);
    if |body| <= 98301 {
      VarNum.EncodeShape(VarNum.Int32, |body|);
      VarNum.EncodeSpells(VarNum.Int32, |body|);
      var h := VarNum.Encode(VarNum.Int32, |body|);
      assert VarNum.Spells(VarNum.Int32, h, |body|) && EncodeString(text).value == h + body;
    }
  }

  lemma BytesExactly(bs: seq<byte>, data: seq<byte>, rest: seq<byte>)
    ensures DecodeBytes(bs) == Ok((data, rest)) <==>
      && |data| <= 33554432
      && exists h :: VarNum.Spells(VarNum.Int32, h, |data|) && bs == h + (data + rest)
  {
    hide VarNum.Decode, VarNum.Spells;
    VarNum.DecodeExactly(VarNum.Int32, bs, |data|, data + rest);
    if DecodeBytes(bs) == Ok((data, rest)) {
      assert VarNum.Decode(VarNum.Int32, bs).value.1 == data + rest;
    }
    if |data| <= 33554432 && VarNum.Decode(VarNum.Int32, bs) == Ok((|data|, data + rest)) {
      assert (data + rest)[..|data|] == data && (data + rest)[|data|..] == rest;
    }
  }

  lemma BytesRefused(h: seq<byte>, n: int, rest: seq<byte>)
    requires VarNum.Spells(VarNum.Int32, h, n)
    ensures n < 0 || n > 33554432 ==> DecodeBytes(h + rest) == Err(PacketTooLarge(AsSize(n), 33554432))
    ensures 0 <= n <= 33554432 && |rest| < n ==> DecodeBytes(h + rest) == Err(UnexpectedEof)
  {
    hide VarNum.Decode, VarNum.Spells;
    VarNum.SpellsDecodes(VarNum.Int32, h, n, rest);
  }

  /** The values read one after the other from `bs`, down to `rest`. */
  ghost predicate InTurn<T>(c: Codec<T>, bs: seq<byte>, xs: seq<T>, rest: seq<byte>) {
    exists at: seq<seq<byte>> ::
      && |at| == |xs| + 1 && at[0] == bs && at[|xs|] == rest
      && forall i :: 0 <= i < |xs| ==> c.dec(at[i]) == Ok((xs[i], at[i + 1]))
  }

  lemma {:induction false} ItemsInTurn<T>(c: Codec<T>, n: nat, bs: seq<byte>) returns (at: seq<seq<byte>>)
    requires DecodeItems(c, n, bs).Ok?
    ensures var (xs, rest) := DecodeItems(c, n, bs).value;
      && |at| == n + 1 && at[0] == bs && at[n] == rest
      && forall i :: 0 <= i < n ==> c.dec(at[i]) == Ok((xs[i], at[i + 1]))
    decreases n
  {
    if n == 0 {
      at := [bs];
    } else {
      var later := ItemsInTurn(c, n - 1, c.dec(bs).value.1);
      at := [bs] + later;
    }
  }

  lemma {:induction false} InTurnItems<T>(c: Codec<T>, xs: seq<T>, at: seq<seq<byte>>)
    requires |at| == |xs| + 1 && forall i :: 0 <= i < |xs| ==> c.dec(at[i]) == Ok((xs[i], at[i + 1]))
    ensures DecodeItems(c, |xs|, at[0]) == Ok((xs, at[|xs|]))
    decreases |xs|
  {
    if xs != [] {
      assert c.dec(at[0]) == Ok((xs[0], at[1]));
      forall i | 0 <= i < |xs| - 1 ensures c.dec(at[1..][i]) == Ok((xs[1..][i], at[1..][i + 1])) {
        assert c.dec(at[i + 1]) == Ok((xs[i + 1], at[i + 2]));
      }
      InTurnItems(c, xs[1..], at[1..]);
      assert xs == [xs[0]] + xs[1..];
    }
  }

  /** A vector behind a length the reader takes is that many values, read in turn. */
  lemma VecExactly<T>(c: Codec<T>, h: seq<byte>, n: int, body: seq<byte>, xs: seq<T>, rest: seq<byte>)
    requires VarNum.Spells(VarNum.Int32, h, n)
    ensures n < 0 || n > 65536 ==> DecodeVec(c, h + body) == Err(PacketTooLarge(AsSize(n), 65536))
    ensures 0 <= n <= 65536 ==>
      (DecodeVec(c, h + body) == Ok((xs, rest)) <==> |xs| == n && InTurn(c, body, xs, rest))
  {
    hide VarNum.Decode, VarNum.Spells, DecodeItems;
    VarNum.SpellsDecodes(VarNum.Int32, h, n, body);
    if 0 <= n <= 65536 {
      if DecodeItems(c, n, body) == Ok((xs, rest)) {
        var at := ItemsInTurn(c, n, body);
        assert InTurn(c, body, xs, rest);
      }
      if |xs| == n && InTurn(c, body, xs, rest) {
        var at: seq<seq<byte>> :|
          && |at| == |xs| + 1 && at[0] == body && at[|xs|] == rest
          && forall i :: 0 <= i < |xs| ==> c.dec(at[i]) == Ok((xs[i], at[i + 1]));
        InTurnItems(c, xs, at);
      }
    }
  }

  /** One byte says whether there is a value: zero that there is none, any other that there is. */
  lemma OptionForms<T>(c: Codec<T>, b: byte, rest: seq<byte>, x: T)
    ensures EncodeOption(c, None) == Ok([0])
    ensures c.enc(x).Ok? ==> EncodeOption(c, Some(x)) == Ok([1] + c.enc(x).value)
    ensures c.enc(x).Err? ==> EncodeOption(c, Some(x)) == Err(c.enc(x).error)
    ensures DecodeOption(c, []) == Err(UnexpectedEof)
    ensures DecodeOption(c, [0] + rest) == Ok((None, rest))
    ensures b != 0 ==> match c.dec(rest)
      case Ok((y, after)) => DecodeOption(c, [b] + rest) == Ok((Some(y), after))
      case Err(e) => DecodeOption(c, [b] + rest) == Err(e)
  {
    assert ([b] + rest)[1..] == rest && ([0] + rest)[1..] == rest;
    assert DecodeBool([b] + rest) == Ok((b != 0, rest));
    assert DecodeBool([0] + rest) == Ok((false, rest));
  }

  // ---------------------------------------------------------------------
  // Over cursors
  // ---------------------------------------------------------------------

  method ReadString(src: Source) returns (r: Result<string, Error>)
    modifies src
    ensures Did(DecodeString(old(src.rest)), r, src.rest)
  {
    hide Utf8.Decode;
    var raw := VarNum.DecodeFrom(VarNum.Int32, src);
    if raw.Err? {
      return Err(raw.error);
    }
    var len := if raw.value < 0 then raw.value + 0x1_0000_0000_0000_0000 else raw.value;
    if len > MAX_STRING_BYTES {
      return Err(StringTooLong(len, MAX_STRING_BYTES));
    }
    if |src.rest| < len {
      return Err(UnexpectedEof);
    }
    var text := Utf8.Decode(src.rest[..len]);
    src.rest := src.rest[len..];
    return if text.None? then Err(InvalidUtf8) else Ok(text.value);
  }

  method WriteString(text: string, dst: Buffer) returns (r: Result<(), Error>)
    modifies dst
    ensures match EncodeString(text)
      case Ok(bs) => r == Ok(()) && dst.data == old(dst.data) + bs
      case Err(e) => r == Err(e)
  {
    hide Utf8.Encode, VarNum.Encode;
    var bs := Utf8.Encode(text);
    if |bs| > MAX_STRING_BYTES {
      return Err(StringTooLong(|bs|, MAX_STRING_BYTES));
    }
    VarNum.EncodeTo(VarNum.Int32, |bs|, dst);
    dst.data := dst.data + bs;
    return Ok(());
  }

  method ReadVec<T>(c: Codec<T>, src: Source) returns (r: Result<seq<T>, Error>)
    modifies src
    ensures Did(DecodeVec(c, old(src.rest)), r, src.rest)
  {
    hide VarNum.Decode;
    var raw := VarNum.DecodeFrom(VarNum.Int32, src);
    if raw.Err? {
      return Err(raw.error);
    }
    if raw.value < 0 {
      return Err(PacketTooLarge(raw.value + 0x1_0000_0000_0000_0000, MAX_VEC_LEN));
    }
    var len := raw.value;
    if len > MAX_VEC_LEN {
      return Err(PacketTooLarge(len, MAX_VEC_LEN));
    }
    var out := [];
    ghost var start := src.rest;
    PrependNothing(DecodeItems(c, len, start));
    for i := 0 to len
      invariant DecodeItems(c, len, start) == Prepend(out, DecodeItems(c, len - i, src.rest))
    {
      var item := c.dec(src.rest);
      if item.Err? {
        return Err(item.error);
      }
      src.rest := item.value.1;
      PrependTwice(out, item.value.0, DecodeItems(c, len - i - 1, src.rest));
      out := out + [item.value.0];
    }
    assert out + [] == out;
    return Ok(out);
  }

  method WriteVec<T>(c: Codec<T>, xs: seq<T>, dst: Buffer) returns (r: Result<(), Error>)
    modifies dst
    ensures match EncodeVec(c, xs)
      case Ok(bs) => r == Ok(()) && dst.data == old(dst.data) + bs
      case Err(e) => r == Err(e)
  {
    hide VarNum.Encode;
    VarNum.EncodeTo(VarNum.Int32, |xs|, dst);
    ghost var start := dst.data;
    for i := 0 to |xs|
      invariant match EncodeItems(c, xs)
        case Ok(bs) => EncodeItems(c, xs[i..]).Ok? && start + bs == dst.data + EncodeItems(c, xs[i..]).value
        case Err(e) => EncodeItems(c, xs[i..]) == Err(e)
    {
      assert xs[i..][1..] == xs[i + 1..];
      ghost var before := dst.data;
      var one := c.enc(xs[i]);
      if one.Err? {
        return Err(one.error);
      }
      dst.data := dst.data + one.value;
      if EncodeItems(c, xs[i + 1..]).Ok? {
        var rest := EncodeItems(c, xs[i + 1..]).value;
        assert before + (one.value + rest) == dst.data + rest;
      }
    }
    assert dst.data + [] == dst.data;
    if EncodeItems(c, xs).Ok? {
      assert old(dst.data) + (EncodeLength(|xs|) + EncodeItems(c, xs).value) == start + EncodeItems(c, xs).value;
    }
    return Ok(());
  }
}
