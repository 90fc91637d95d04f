/** Rewriting a serverbound chat message so that it carries no signature. */
module ChatSigning {
  import opened Bytes
  import opened Codec
  import VarNum
  import Utf8

  /** The known protocol versions before signed chat (1.6.1 to 1.18.2). */
  const UNSIGNED_VERSIONS: set<nat> := {
    73, 74, 78, 4, 5, 47, 107, 108, 109, 110, 210, 315, 316, 335, 338, 340, 393, 401, 404, 477, 480, 485,
    490, 498, 573, 575, 578, 735, 736, 751, 753, 754, 755, 756, 757, 758
  }

  /** `has_chat_signing`: the epoch of an unknown version orders after all others. */
  predicate HasChatSigning(version: nat) {
    version !in UNSIGNED_VERSIONS
  }

  predicate HasSalt(version: nat) {
    version >= 761
  }

  /** Where the rewrite gave up. */
  datatype ChatError =
    | PacketId(cause: Error)
    | Message(cause: Error)
    | Timestamp(cause: Error)
    | SignatureFlag(cause: Error)
    | TruncatedUuid
    | SignatureBytesFlag(cause: Error)
    | SignatureLength(cause: Error)
    | SignatureTooLong

  /** What a signed-chat packet holds, apart from the signature itself and the salt. */
  datatype Chat = Chat(id: int, message: string, timestamp: int, signed: bool, signatureBytes: bool, tail: seq<byte>)

  function Step<T>(d: Decoded<T>, wrap: Error -> ChatError): Result<(T, seq<byte>), ChatError> {
    match d
    case Ok(v) => Ok(v)
    case Err(e) => Err(wrap(e))
  }

  function SkipUuid(signed: bool, bs: seq<byte>): (r: Result<seq<byte>, ChatError>) {
    if !signed then Ok(bs) else if |bs| < 16 then Err(TruncatedUuid) else Ok(bs[16..])
  }

  function SkipSignature(present: bool, bs: seq<byte>): (r: Result<seq<byte>, ChatError>) {
    if !present then Ok(bs)
    else
      var (len, rest) :- Step(GetSigned(4, bs), e => SignatureLength(e));
      if len <= 0 then Ok(rest) else if len > |rest| then Err(SignatureTooLong) else Ok(rest[len..])
  }

  /** The salt is skipped when it is there in full, and otherwise left where it is. */
  function SkipSalt(version: nat, bs: seq<byte>): seq<byte> {
    if HasSalt(version) && |bs| >= 8 then bs[8..] else bs
  }

  /** Both flags, stepping over what they announce. */
  function SignatureFields(bs: seq<byte>): (r: Result<((bool, bool), seq<byte>), ChatError>) {
    var (signed, d) :- Step(DecodeBool(bs), e => SignatureFlag(e));
    var f :- SkipUuid(signed, d);
    var (bytes, g) :- Step(DecodeBool(f), e => SignatureBytesFlag(e));
    var h :- SkipSignature(bytes, g);
    Ok(((signed, bytes), h))
  }

  function Parse(payload: seq<byte>, version: nat): (r: Result<Chat, ChatError>) {
    var (id, a) :- Step(VarNum.Decode(VarNum.Int32, payload), e => PacketId(e));
    var (message, b) :- Step(DecodeString(a), e => Message(e));
    var (timestamp, c) :- Step(GetSigned(8, b), e => Timestamp(e));
    var ((signed, bytes), d) :- SignatureFields(c);
    Ok(Chat(id, message, timestamp, signed, bytes, SkipSalt(version, d)))
  }

  /** The packet without a signature: both flags false, the salt zero. */
  function Build(chat: Chat, version: nat): (r: Result<seq<byte>, Error>) {
    var message :- EncodeString(chat.message);
    Ok(VarNum.Encode(VarNum.Int32, chat.id) + message + PutBe(8, chat.timestamp) + EncodeBool(false) + EncodeBool(false)
       + (if HasSalt(version) then PutBe(8, 0) else []) + chat.tail)
  }

  function Strip(payload: seq<byte>, version: nat): (r: Result<seq<byte>, ChatError>) {
    if !HasChatSigning(version) then Ok(payload)
    else
      var chat :- Parse(payload, version);
      match Build(chat, version)
      case Ok(bs) => Ok(bs)
      case Err(e) => Err(Message(e))
  }

  /** What the parser returns can be written again: every field is in range. */
  ghost predicate Writable(chat: Chat) {
    && VarNum.Width.Int32.InRange(chat.id)
    && EncodeString(chat.message).Ok?
    && -Pow256(8) <= 2 * chat.timestamp < Pow256(8)
  }

  lemma DecodedStringEncodes(bs: seq<byte>)
    requires DecodeString(bs).Ok?
    ensures EncodeString(DecodeString(bs).value.0).Ok?
  {
    hide Utf8.Encode, Utf8.Decode, EncodeLength;
    var (raw, rest) := VarNum.Decode(VarNum.Int32, bs).value;
    Utf8.Canonical(rest[..raw]);
  }

  lemma ParsedIsWritable(payload: seq<byte>, version: nat)
    requires Parse(payload, version).Ok?
    ensures Writable(Parse(payload, version).value)
  {
    hide VarNum.Decode, DecodeString, EncodeString, Signed, Pow256, SkipUuid, SkipSignature;
    var a := VarNum.Decode(VarNum.Int32, payload).value.1;
    VarNum.DecodedInRange(VarNum.Int32, payload);
    DecodedStringEncodes(a);
    SignedRange(DecodeString(a).value.1[..8]);
  }

  /** A built packet parses to the same fields, with both flags false. */
  lemma ParseOfBuild(chat: Chat, version: nat)
    requires Writable(chat) && Build(chat, version).Ok?
    ensures Parse(Build(chat, version).value, version) == Ok(chat.(signed := false, signatureBytes := false))
  {
    hide VarNum.Decode, VarNum.Encode, DecodeString, EncodeString, PutBe, GetSigned, Pow256;
    var head, message, stamp := VarNum.Encode(VarNum.Int32, chat.id), EncodeString(chat.message).value, PutBe(8, chat.timestamp);
    var salt := if HasSalt(version) then PutBe(8, 0) else [];
    var h := salt + chat.tail;
    var f := EncodeBool(false) + h;
    var c := EncodeBool(false) + f;
    var b := stamp + c;
    var a := message + b;
    assert Build(chat, version).value == head + a;
    VarNum.RoundTrip(VarNum.Int32, chat.id, a);
    StringRoundTrips(chat.message);
    RoundTripsElim(StringCodec(), chat.message, b);
    assert DecodeString(message + b) == Ok((chat.message, b));
    GetSignedOfPut(8, chat.timestamp, c);
    assert c[1..] == f && f[1..] == h;
    assert HasSalt(version) ==> h[8..] == chat.tail;
    assert !HasSalt(version) ==> h == chat.tail;
    SaltSkipped(version, chat.tail);
  }

  lemma SaltSkipped(version: nat, tail: seq<byte>)
    ensures !HasSalt(version) ==> SkipSalt(version, [] + tail) == tail
    ensures HasSalt(version) ==> SkipSalt(version, PutBe(8, 0) + tail) == tail
  {
    assert [] + tail == tail;
    assert (PutBe(8, 0) + tail)[8..] == tail;
  }

  /** For every version and every input the rewrite accepts: the identifier, the message, the time
      and the trailing fields stay, and both signature flags read back as false. */
  lemma StripKeepsMeaning(payload: seq<byte>, version: nat)
    requires HasChatSigning(version)
    ensures Strip(payload, version).Ok? <==> Parse(payload, version).Ok?
    ensures Strip(payload, version).Ok? ==>
      Parse(Strip(payload, version).value, version)
      == Ok(Parse(payload, version).value.(signed := false, signatureBytes := false))
  {
    hide Parse, EncodeString;
    if Parse(payload, version).Ok? {
      ParsedIsWritable(payload, version);
      ParseOfBuild(Parse(payload, version).value, version);
    }
  }

  /** Stripping what has been stripped changes nothing. */
  lemma StripIdempotent(payload: seq<byte>, version: nat)
    requires Strip(payload, version).Ok?
    ensures Strip(Strip(payload, version).value, version) == Strip(payload, version)
  {
    hide Parse, EncodeString;
    if HasChatSigning(version) {
      StripKeepsMeaning(payload, version);
    }
  }

  // ---------------------------------------------------------------------
  // On the wire
  // ---------------------------------------------------------------------

  /** The flag and the key's owner. */
  function UuidField(uuid: Option<seq<byte>>): seq<byte> {
    if uuid.None? then [0] else [1] + uuid.value
  }

  /** The flag, the length in four bytes and the signature. */
  function SignatureField(signature: Option<seq<byte>>): seq<byte> {
    if signature.None? then [0] else [1] + PutBe(4, |signature.value|) + signature.value
  }

  /** A chat packet as a client lays it out. */
  function Packet(id: int, message: seq<byte>, timestamp: int, flags: seq<byte>, rest: seq<byte>): seq<byte> {
    VarNum.Encode(VarNum.Int32, id) + (message + (PutBe(8, timestamp) + (flags + rest)))
  }

  /** The fields in front of the flags are read as they stand. */
  lemma ParseFront(id: i32, text: string, timestamp: i64, rest: seq<byte>, version: nat)
    requires EncodeString(text).Ok?
    ensures Parse(Packet(id, EncodeString(text).value, timestamp, [], rest), version) ==
      match SignatureFields(rest)
      case Ok(((signed, bytes), tail)) => Ok(Chat(id, text, timestamp, signed, bytes, SkipSalt(version, tail)))
      case Err(e) => Err(e)
  {
    hide VarNum.Decode, VarNum.Encode, DecodeString, EncodeString, Signed, PutBe, SignatureFields, SkipSalt;
    var message := EncodeString(text).value;
    var c := PutBe(8, timestamp) + ([] + rest);
    assert [] + rest == rest;
    VarNum.RoundTrip(VarNum.Int32, id, message + c);
    StringReads(text, c);
    Widths();
    GetSignedOfPut(8, timestamp, rest);
  }

  lemma StringReads(text: string, rest: seq<byte>)
    requires EncodeString(text).Ok?
    ensures DecodeString(EncodeString(text).value + rest) == Ok((text, rest))
  {
    hide EncodeString, DecodeString;
    StringRoundTrips(text);
    var c := StringCodec();
    assert RoundTrips(c, text);
    assert c.dec(c.enc(text).value + rest) == Ok((text, rest));
  }

  predicate UuidOk(uuid: Option<seq<byte>>) {
    uuid.Some? ==> |uuid.value| == 16
  }

  predicate SignatureOk(signature: Option<seq<byte>>) {
    signature.Some? ==> |signature.value| < 0x8000_0000
  }

  lemma UuidSkipped(uuid: Option<seq<byte>>, rest: seq<byte>)
    requires UuidOk(uuid)
    ensures DecodeBool(UuidField(uuid) + rest).Ok?
    ensures var (signed, d) := DecodeBool(UuidField(uuid) + rest).value; signed == uuid.Some? && SkipUuid(signed, d) == Ok(rest)
  {
    var bs := UuidField(uuid) + rest;
    if uuid.Some? {
      assert bs[1..] == uuid.value + rest;
      assert (uuid.value + rest)[16..] == rest;
    } else {
      assert bs[1..] == rest;
    }
  }

  lemma SignatureSkipped(signature: Option<seq<byte>>, rest: seq<byte>)
    requires SignatureOk(signature)
    ensures DecodeBool(SignatureField(signature) + rest).Ok?
    ensures var (bytes, g) := DecodeBool(SignatureField(signature) + rest).value;
      bytes == signature.Some? && SkipSignature(bytes, g) == Ok(rest)
  {
    hide PutBe, Signed;
    var bs := SignatureField(signature) + rest;
    if signature.Some? {
      var n := |signature.value|;
      Widths();
      GetSignedOfPut(4, n, signature.value + rest);
      assert bs[1..] == PutBe(4, n) + (signature.value + rest);
      assert (signature.value + rest)[n..] == rest;
    } else {
      assert bs[1..] == rest;
    }
  }

  /** Both fields are stepped over in full, and nothing else is. */
  lemma FieldsSkipped(uuid: Option<seq<byte>>, signature: Option<seq<byte>>, rest: seq<byte>)
    requires UuidOk(uuid) && SignatureOk(signature)
    ensures SignatureFields(UuidField(uuid) + (SignatureField(signature) + rest))
         == Ok(((uuid.Some?, signature.Some?), rest))
  {
    hide UuidField, SignatureField, DecodeBool, SkipUuid, SkipSignature;
    UuidSkipped(uuid, SignatureField(signature) + rest);
    SignatureSkipped(signature, rest);
  }

  /** A length that is not positive announces no bytes. */
  lemma EmptyLengthSkipped(uuid: Option<seq<byte>>, length: i32, rest: seq<byte>)
    requires UuidOk(uuid) && length <= 0
    ensures SignatureFields(UuidField(uuid) + ([1] + (PutBe(4, length) + rest))) == Ok(((uuid.Some?, true), rest))
  {
    hide PutBe, Signed, UuidField, SkipUuid;
    var tail := [1] + (PutBe(4, length) + rest);
    UuidSkipped(uuid, tail);
    assert tail[1..] == PutBe(4, length) + rest;
    Widths();
    GetSignedOfPut(4, length, rest);
  }

  /** What is sent on: the same fields with both flags zero and eight zero bytes for the salt. */
  function Stripped(id: int, message: seq<byte>, timestamp: int, version: nat, tail: seq<byte>): seq<byte> {
    Packet(id, message, timestamp, [0, 0], (if version >= 761 then [0, 0, 0, 0, 0, 0, 0, 0] else []) + tail)
  }

  lemma BuildLayout(chat: Chat, version: nat)
    requires EncodeString(chat.message).Ok?
    ensures Build(chat, version) == Ok(Stripped(chat.id, EncodeString(chat.message).value, chat.timestamp, version, chat.tail))
  {
    EightZeros();
    hide VarNum.Encode, EncodeString, PutBe;
    var (a, b, c) := (VarNum.Encode(VarNum.Int32, chat.id), EncodeString(chat.message).value, PutBe(8, chat.timestamp));
    var salt := if version >= 761 then PutBe(8, 0) else [];
    assert a + b + c + [0] + [0] + salt + chat.tail == a + (b + (c + ([0, 0] + (salt + chat.tail))));
  }

  lemma EightZeros()
    ensures PutBe(8, 0) == [0, 0, 0, 0, 0, 0, 0, 0]
  {
    assert PutBe(1, 0) == [0];
    assert PutBe(2, 0) == [0, 0];
    assert PutBe(3, 0) == [0, 0, 0];
    assert PutBe(4, 0) == [0, 0, 0, 0];
    assert PutBe(5, 0) == [0, 0, 0, 0, 0];
    assert PutBe(6, 0) == [0, 0, 0, 0, 0, 0];
    assert PutBe(7, 0) == [0, 0, 0, 0, 0, 0, 0];
  }

  /** The bytes after the signature, as the version has them: a salt of eight bytes, then the tail. A
      salt that is cut short is left where it is. */
  predicate SaltOk(version: nat, salt: seq<byte>, tail: seq<byte>) {
    if version >= 761 then |salt| == 8 || (salt == [] && |tail| < 8) else salt == []
  }

  lemma StripFields(id: i32, text: string, timestamp: i64, fields: seq<byte>, flags: (bool, bool), salt: seq<byte>,
                    tail: seq<byte>, version: nat)
    requires HasChatSigning(version) && EncodeString(text).Ok? && SaltOk(version, salt, tail)
    requires SignatureFields(fields + (salt + tail)) == Ok((flags, salt + tail))
    ensures Strip(Packet(id, EncodeString(text).value, timestamp, fields, salt + tail), version)
         == Ok(Stripped(id, EncodeString(text).value, timestamp, version, tail))
  {
    hide Parse, Build, EncodeString, PutBe, VarNum.Encode, SignatureFields;
    var message := EncodeString(text).value;
    ParseFront(id, text, timestamp, fields + (salt + tail), version);
    assert [] + (fields + (salt + tail)) == fields + (salt + tail);
    assert SkipSalt(version, salt + tail) == tail by {
      assert |salt| == 8 ==> (salt + tail)[8..] == tail;
      assert salt == [] ==> salt + tail == tail;
    }
    BuildLayout(Chat(id, text, timestamp, flags.0, flags.1, tail), version);
  }

  /** The rewrite of every packet, byte by byte: whatever the owner, the signature and the salt were, what
      is sent on is the packet without them. */
  lemma StripOnTheWire(id: i32, text: string, timestamp: i64, uuid: Option<seq<byte>>, signature: Option<seq<byte>>,
                       salt: seq<byte>, tail: seq<byte>, version: nat)
    requires HasChatSigning(version) && EncodeString(text).Ok?
    requires UuidOk(uuid) && SignatureOk(signature) && SaltOk(version, salt, tail)
    ensures Strip(Packet(id, EncodeString(text).value, timestamp, UuidField(uuid) + SignatureField(signature), salt + tail), version)
         == Ok(Stripped(id, EncodeString(text).value, timestamp, version, tail))
  {
    hide Strip, Packet, Stripped, EncodeString, SignatureFields, UuidField, SignatureField;
    FieldsSkipped(uuid, signature, salt + tail);
    assert UuidField(uuid) + (SignatureField(signature) + (salt + tail))
        == UuidField(uuid) + SignatureField(signature) + (salt + tail);
    StripFields(id, text, timestamp, UuidField(uuid) + SignatureField(signature), (uuid.Some?, signature.Some?), salt, tail, version);
  }

  /** The same with a signature length of zero or less, which is followed by no signature. */
  lemma StripEmptyOnTheWire(id: i32, text: string, timestamp: i64, uuid: Option<seq<byte>>, length: i32,
                            salt: seq<byte>, tail: seq<byte>, version: nat)
    requires HasChatSigning(version) && EncodeString(text).Ok?
    requires UuidOk(uuid) && length <= 0 && SaltOk(version, salt, tail)
    ensures Strip(Packet(id, EncodeString(text).value, timestamp, UuidField(uuid) + ([1] + PutBe(4, length)), salt + tail), version)
         == Ok(Stripped(id, EncodeString(text).value, timestamp, version, tail))
  {
    hide Strip, Packet, Stripped, EncodeString, SignatureFields, UuidField, PutBe;
    EmptyLengthSkipped(uuid, length, salt + tail);
    assert UuidField(uuid) + ([1] + (PutBe(4, length) + (salt + tail)))
        == UuidField(uuid) + ([1] + PutBe(4, length)) + (salt + tail);
    StripFields(id, text, timestamp, UuidField(uuid) + ([1] + PutBe(4, length)), (uuid.Some?, true), salt, tail, version);
  }

  /** Packets of versions without chat signing pass as they are, well formed or not. */
  lemma StripLeavesOld(payload: seq<byte>, version: nat)
    requires !HasChatSigning(version)
    ensures Strip(payload, version) == Ok(payload)
  {
  }

  /** What is cut short is refused, by the field that is short. */
  lemma StripRefuses(rest: seq<byte>, length: i32)
    ensures SignatureFields([]) == Err(SignatureFlag(UnexpectedEof))
    ensures |rest| < 16 ==> SignatureFields([1] + rest) == Err(TruncatedUuid)
    ensures SignatureFields([0]) == Err(SignatureBytesFlag(UnexpectedEof))
    ensures |rest| < 4 ==> SignatureFields([0, 1] + rest) == Err(SignatureLength(UnexpectedEof))
    ensures |rest| < length ==> SignatureFields([0, 1] + (PutBe(4, length) + rest)) == Err(SignatureTooLong)
  {
    hide PutBe, Signed;
    assert ([1] + rest)[1..] == rest;
    assert [0 as byte][1..] == [];
    var bs := [0, 1] + rest;
    assert bs[1..][1..] == rest;
    var cs := [0, 1] + (PutBe(4, length) + rest);
    assert cs[1..][1..] == PutBe(4, length) + rest;
    Widths();
    GetSignedOfPut(4, length, rest);
  }

  /** `strip_chat_signature` over its cursor. */
  method StripChatSignature(payload: seq<byte>, version: nat) returns (r: Result<seq<byte>, ChatError>)
    ensures r == Strip(payload, version)
  {
    hide VarNum.Decode, VarNum.Encode, DecodeString, EncodeString, Signed, PutBe, SignatureFields;
    if !HasChatSigning(version) {
      return Ok(payload);
    }
    var src := new Source(payload);
    var id := VarNum.DecodeFrom(VarNum.Int32, src);
    if id.Err? {
      return Err(PacketId(id.error));
    }
    var message := ReadString(src);
    if message.Err? {
      return Err(Message(message.error));
    }
    if |src.rest| < 8 {
      return Err(Timestamp(UnexpectedEof));
    }
    var timestamp := Signed(src.rest[..8]);
    src.rest := src.rest[8..];
    var flags := SkipSignatureFields(src);
    if flags.Err? {
      return Err(flags.error);
    }
    if HasSalt(version) && |src.rest| >= 8 {
      src.rest := src.rest[8..];
    }
    var (hasSignature, hasSignatureBytes) := flags.value;
    ghost var chat := Chat(id.value, message.value, timestamp, hasSignature, hasSignatureBytes, src.rest);
    assert Parse(payload, version) == Ok(chat);
    r := Rebuild(id.value, message.value, timestamp, src.rest, version, chat);
  }

  /** The two flags and what they announce. */
  method SkipSignatureFields(src: Source) returns (r: Result<(bool, bool), ChatError>)
    modifies src
    ensures match SignatureFields(old(src.rest))
      case Ok((flags, rest)) => r == Ok(flags) && src.rest == rest
      case Err(e) => r == Err(e)
  {
    hide Signed;
    if src.rest == [] {
      return Err(SignatureFlag(UnexpectedEof));
    }
    var hasSignature := src.rest[0] != 0;
    src.rest := src.rest[1..];
    if hasSignature {
      if |src.rest| < 16 {
        return Err(TruncatedUuid);
      }
      src.rest := src.rest[16..];
    }
    if src.rest == [] {
      return Err(SignatureBytesFlag(UnexpectedEof));
    }
    var hasSignatureBytes := src.rest[0] != 0;
    src.rest := src.rest[1..];
    if hasSignatureBytes {
      if |src.rest| < 4 {
        return Err(SignatureLength(UnexpectedEof));
      }
      var len := Signed(src.rest[..4]);
      src.rest := src.rest[4..];
      if len > 0 {
        if len > |src.rest| {
          return Err(SignatureTooLong);
        }
        src.rest := src.rest[len..];
      }
    }
    return Ok((hasSignature, hasSignatureBytes));
  }

  /** The second half: writing the packet again. */
  method Rebuild(id: int, message: string, timestamp: int, tail: seq<byte>, version: nat, ghost chat: Chat)
    returns (r: Result<seq<byte>, ChatError>)
    requires chat.id == id && chat.message == message && chat.timestamp == timestamp && chat.tail == tail
    ensures match Build(chat, version)
      case Ok(bs) => r == Ok(bs)
      case Err(e) => r == Err(Message(e))
  {
    hide VarNum.Encode, EncodeString, PutBe;
    var rebuilt := new Buffer();
    VarNum.EncodeTo(VarNum.Int32, id, rebuilt);
    assert rebuilt.data == VarNum.Encode(VarNum.Int32, id);
    var written := WriteString(message, rebuilt);
    if written.Err? {
      return Err(Message(written.error));
    }
    rebuilt.data := rebuilt.data + PutBe(8, timestamp);
    rebuilt.data := rebuilt.data + EncodeBool(false);
    rebuilt.data := rebuilt.data + EncodeBool(false);
    if HasSalt(version) {
      rebuilt.data := rebuilt.data + PutBe(8, 0);
    }
    assert !HasSalt(version) ==> rebuilt.data == rebuilt.data + [];
    rebuilt.data := rebuilt.data + tail;
    return Ok(rebuilt.data);
  }
}
