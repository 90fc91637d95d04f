/** The login pipeline: one state machine per connection. */
module Login {
  import opened Bytes
  import Utf8

  datatype AuthError =
    | RsaDecryptionFailed
    | VerifyTokenMismatch
    | SessionServerUnreachable
    | SessionServerRejected
    | SessionServerError(code: nat)
    | MalformedProfile
    | RateLimited
    | EncryptionSetupFailed(detail: string)
    | InvalidUsername

  /** The text shown to the player. */
  function Reason(e: AuthError): string {
    match e
    case SessionServerRejected =>
      "Not authenticated! This server is in online mode \U{2014} log in with a valid Minecraft (Mojang/Microsoft) account."
    case RateLimited => "Authentication servers are busy. Please try again."
    case SessionServerUnreachable => "Could not reach authentication servers."
    case InvalidUsername => "Invalid username."
    case _ => "Authentication failed."
  }

  datatype Profile = Profile(id: nat, name: string, properties: seq<(string, string)>)

  datatype Event =
    | LoginStart(username: string)
    | EncryptionResponse(secretEncrypted: seq<byte>, tokenEncrypted: seq<byte>, protocol: nat)

  datatype Outbound =
    | EncryptionRequest(publicKey: seq<byte>, verifyToken: seq<byte>)
    | SetCompression(threshold: int)
    | LoginSuccess(profile: Profile)
    | LoginDisconnect(reason: string)
    | EnableEncryption(secret: seq<byte>)

  datatype State =
    | AwaitingLoginStart
    | AwaitingEncryptionResponse(verifyToken: seq<byte>, username: string)
    | Authenticated(profile: Profile)
    | Failed(reason: string)

  datatype Config = Config(onlineMode: bool, compressionThreshold: int, publicKey: seq<byte>)

  /** What the surroundings answer while one event is handled: the random token, the private key's
      two decryptions, the session server, and the offline identity of a name. */
  datatype Answers = Answers(
    freshToken: seq<byte>,
    secret: Result<seq<byte>, AuthError>,
    token: Result<seq<byte>, AuthError>,
    session: Result<Profile, AuthError>,
    offlineId: nat)

  datatype Input = Input(event: Event, answers: Answers)

  // ---------------------------------------------------------------------
  // User names
  // ---------------------------------------------------------------------

  predicate NameByte(b: byte) {
    0x30 <= b <= 0x39 || 0x41 <= b <= 0x5A || 0x61 <= b <= 0x7A || b == 0x5F
  }

  /** `is_valid_username`, on the bytes of the name. */
  predicate ValidUsername(name: string) {
    var bs := Utf8.Encode(name);
    1 <= |bs| <= 16 && forall i :: 0 <= i < |bs| ==> NameByte(bs[i])
  }

  predicate NameChar(c: char) {
    '0' <= c <= '9' || 'A' <= c <= 'Z' || 'a' <= c <= 'z' || c == '_'
  }

  lemma {:induction false} NameBytesAreChars(name: string)
    ensures (forall i :: 0 <= i < |Utf8.Encode(name)| ==> NameByte(Utf8.Encode(name)[i])) <==> (forall c <- name :: NameChar(c))
    ensures (forall c <- name :: NameChar(c)) ==> |Utf8.Encode(name)| == |name|
  {
    if name != [] {
      NameBytesAreChars(name[1..]);
      var first, rest := Utf8.EncodeChar(name[0]), Utf8.Encode(name[1..]);
      assert Utf8.Encode(name) == first + rest;
      assert name == [name[0]] + name[1..];
      assert NameByte(first[0]) <==> NameChar(name[0]);
      assert NameChar(name[0]) ==> first == [name[0] as int];
      assert (first + rest)[0] == first[0];
      assert forall i :: 0 <= i < |rest| ==> (first + rest)[|first| + i] == rest[i];
      assert name[0] in name;
      assert forall c <- name[1..] :: c in name;
    }
  }

  /** A valid name is one to sixteen letters, digits and underscores. */
  lemma ValidUsernameExact(name: string)
    ensures ValidUsername(name) <==> 1 <= |name| <= 16 && forall c <- name :: NameChar(c)
  {
    NameBytesAreChars(name);
    if ValidUsername(name) {
      assert name != [] by { assert Utf8.Encode([]) == []; }
    }
  }

  // ---------------------------------------------------------------------
  // One event
  // ---------------------------------------------------------------------

  function Compression(cfg: Config): seq<Outbound> {
    if cfg.compressionThreshold >= 0 then [SetCompression(cfg.compressionThreshold)] else []
  }

  /** The verify token comes back, or the 1.19 signed form stands in for it. */
  function CheckToken(stored: seq<byte>, event: Event, answers: Answers): (r: Result<(), AuthError>)
    requires event.EncryptionResponse?
  {
    if event.tokenEncrypted == [] then
      if 759 <= event.protocol <= 760 then Ok(()) else Err(VerifyTokenMismatch)
    else
      var token :- answers.token;
      if token == stored then Ok(()) else Err(VerifyTokenMismatch)
  }

  function Step(cfg: Config, s: State, input: Input): (r: Result<(State, seq<Outbound>), AuthError>) {
    var Input(event, answers) := input;
    match s
    case AwaitingLoginStart =>
      if !event.LoginStart? then Err(EncryptionSetupFailed("unexpected event"))
      else if !ValidUsername(event.username) then Err(InvalidUsername)
      else if !cfg.onlineMode then
        var profile := Profile(answers.offlineId, event.username, []);
        Ok((Authenticated(profile), Compression(cfg) + [LoginSuccess(profile)]))
      else
        Ok((AwaitingEncryptionResponse(answers.freshToken, event.username),
            [EncryptionRequest(cfg.publicKey, answers.freshToken)]))
    case AwaitingEncryptionResponse(stored, username) =>
      if !event.EncryptionResponse? then Err(EncryptionSetupFailed("unexpected event"))
      else
        var secret :- answers.secret;
        var _ :- CheckToken(stored, event, answers);
        if |secret| != 16 then Err(EncryptionSetupFailed("shared secret not 16 bytes"))
        else
          var profile :- answers.session;
          Ok((Authenticated(profile), [EnableEncryption(secret)] + Compression(cfg) + [LoginSuccess(profile)]))
    case _ => Err(EncryptionSetupFailed("auth already completed or failed"))
  }

  function Process(cfg: Config, s: State, input: Input): (r: (State, seq<Outbound>)) {
    match Step(cfg, s, input)
    case Ok(next) => next
    case Err(e) => (Failed(Reason(e)), [LoginDisconnect(Reason(e))])
  }

  class AuthPipeline {
    const config: Config
    var state: State

    constructor (config: Config)
      ensures this.config == config && state == AwaitingLoginStart
    {
      this.config := config;
      state := AwaitingLoginStart;
    }

    /** `step`: the state is only read; the outbound list is filled piece by piece. */
    method Advance(input: Input) returns (r: Result<(State, seq<Outbound>), AuthError>)
      ensures r == Step(config, state, input)
    {
      hide ValidUsername;
      var Input(event, answers) := input;
      match state {
        case AwaitingLoginStart =>
          if !event.LoginStart? {
            return Err(EncryptionSetupFailed("unexpected event"));
          }
          if !ValidUsername(event.username) {
            return Err(InvalidUsername);
          }
          if !config.onlineMode {
            var out := [];
            if config.compressionThreshold >= 0 {
              out := out + [SetCompression(config.compressionThreshold)];
            }
            assert out == Compression(config);
            var profile := Profile(answers.offlineId, event.username, []);
            out := out + [LoginSuccess(profile)];
            return Ok((Authenticated(profile), out));
          }
          return Ok((AwaitingEncryptionResponse(answers.freshToken, event.username),
                     [EncryptionRequest(config.publicKey, answers.freshToken)]));
        case AwaitingEncryptionResponse(stored, username) =>
          if !event.EncryptionResponse? {
            return Err(EncryptionSetupFailed("unexpected event"));
          }
          if answers.secret.Err? {
            return Err(answers.secret.error);
          }
          var secret := answers.secret.value;
          if event.tokenEncrypted == [] {
            if !(759 <= event.protocol <= 760) {
              return Err(VerifyTokenMismatch);
            }
          } else {
            if answers.token.Err? {
              return Err(answers.token.error);
            }
            if answers.token.value != stored {
              return Err(VerifyTokenMismatch);
            }
          }
          if |secret| != 16 {
            return Err(EncryptionSetupFailed("shared secret not 16 bytes"));
          }
          if answers.session.Err? {
            return Err(answers.session.error);
          }
          var profile := answers.session.value;
          var out := [EnableEncryption(secret)];
          if config.compressionThreshold >= 0 {
            out := out + [SetCompression(config.compressionThreshold)];
          }
          assert out == [EnableEncryption(secret)] + Compression(config);
          out := out + [LoginSuccess(profile)];
          return Ok((Authenticated(profile), out));
        case _ =>
          return Err(EncryptionSetupFailed("auth already completed or failed"));
      }
    }

    /** `process`. */
    method ProcessEvent(input: Input) returns (out: seq<Outbound>)
      modifies this
      ensures (state, out) == Process(config, old(state), input)
      ensures IsAuthenticated() <==> Succeeds(out)
    {
      StepSucceeds(config, state, input);
      var result := Advance(input);
      if result.Ok? {
        state := result.value.0;
        return result.value.1;
      }
      state := Failed(Reason(result.error));
      return [LoginDisconnect(Reason(result.error))];
    }

    predicate IsAuthenticated()
      reads this
    {
      state.Authenticated?
    }
  }

  // ---------------------------------------------------------------------
  // Runs
  // ---------------------------------------------------------------------

  /** The state after the events, and the batch each of them sent. */
  function Run(cfg: Config, inputs: seq<Input>): (r: (State, seq<seq<Outbound>>))
    ensures |r.1| == |inputs|
  {
    if inputs == [] then (AwaitingLoginStart, [])
    else
      var (s, batches) := Run(cfg, inputs[..|inputs| - 1]);
      var (s', batch) := Process(cfg, s, inputs[|inputs| - 1]);
      (s', batches + [batch])
  }

  predicate Succeeds(batch: seq<Outbound>) {
    exists o <- batch :: o.LoginSuccess?
  }

  /** The events that make an offline connection authenticated. */
  predicate OfflineLogin(inputs: seq<Input>) {
    |inputs| == 1 && inputs[0].event.LoginStart? && ValidUsername(inputs[0].event.username)
  }

  /** The events and answers that make an online connection authenticated. */
  predicate OnlineLogin(inputs: seq<Input>) {
    && |inputs| == 2
    && inputs[0].event.LoginStart? && ValidUsername(inputs[0].event.username)
    && inputs[1].event.EncryptionResponse?
    && var response, answers := inputs[1].event, inputs[1].answers;
       && answers.secret.Ok? && |answers.secret.value| == 16
       && (if response.tokenEncrypted == [] then 759 <= response.protocol <= 760
           else answers.token == Ok(inputs[0].answers.freshToken))
       && answers.session.Ok?
  }

  lemma StepSucceeds(cfg: Config, s: State, input: Input)
    ensures var (s', batch) := Process(cfg, s, input);
      && (Succeeds(batch) <==> s'.Authenticated?)
      && (s.Failed? || s.Authenticated? ==> s'.Failed?)
      && s' != AwaitingLoginStart
  {
    hide ValidUsername;
    var (s', batch) := Process(cfg, s, input);
    if s'.Authenticated? {
      assert batch[|batch| - 1].LoginSuccess?;
    }
  }

  /** A pipeline is authenticated exactly when the event just handled sent the success. */
  lemma AuthenticatedExactly(cfg: Config, inputs: seq<Input>)
    requires inputs != []
    ensures var (s, batches) := Run(cfg, inputs); s.Authenticated? <==> Succeeds(batches[|inputs| - 1])
  {
    hide Process, Succeeds;
    StepSucceeds(cfg, Run(cfg, inputs[..|inputs| - 1]).0, inputs[|inputs| - 1]);
  }

  lemma {:induction false} RunPrefix(cfg: Config, inputs: seq<Input>, i: nat)
    requires i < |inputs|
    ensures Run(cfg, inputs).1[i] == Run(cfg, inputs[..i + 1]).1[i]
    decreases |inputs|
  {
    if i < |inputs| - 1 {
      RunPrefix(cfg, inputs[..|inputs| - 1], i);
      assert inputs[..|inputs| - 1][..i + 1] == inputs[..i + 1];
    } else {
      assert inputs[..i + 1] == inputs;
    }
  }

  /** The states the first events can lead to. */
  lemma {:induction false} StateAfter(cfg: Config, inputs: seq<Input>)
    ensures var s := Run(cfg, inputs).0;
      && (s == AwaitingLoginStart <==> inputs == [])
      && (s.AwaitingEncryptionResponse? <==>
           cfg.onlineMode && |inputs| == 1 && inputs[0].event.LoginStart? && ValidUsername(inputs[0].event.username))
      && (s.AwaitingEncryptionResponse? ==> s.verifyToken == inputs[0].answers.freshToken)
      && (s.Authenticated? <==> if cfg.onlineMode then OnlineLogin(inputs) else OfflineLogin(inputs))
  {
    hide ValidUsername;
    if inputs != [] {
      var before := inputs[..|inputs| - 1];
      StateAfter(cfg, before);
      StepSucceeds(cfg, Run(cfg, before).0, inputs[|inputs| - 1]);
      assert |inputs| > 1 ==> before[0] == inputs[0];
    }
  }

  /** Over any events and any answers, a success is sent in one place only: with the first event in
      offline mode; in online mode with the second, after an encryption request, a token that came
      back (or its signed form), a sixteen-byte secret and an accepted session. */
  lemma SuccessExactly(cfg: Config, inputs: seq<Input>, i: nat)
    requires i < |inputs|
    ensures Succeeds(Run(cfg, inputs).1[i]) <==>
      if cfg.onlineMode then i == 1 && OnlineLogin(inputs[..2]) else i == 0 && OfflineLogin(inputs[..1])
  {
    hide Run, Succeeds, OnlineLogin, OfflineLogin;
    var front := inputs[..i + 1];
    RunPrefix(cfg, inputs, i);
    AuthenticatedExactly(cfg, front);
    StateAfter(cfg, front);
    LoginLengths(front);
    if i == 0 {
      assert front == inputs[..1];
    } else if i == 1 {
      assert front == inputs[..2];
    }
  }

  lemma LoginLengths(inputs: seq<Input>)
    ensures OnlineLogin(inputs) ==> |inputs| == 2
    ensures OfflineLogin(inputs) ==> |inputs| == 1
  {
  }

  /** So at most one success is ever sent. */
  lemma AtMostOneSuccess(cfg: Config, inputs: seq<Input>, i: nat, j: nat)
    requires i < |inputs| && j < |inputs|
    requires Succeeds(Run(cfg, inputs).1[i]) && Succeeds(Run(cfg, inputs).1[j])
    ensures i == j
  {
    SuccessExactly(cfg, inputs, i);
    SuccessExactly(cfg, inputs, j);
  }

  /** The two batches of an online login, in full: the request, then encryption, compression if it is
      configured, and the success with the session server's profile, last. */
  lemma OnlineBatches(cfg: Config, inputs: seq<Input>)
    requires cfg.onlineMode && OnlineLogin(inputs)
    ensures var (secret, profile) := (inputs[1].answers.secret.value, inputs[1].answers.session.value);
      && Run(cfg, inputs).0 == Authenticated(profile)
      && Run(cfg, inputs).1 == [
           [EncryptionRequest(cfg.publicKey, inputs[0].answers.freshToken)],
           if cfg.compressionThreshold >= 0
           then [EnableEncryption(secret), SetCompression(cfg.compressionThreshold), LoginSuccess(profile)]
           else [EnableEncryption(secret), LoginSuccess(profile)]]
  {
    hide ValidUsername;
    var (token, secret, profile) := (inputs[0].answers.freshToken, inputs[1].answers.secret.value, inputs[1].answers.session.value);
    var first := inputs[..1];
    assert first[..0] == [] && first[0] == inputs[0];
    RunLast(cfg, first);
    RunLast(cfg, inputs);
    var batch := [EnableEncryption(secret)] + Compression(cfg) + [LoginSuccess(profile)];
    assert Process(cfg, Run(cfg, first).0, inputs[1]) == (Authenticated(profile), batch);
    assert batch == if cfg.compressionThreshold >= 0
      then [EnableEncryption(secret), SetCompression(cfg.compressionThreshold), LoginSuccess(profile)]
      else [EnableEncryption(secret), LoginSuccess(profile)];
    assert Run(cfg, inputs).1 == [[EncryptionRequest(cfg.publicKey, token)], batch];
  }

  lemma RunLast(cfg: Config, inputs: seq<Input>)
    requires inputs != []
    ensures var before := Run(cfg, inputs[..|inputs| - 1]);
      var after := Process(cfg, before.0, inputs[|inputs| - 1]);
      Run(cfg, inputs).0 == after.0 && Run(cfg, inputs).1 == before.1 + [after.1]
    ensures Run(cfg, []).0 == AwaitingLoginStart && Run(cfg, []).1 == []
  {
  }

  /** The batch of an offline login, in full: compression if it is configured, and the success with the
      name the client gave, its offline identity and no properties. */
  lemma OfflineBatch(cfg: Config, inputs: seq<Input>)
    requires !cfg.onlineMode && OfflineLogin(inputs)
    ensures var profile := Profile(inputs[0].answers.offlineId, inputs[0].event.username, []);
      && Run(cfg, inputs).0 == Authenticated(profile)
      && Run(cfg, inputs).1 == [
           if cfg.compressionThreshold >= 0
           then [SetCompression(cfg.compressionThreshold), LoginSuccess(profile)]
           else [LoginSuccess(profile)]]
  {
    hide ValidUsername;
    var profile := Profile(inputs[0].answers.offlineId, inputs[0].event.username, []);
    assert inputs[..0] == [];
    RunLast(cfg, inputs);
    var batch := Compression(cfg) + [LoginSuccess(profile)];
    assert batch == if cfg.compressionThreshold >= 0
      then [SetCompression(cfg.compressionThreshold), LoginSuccess(profile)] else [LoginSuccess(profile)];
    assert Run(cfg, inputs).1 == [batch];
  }

  /** The texts a player sees: three failures of the session server have their own, most errors share one. */
  lemma SessionReasons()
    ensures Reason(RateLimited) == "Authentication servers are busy. Please try again."
    ensures Reason(SessionServerUnreachable) == "Could not reach authentication servers."
  {
  }

  lemma RejectedReason()
    ensures Reason(SessionServerRejected)
         == "Not authenticated! This server is in online mode \U{2014} log in with a valid Minecraft (Mojang/Microsoft) account."
  {
  }

  lemma Reasons(e: AuthError)
    ensures e.InvalidUsername? ==> Reason(e) == "Invalid username."
    ensures !(e.InvalidUsername? || e.RateLimited? || e.SessionServerUnreachable? || e.SessionServerRejected?)
        ==> Reason(e) == "Authentication failed."
  {
  }

  ghost predicate Disconnected(r: (State, seq<Outbound>), text: string) {
    r == (Failed(text), [LoginDisconnect(text)])
  }

  /** How a first event fails. */
  lemma FirstEventFails(cfg: Config, input: Input)
    ensures var r := Process(cfg, AwaitingLoginStart, input);
      && (!input.event.LoginStart? ==> Disconnected(r, "Authentication failed."))
      && (input.event.LoginStart? && !ValidUsername(input.event.username) ==> Disconnected(r, "Invalid username."))
  {
    hide ValidUsername;
  }

  /** How a second event fails in online mode: by the first of its checks that does. */
  lemma SecondEventFails(cfg: Config, stored: seq<byte>, name: string, input: Input)
    ensures var r := Process(cfg, AwaitingEncryptionResponse(stored, name), input);
      var (event, answers) := (input.event, input.answers);
      && (!event.EncryptionResponse? ==> Disconnected(r, "Authentication failed."))
      && (event.EncryptionResponse? ==>
           var tokenPasses := if event.tokenEncrypted == [] then 759 <= event.protocol <= 760 else answers.token == Ok(stored);
           && (answers.secret.Err? ==> Disconnected(r, Reason(answers.secret.error)))
           && (answers.secret.Ok? && !tokenPasses ==>
                Disconnected(r, if event.tokenEncrypted != [] && answers.token.Err? then Reason(answers.token.error)
                                else "Authentication failed."))
           && (answers.secret.Ok? && tokenPasses && |answers.secret.value| != 16 ==> Disconnected(r, "Authentication failed."))
           && (answers.secret.Ok? && tokenPasses && |answers.secret.value| == 16 && answers.session.Err? ==>
                Disconnected(r, Reason(answers.session.error))))
  {
  }

  /** A failed pipeline stays failed and answers everything with a disconnect. */
  lemma {:induction false} FailedIsAbsorbing(cfg: Config, inputs: seq<Input>, i: nat)
    requires i <= |inputs| && Run(cfg, inputs[..i]).0.Failed?
    ensures Run(cfg, inputs).0.Failed?
    ensures forall j :: i <= j < |inputs| ==> |Run(cfg, inputs).1[j]| == 1 && Run(cfg, inputs).1[j][0].LoginDisconnect?
    decreases |inputs|
  {
    if i == |inputs| {
      assert inputs[..i] == inputs;
    } else {
      var before := inputs[..|inputs| - 1];
      assert before[..i] == inputs[..i];
      FailedIsAbsorbing(cfg, before, i);
    }
  }
}
