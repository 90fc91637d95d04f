/** The handler pipeline of a channel, and the compression handler in it. */
module Channel {
  import opened Bytes
  import VarNum

  datatype Context = Context(compressionThreshold: int, protocolVersion: nat)

  datatype HandlerError =
    | Protocol(cause: Error)
    | Compression
    | InvalidDataLength(length: int)

  /** Forward what was made of the data, swallow it, or fail. */
  type Handled = Result<Option<seq<byte>>, HandlerError>

  /** A handler's method: it may change the context it is handed. */
  type Step = (Context, seq<byte>) -> (Context, Handled)

  datatype Handler = Handler(name: string, inbound: Step, outbound: Step)

  predicate Forwards(r: Handled) {
    r.Ok? && r.value.Some?
  }

  // ---------------------------------------------------------------------
  // Both directions
  // ---------------------------------------------------------------------

  /** Head to tail. What a handler did to the context stays, also when it swallows the data or fails. */
  function Inbound(hs: seq<Handler>, ctx: Context, data: seq<byte>): (r: (Context, Handled)) {
    if hs == [] then (ctx, Ok(Some(data)))
    else
      var (ctx', out) := hs[0].inbound(ctx, data);
      if Forwards(out) then Inbound(hs[1..], ctx', out.value.value) else (ctx', out)
  }

  /** Tail to head. */
  function Outbound(hs: seq<Handler>, ctx: Context, data: seq<byte>): (r: (Context, Handled)) {
    if hs == [] then (ctx, Ok(Some(data)))
    else
      var (ctx', out) := hs[|hs| - 1].outbound(ctx, data);
      if Forwards(out) then Outbound(hs[..|hs| - 1], ctx', out.value.value) else (ctx', out)
  }

  /** What the handler makes of `x` and of the context on the way out it takes back on the way in. */
  predicate UndoesAt(h: Handler, ctx: Context, x: seq<byte>) {
    var (ctx', y) := h.outbound(ctx, x);
    Forwards(y) ==> h.inbound(ctx', y.value.value) == (ctx, Ok(Some(x)))
  }

  /** Every handler takes back what it is handed while `x` goes out. */
  predicate EachUndoes(hs: seq<Handler>, ctx: Context, x: seq<byte>) {
    hs == [] ||
    var h := hs[|hs| - 1];
    var (ctx', y) := h.outbound(ctx, x);
    UndoesAt(h, ctx, x) && (Forwards(y) ==> EachUndoes(hs[..|hs| - 1], ctx', y.value.value))
  }

  lemma {:induction false} InboundSnoc(hs: seq<Handler>, h: Handler, ctx: Context, y: seq<byte>, ctx': Context, x: seq<byte>)
    requires Inbound(hs, ctx, y) == (ctx', Ok(Some(x)))
    ensures Inbound(hs + [h], ctx, y) == h.inbound(ctx', x)
    decreases |hs|
  {
    if hs == [] {
      assert hs + [h] == [h] && [h][1..] == hs;
    } else {
      var (mid, out) := hs[0].inbound(ctx, y);
      InboundSnoc(hs[1..], h, mid, out.value.value, ctx', x);
      assert (hs + [h])[1..] == hs[1..] + [h];
    }
  }

  /** A pipeline undoes itself: what went out comes back in, and the context is what it was. */
  lemma {:induction false} PipelineUndoes(hs: seq<Handler>, ctx: Context, x: seq<byte>, ctx': Context, y: seq<byte>)
    requires EachUndoes(hs, ctx, x) && Outbound(hs, ctx, x) == (ctx', Ok(Some(y)))
    ensures Inbound(hs, ctx', y) == (ctx, Ok(Some(x)))
    decreases |hs|
  {
    if hs != [] {
      var h, front := hs[|hs| - 1], hs[..|hs| - 1];
      var (mid, z) := h.outbound(ctx, x);
      PipelineUndoes(front, mid, z.value.value, ctx', y);
      InboundSnoc(front, h, ctx', y, mid, z.value.value);
      assert hs == front + [h];
    }
  }

  /** Inbound data meets the handlers from the first to the last, each with the context the one before
      left, and meets no more once one swallows it or fails. */
  lemma {:induction false} InboundOrder(hs: seq<Handler>, hs': seq<Handler>, ctx: Context, data: seq<byte>)
    ensures Inbound([], ctx, data) == (ctx, Ok(Some(data)))
    ensures forall h: Handler :: Inbound([h], ctx, data) == h.inbound(ctx, data)
    ensures var (ctx', out) := Inbound(hs, ctx, data);
      Inbound(hs + hs', ctx, data) == if Forwards(out) then Inbound(hs', ctx', out.value.value) else (ctx', out)
    decreases |hs|
  {
    forall h: Handler ensures Inbound([h], ctx, data) == h.inbound(ctx, data) {
      assert [h][1..] == [];
    }
    if hs == [] {
      assert hs + hs' == hs';
    } else {
      var (mid, out) := hs[0].inbound(ctx, data);
      assert (hs + hs')[1..] == hs[1..] + hs';
      if Forwards(out) {
        InboundOrder(hs[1..], hs', mid, out.value.value);
      }
    }
  }

  /** Outbound data meets them from the last to the first. */
  lemma {:induction false} OutboundOrder(hs: seq<Handler>, hs': seq<Handler>, ctx: Context, data: seq<byte>)
    ensures Outbound([], ctx, data) == (ctx, Ok(Some(data)))
    ensures forall h: Handler :: Outbound([h], ctx, data) == h.outbound(ctx, data)
    ensures var (ctx', out) := Outbound(hs', ctx, data);
      Outbound(hs + hs', ctx, data) == if Forwards(out) then Outbound(hs, ctx', out.value.value) else (ctx', out)
    decreases |hs'|
  {
    forall h: Handler ensures Outbound([h], ctx, data) == h.outbound(ctx, data) {
      assert [h][..0] == [];
    }
    if hs' == [] {
      assert hs + hs' == hs;
    } else {
      var last := |hs'| - 1;
      var (mid, out) := hs'[last].outbound(ctx, data);
      assert (hs + hs')[..|hs| + last] == hs + hs'[..last];
      if Forwards(out) {
        OutboundOrder(hs, hs'[..last], mid, out.value.value);
      }
    }
  }

  // ---------------------------------------------------------------------
  // Editing
  // ---------------------------------------------------------------------

  datatype Edit = AddLast(handler: Handler) | AddBefore(before: string, handler: Handler) | Remove(name: string)

  function IndexOf(hs: seq<Handler>, name: string): (r: Option<nat>)
    ensures r.Some? ==> r.value < |hs| && hs[r.value].name == name
    ensures r.Some? ==> forall i :: 0 <= i < r.value ==> hs[i].name != name
    ensures r.None? ==> forall i :: 0 <= i < |hs| ==> hs[i].name != name
  {
    if hs == [] then None
    else if hs[0].name == name then Some(0)
    else
      var rest := IndexOf(hs[1..], name);
      if rest.None? then None else Some(rest.value + 1)
  }

  /** An edit that names a handler that is not there changes nothing. */
  function Edited(hs: seq<Handler>, e: Edit): (r: seq<Handler>) {
    match e
    case AddLast(h) => hs + [h]
    case AddBefore(name, h) =>
      var at := IndexOf(hs, name);
      if at.None? then hs else hs[..at.value] + [h] + hs[at.value..]
    case Remove(name) =>
      var at := IndexOf(hs, name);
      if at.None? then hs else hs[..at.value] + hs[at.value + 1..]
  }

  function Built(edits: seq<Edit>): seq<Handler> {
    if edits == [] then [] else Edited(Built(edits[..|edits| - 1]), edits[|edits| - 1])
  }

  /** Where the edits put and take handlers: at the end, in front of the first of the name, and the first
      of the name. */
  lemma EditsInPlace(front: seq<Handler>, h: Handler, back: seq<Handler>, new': Handler)
    requires forall f <- front :: f.name != h.name
    ensures Edited(front, AddLast(h)) == front + [h]
    ensures Edited(front + [h] + back, AddBefore(h.name, new')) == front + [new'] + [h] + back
    ensures Edited(front + [h] + back, Remove(h.name)) == front + back
    ensures Edited(front, AddBefore(h.name, new')) == front && Edited(front, Remove(h.name)) == front
  {
    hide IndexOf;
    FirstOfName(front, h, back);
    var all := front + [h] + back;
    assert all[..|front|] == front && all[|front|..] == [h] + back && all[|front| + 1..] == back;
    assert front + [new'] + ([h] + back) == front + [new'] + [h] + back;
  }

  lemma FirstOfName(front: seq<Handler>, h: Handler, back: seq<Handler>)
    requires forall f <- front :: f.name != h.name
    ensures IndexOf(front + [h] + back, h.name) == Some(|front|) && IndexOf(front, h.name) == None
  {
    var all := front + [h] + back;
    assert all[|front|] == h;
    assert forall i :: 0 <= i < |front| ==> all[i] == front[i] && front[i] in front;
  }

  /** A handler that takes back everything it sends on. */
  ghost predicate Undoes(h: Handler) {
    forall ctx, x :: UndoesAt(h, ctx, x)
  }

  /** The handlers of a pipeline are among those that were added. */
  lemma {:induction false} BuiltFrom(edits: seq<Edit>, h: Handler)
    requires h in Built(edits)
    ensures exists e <- edits :: !e.Remove? && e.handler == h
  {
    var init, last := edits[..|edits| - 1], edits[|edits| - 1];
    if h in Built(init) {
      BuiltFrom(init, h);
    } else {
      assert last in edits && !last.Remove? && last.handler == h;
    }
  }

  class ChannelPipeline {
    var handlers: seq<Handler>
    var ctx: Context

    constructor (protocolVersion: nat)
      ensures handlers == [] && ctx == Context(-1, protocolVersion)
    {
      handlers, ctx := [], Context(-1, protocolVersion);
    }

    method AddLast(handler: Handler)
      modifies this
      ensures ctx == old(ctx) && handlers == Edited(old(handlers), Edit.AddLast(handler))
    {
      handlers := handlers + [handler];
    }

    method Position(name: string) returns (at: Option<nat>)
      ensures at == IndexOf(handlers, name)
    {
      for i := 0 to |handlers|
        invariant IndexOf(handlers, name)
               == var rest := IndexOf(handlers[i..], name); if rest.None? then None else Some(i + rest.value)
      {
        assert handlers[i..][1..] == handlers[i + 1..];
        if handlers[i].name == name {
          return Some(i);
        }
      }
      return None;
    }

    method AddBefore(before: string, handler: Handler) returns (found: bool)
      modifies this
      ensures ctx == old(ctx) && handlers == Edited(old(handlers), Edit.AddBefore(before, handler))
      ensures found <==> exists h <- old(handlers) :: h.name == before
    {
      var at := Position(before);
      if at.None? {
        return false;
      }
      handlers := handlers[..at.value] + [handler] + handlers[at.value..];
      return true;
    }

    method Remove(name: string) returns (found: bool)
      modifies this
      ensures ctx == old(ctx) && handlers == Edited(old(handlers), Edit.Remove(name))
      ensures found <==> exists h <- old(handlers) :: h.name == name
    {
      var at := Position(name);
      if at.None? {
        return false;
      }
      handlers := handlers[..at.value] + handlers[at.value + 1..];
      return true;
    }

    method EnableCompression(threshold: int)
      modifies this
      ensures handlers == old(handlers) && ctx == old(ctx).(compressionThreshold := threshold)
    {
      ctx := ctx.(compressionThreshold := threshold);
    }

    method ProcessInbound(input: seq<byte>) returns (r: Handled)
      modifies this
      ensures handlers == old(handlers) && (ctx, r) == Inbound(handlers, old(ctx), input)
    {
      var data := input;
      for i := 0 to |handlers|
        invariant handlers == old(handlers)
        invariant Inbound(handlers, old(ctx), input) == Inbound(handlers[i..], ctx, data)
      {
        assert handlers[i..][1..] == handlers[i + 1..];
        var (changed, out) := handlers[i].inbound(ctx, data);
        ctx := changed;
        if out.Err? {
          return Err(out.error);
        }
        if out.value.None? {
          return Ok(None);
        }
        data := out.value.value;
      }
      return Ok(Some(data));
    }

    method ProcessOutbound(input: seq<byte>) returns (r: Handled)
      modifies this
      ensures handlers == old(handlers) && (ctx, r) == Outbound(handlers, old(ctx), input)
    {
      var data := input;
      assert handlers[..|handlers|] == handlers;
      for i := |handlers| downto 0
        invariant handlers == old(handlers)
        invariant Outbound(handlers, old(ctx), input) == Outbound(handlers[..i], ctx, data)
      {
        assert handlers[..i + 1][..i] == handlers[..i];
        var (changed, out) := handlers[i].outbound(ctx, data);
        ctx := changed;
        if out.Err? {
          return Err(out.error);
        }
        if out.value.None? {
          return Ok(None);
        }
        data := out.value.value;
      }
      return Ok(Some(data));
    }
  }

  // ---------------------------------------------------------------------
  // Compression
  // ---------------------------------------------------------------------

  const MAX_UNCOMPRESSED := 0x200_0000

  datatype Zlib = Zlib(compress: seq<byte> -> seq<byte>, decompress: seq<byte> -> Option<seq<byte>>)

  /** Inflating a deflated stream gives the data back (RFC 1950), and no stream is empty. */
  ghost predicate ZlibLaw(z: Zlib) {
    forall x :: z.decompress(z.compress(x)) == Some(x) && z.compress(x) != []
  }

  function Deflated(z: Zlib, ctx: Context, data: seq<byte>): (r: Handled)
  {
    if ctx.compressionThreshold < 0 then Ok(Some(data))
    else if VarNum.Width.Int32.ToSigned(|data|) < ctx.compressionThreshold then
      Ok(Some(VarNum.Encode(VarNum.Int32, 0) + data))
    else Ok(Some(VarNum.Encode(VarNum.Int32, |data|) + z.compress(data)))
  }

  function Inflated(z: Zlib, data: seq<byte>): (r: Handled)
  {
    match VarNum.Decode(VarNum.Int32, data)
    case Err(e) => Err(Protocol(e))
    case Ok((n, rest)) =>
      if n == 0 then Ok(Some(rest))
      else if n < 0 || n > MAX_UNCOMPRESSED then Err(InvalidDataLength(n))
      else
        var d := z.decompress(rest);
        if d.None? then Err(Compression) else Ok(Some(d.value))
  }

  /** What is sent: the payload as it is with compression off, behind a zero byte when its length is
      under the threshold, and otherwise compressed behind its length. */
  lemma DeflatedForms(z: Zlib, ctx: Context, x: seq<byte>)
    ensures ctx.compressionThreshold < 0 ==> Deflated(z, ctx, x) == Ok(Some(x))
    ensures var announced := if |x| < 0x8000_0000 then |x| else VarNum.Width.Int32.ToSigned(|x|);
      0 <= ctx.compressionThreshold ==>
        Deflated(z, ctx, x) ==
          if announced < ctx.compressionThreshold then Ok(Some([0] + x))
          else Ok(Some(VarNum.Encode(VarNum.Int32, |x|) + z.compress(x)))
  {
    VarNum.KnownEncodings();
    hide VarNum.Encode;
    assert |x| < 0x8000_0000 ==> VarNum.Width.Int32.ToSigned(|x|) == |x|;
  }

  /** What is made of a header and what follows it. */
  lemma InflatedForms(z: Zlib, n: i32, rest: seq<byte>)
    ensures var r := Inflated(z, VarNum.Encode(VarNum.Int32, n) + rest);
      && (n == 0 ==> r == Ok(Some(rest)))
      && (n < 0 || n > 33554432 ==> r == Err(InvalidDataLength(n)))
      && (1 <= n <= 33554432 ==> r == match z.decompress(rest) case None => Err(Compression) case Some(x) => Ok(Some(x)))
    ensures Inflated(z, []) == Err(Protocol(UnexpectedEof))
  {
    hide VarNum.Encode, VarNum.Decode;
    VarNum.RoundTrip(VarNum.Int32, n, rest);
    assert VarNum.Decode(VarNum.Int32, []) == Err(UnexpectedEof) by { NothingRead(); }
  }

  lemma NothingRead()
    ensures VarNum.Decode(VarNum.Int32, []) == Err(UnexpectedEof)
  {
  }

  function CompressionHandler(z: Zlib): Handler {
    Handler("compression", (ctx, data) => (ctx, Inflated(z, data)), (ctx, data) => (ctx, Deflated(z, ctx, data)))
  }

  /** The payloads the handler takes back. With compression off the payload goes out as it is and is
      then read as header and stream; otherwise, by the length as the header holds it: those under the
      threshold, those of one byte to 32 MiB, and a fixed point of zlib announced with length zero. */
  predicate Survives(z: Zlib, ctx: Context, x: seq<byte>) {
    if ctx.compressionThreshold < 0 then
      match VarNum.Decode(VarNum.Int32, x)
      case Err(_) => false
      case Ok((n, rest)) => 1 <= n <= MAX_UNCOMPRESSED && z.decompress(rest) == Some(x)
    else
      var n := VarNum.Width.Int32.ToSigned(|x|);
      || n < ctx.compressionThreshold
      || 1 <= n <= MAX_UNCOMPRESSED
      || (n == 0 && z.compress(x) == x)
  }

  /** The handler undoes itself on exactly these, for every threshold and every payload. */
  lemma CompressionUndoesExactly(z: Zlib, ctx: Context, x: seq<byte>)
    requires ZlibLaw(z)
    ensures UndoesAt(CompressionHandler(z), ctx, x) <==> Survives(z, ctx, x)
  {
    hide VarNum.Encode, VarNum.Decode, VarNum.Width.ToSigned;
    var h := CompressionHandler(z);
    assert h.outbound(ctx, x) == (ctx, Deflated(z, ctx, x));
    var y := Deflated(z, ctx, x).value.value;
    assert h.inbound(ctx, y) == (ctx, Inflated(z, y));
    if ctx.compressionThreshold >= 0 {
      if VarNum.Width.Int32.ToSigned(|x|) < ctx.compressionThreshold {
        VarNum.RoundTrip(VarNum.Int32, 0, x);
      } else {
        VarNum.LengthHeader(|x|, z.compress(x));
      }
    }
  }

  /** With compression on, and for payloads whose length a header can hold: one byte to 32 MiB, or
      under the threshold. The empty payload is lost at threshold zero, where it is announced with
      the length that means "not compressed". */
  lemma SurvivesByLength(z: Zlib, ctx: Context, x: seq<byte>)
    requires ZlibLaw(z) && ctx.compressionThreshold >= 0 && |x| < 0x8000_0000
    ensures Survives(z, ctx, x) <==> |x| < ctx.compressionThreshold || 1 <= |x| <= MAX_UNCOMPRESSED
  {
    assert VarNum.Width.Int32.ToSigned(|x|) == |x|;
  }

  // ---------------------------------------------------------------------
  // Compression in a pipeline
  // ---------------------------------------------------------------------

  /** While `x` goes out, compression is handed only what it takes back. */
  ghost predicate CompressionFits(hs: seq<Handler>, z: Zlib, ctx: Context, x: seq<byte>) {
    hs == [] ||
    var h := hs[|hs| - 1];
    var (ctx', y) := h.outbound(ctx, x);
    && (h == CompressionHandler(z) ==> Survives(z, ctx, x))
    && (Forwards(y) ==> CompressionFits(hs[..|hs| - 1], z, ctx', y.value.value))
  }

  lemma {:induction false} FitsUndoes(hs: seq<Handler>, z: Zlib, ctx: Context, x: seq<byte>)
    requires ZlibLaw(z) && CompressionFits(hs, z, ctx, x)
    requires forall h <- hs :: Undoes(h) || h == CompressionHandler(z)
    ensures EachUndoes(hs, ctx, x)
    decreases |hs|
  {
    hide ZlibLaw, Survives, UndoesAt, CompressionHandler;
    if hs != [] {
      var h := hs[|hs| - 1];
      assert h in hs;
      CompressionUndoesExactly(z, ctx, x);
      var (ctx', y) := h.outbound(ctx, x);
      if Forwards(y) {
        FitsUndoes(hs[..|hs| - 1], z, ctx', y.value.value);
      }
    }
  }

  /** Any pipeline built by any edits from compression handlers and handlers that undo themselves
      gives back what it sent, as long as what reaches compression is what compression takes back. */
  lemma AnyBuiltPipelineUndoes(edits: seq<Edit>, z: Zlib, ctx: Context, x: seq<byte>, ctx': Context, y: seq<byte>)
    requires ZlibLaw(z)
    requires forall e <- edits :: !e.Remove? ==> Undoes(e.handler) || e.handler == CompressionHandler(z)
    requires CompressionFits(Built(edits), z, ctx, x)
    requires Outbound(Built(edits), ctx, x) == (ctx', Ok(Some(y)))
    ensures Inbound(Built(edits), ctx', y) == (ctx, Ok(Some(x)))
  {
    hide Undoes, CompressionHandler, CompressionFits, Outbound, Inbound, ZlibLaw;
    var hs := Built(edits);
    forall h <- hs ensures Undoes(h) || h == CompressionHandler(z) {
      BuiltFrom(edits, h);
    }
    FitsUndoes(hs, z, ctx, x);
    PipelineUndoes(hs, ctx, x, ctx', y);
  }

  /** The pipeline of the source's own handler alone: exactly the surviving payloads come back. */
  lemma CompressionPipelineExactly(z: Zlib, ctx: Context, x: seq<byte>)
    requires ZlibLaw(z)
    ensures var hs := Built([AddLast(CompressionHandler(z))]);
      var (ctx', out) := Outbound(hs, ctx, x);
      && Forwards(out)
      && (Inbound(hs, ctx', out.value.value) == (ctx, Ok(Some(x))) <==> Survives(z, ctx, x))
  {
    hide ZlibLaw, Survives;
    var h := CompressionHandler(z);
    var edits := [AddLast(h)];
    assert edits[..0] == [];
    assert Built(edits) == [h];
    assert [h][..0] == [] && [h][1..] == [];
    CompressionUndoesExactly(z, ctx, x);
  }

  /** `CompressionHandler::handle_inbound` over its cursor. */
  method HandleInbound(z: Zlib, data: seq<byte>) returns (r: Handled)
    ensures r == Inflated(z, data)
  {
    hide VarNum.Decode;
    var cursor := new Source(data);
    var length := VarNum.DecodeFrom(VarNum.Int32, cursor);
    if length.Err? {
      return Err(Protocol(length.error));
    }
    if length.value == 0 {
      return Ok(Some(cursor.rest));
    }
    if length.value < 0 || length.value > MAX_UNCOMPRESSED {
      return Err(InvalidDataLength(length.value));
    }
    var decompressed := z.decompress(cursor.rest);
    return if decompressed.None? then Err(Compression) else Ok(Some(decompressed.value));
  }

  /** `CompressionHandler::handle_outbound` into its buffer. */
  method HandleOutbound(z: Zlib, ctx: Context, data: seq<byte>) returns (r: Handled)
    ensures r == Deflated(z, ctx, data)
  {
    hide VarNum.Encode;
    if ctx.compressionThreshold < 0 {
      return Ok(Some(data));
    }
    var out := new Buffer();
    if VarNum.Width.Int32.ToSigned(|data|) < ctx.compressionThreshold {
      VarNum.EncodeTo(VarNum.Int32, 0, out);
      assert out.data == VarNum.Encode(VarNum.Int32, 0);
      out.data := out.data + data;
    } else {
      VarNum.EncodeTo(VarNum.Int32, |data|, out);
      assert out.data == VarNum.Encode(VarNum.Int32, |data|);
      out.data := out.data + z.compress(data);
    }
    return Ok(Some(out.data));
  }
}
