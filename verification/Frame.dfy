/** The length-prefixed, optionally encrypted frame codec. */
module Frame {
  import opened Bytes
  import opened Cipher
  import VarNum

  const MAX_FRAME := 0x20_0000

  type Payload = seq<byte>

  // ---------------------------------------------------------------------
  // Framing of a plaintext
  // ---------------------------------------------------------------------

  /** What the front of a plaintext buffer holds. */
  datatype Front = Whole(payload: Payload, rest: seq<byte>) | Partial | Bad(length: int)

  function Peek(bs: seq<byte>): (f: Front)
    ensures f.Whole? ==> |f.rest| < |bs|
  {
    match VarNum.Decode(VarNum.Int32, bs)
    case Err(_) => Partial
    case Ok((n, rest)) =>
      if n < 0 || n > MAX_FRAME then Bad(n)
      else if |rest| < n then Partial
      else Whole(rest[..n], rest[n..])
  }

  /** Everything a complete plaintext holds: its frames, then the length that broke it, if any. */
  datatype Content = Content(frames: seq<Payload>, error: Option<int>)

  function Parse(bs: seq<byte>): (c: Content)
    decreases |bs|
  {
    match Peek(bs)
    case Whole(p, rest) => var c := Parse(rest); Content([p] + c.frames, c.error)
    case Partial => Content([], None)
    case Bad(n) => Content([], Some(n))
  }

  function EncodeFrame(p: Payload): seq<byte> {
    VarNum.Encode(VarNum.Int32, |p|) + p
  }

  function EncodeFrames(ps: seq<Payload>): seq<byte> {
    if ps == [] then [] else EncodeFrame(ps[0]) + EncodeFrames(ps[1..])
  }

  ghost predicate Fits(ps: seq<Payload>) {
    forall i :: 0 <= i < |ps| ==> |ps[i]| <= MAX_FRAME
  }

  /** Reading the frames `fs` off the front of `bs` leaves `rest`. */
  predicate Yields(bs: seq<byte>, fs: seq<Payload>, rest: seq<byte>)
    decreases |fs|
  {
    if fs == [] then bs == rest
    else
      var f := Peek(bs);
      f.Whole? && f.payload == fs[0] && Yields(f.rest, fs[1..], rest)
  }

  lemma PeekExtend(bs: seq<byte>, more: seq<byte>)
    ensures match Peek(bs)
      case Whole(p, rest) => Peek(bs + more) == Whole(p, rest + more)
      case Bad(n) => Peek(bs + more) == Bad(n)
      case Partial => true
  {
    VarNum.DecodeExtend(VarNum.Int32, bs, more);
    match VarNum.Decode(VarNum.Int32, bs)
    case Err(_) =>
    case Ok((n, rest)) =>
      if 0 <= n <= |rest| {
        assert (rest + more)[..n] == rest[..n];
        assert (rest + more)[n..] == rest[n..] + more;
      }
  }

  /** The front of any buffer: a whole frame is a length of up to 2 MiB, spelled in any accepted way,
      and that many bytes; any other length that is spelled out is refused. */
  lemma PeekExactly(bs: seq<byte>, p: Payload, n: int, rest: seq<byte>)
    ensures Peek(bs) == Whole(p, rest) <==>
      |p| <= 2097152 && exists h :: VarNum.Spells(VarNum.Int32, h, |p|) && bs == h + (p + rest)
    ensures Peek(bs) == Bad(n) <==>
      (n < 0 || n > 2097152) && exists h, after :: VarNum.Spells(VarNum.Int32, h, n) && bs == h + after
  {
    hide VarNum.Decode, VarNum.Spells;
    VarNum.DecodeExactly(VarNum.Int32, bs, |p|, p + rest);
    if Peek(bs) == Whole(p, rest) {
      assert VarNum.Decode(VarNum.Int32, bs).value.1 == p + rest;
    }
    if VarNum.Decode(VarNum.Int32, bs) == Ok((|p|, p + rest)) {
      assert (p + rest)[..|p|] == p && (p + rest)[|p|..] == rest;
    }
    if Peek(bs) == Bad(n) {
      VarNum.DecodeExactly(VarNum.Int32, bs, n, VarNum.Decode(VarNum.Int32, bs).value.1);
    }
    forall h, after | VarNum.Spells(VarNum.Int32, h, n) && bs == h + after
      ensures VarNum.Decode(VarNum.Int32, bs) == Ok((n, after))
    {
      VarNum.SpellsDecodes(VarNum.Int32, h, n, after);
    }
  }

  lemma {:induction false} YieldsExtend(bs: seq<byte>, fs: seq<Payload>, rest: seq<byte>, more: seq<byte>)
    requires Yields(bs, fs, rest)
    ensures Yields(bs + more, fs, rest + more)
    decreases |fs|
  {
    if fs != [] {
      PeekExtend(bs, more);
      YieldsExtend(Peek(bs).rest, fs[1..], rest, more);
    }
  }

  lemma {:induction false} YieldsAppend(bs: seq<byte>, fs: seq<Payload>, mid: seq<byte>,
                                        gs: seq<Payload>, rest: seq<byte>)
    requires Yields(bs, fs, mid) && Yields(mid, gs, rest)
    ensures Yields(bs, fs + gs, rest)
    decreases |fs|
  {
    hide Peek;
    if fs == [] {
      assert fs + gs == gs;
    } else {
      YieldsAppend(Peek(bs).rest, fs[1..], mid, gs, rest);
      assert (fs + gs)[1..] == fs[1..] + gs;
    }
  }

  lemma YieldsCompose(bs: seq<byte>, more: seq<byte>, fs: seq<Payload>, mid: seq<byte>,
                      more': seq<byte>, gs: seq<Payload>, rest: seq<byte>)
    requires Yields(bs + more, fs, mid) && Yields(mid + more', gs, rest)
    ensures Yields(bs + (more + more'), fs + gs, rest)
  {
    hide Yields;
    YieldsExtend(bs + more, fs, mid, more');
    assert bs + more + more' == bs + (more + more');
    YieldsAppend(bs + (more + more'), fs, mid + more', gs, rest);
  }

  lemma {:induction false} YieldsParse(bs: seq<byte>, fs: seq<Payload>, rest: seq<byte>)
    requires Yields(bs, fs, rest)
    ensures Parse(bs) == Content(fs + Parse(rest).frames, Parse(rest).error)
    decreases |fs|
  {
    hide Peek;
    if fs == [] {
      assert fs + Parse(rest).frames == Parse(rest).frames;
    } else {
      YieldsParse(Peek(bs).rest, fs[1..], rest);
      assert fs + Parse(rest).frames == [fs[0]] + (fs[1..] + Parse(rest).frames);
    }
  }

  lemma {:induction false} YieldsUnique(bs: seq<byte>, fs: seq<Payload>, rest: seq<byte>, rest': seq<byte>)
    requires Yields(bs, fs, rest) && Yields(bs, fs, rest')
    ensures rest == rest'
    decreases |fs|
  {
    if fs != [] {
      YieldsUnique(Peek(bs).rest, fs[1..], rest, rest');
    }
  }

  /** What the header of a payload comes out as: the low 32 bits of its length, signed. */
  function Announced(p: Payload): int {
    VarNum.Width.Int32.ToSigned(|p|)
  }

  /** The header announces a length the reader refuses. */
  predicate Refused(p: Payload) {
    Announced(p) < 0 || Announced(p) > MAX_FRAME
  }

  /** The writer frames any payload. The reader refuses it by what its header announces, and otherwise
      takes that many bytes: the whole payload, up to its cap, and the front of one of 4 GiB or more. */
  lemma PeekWritten(p: Payload, tail: seq<byte>)
    ensures var n := Announced(p);
      Peek(EncodeFrame(p) + tail) == if Refused(p) then Bad(n) else Whole(p[..n], p[n..] + tail)
  {
    hide VarNum.Encode, VarNum.Decode;
    var n := Announced(p);
    VarNum.LengthHeader(|p|, p + tail);
    assert EncodeFrame(p) + tail == VarNum.Encode(VarNum.Int32, |p|) + (p + tail);
    assert n <= |p|;
    if 0 <= n {
      assert (p + tail)[..n] == p[..n] && (p + tail)[n..] == p[n..] + tail;
    }
  }

  /** Below 2 GiB: it comes back exactly up to the cap. */
  lemma PeekFrame(p: Payload, tail: seq<byte>)
    requires |p| < 0x8000_0000
    ensures Peek(EncodeFrame(p) + tail) == if |p| <= MAX_FRAME then Whole(p, tail) else Bad(|p|)
  {
    hide Peek, EncodeFrame;
    PeekWritten(p, tail);
    assert Announced(p) == |p| && p[..|p|] == p && p[|p|..] + tail == tail;
  }

  lemma {:induction false} EncodedYields(ps: seq<Payload>, suffix: seq<byte>)
    requires Fits(ps)
    ensures Yields(EncodeFrames(ps) + suffix, ps, suffix)
    decreases |ps|
  {
    hide Peek, EncodeFrame;
    if ps == [] {
      assert EncodeFrames(ps) + suffix == suffix;
    } else {
      var tail := EncodeFrames(ps[1..]) + suffix;
      PeekFrame(ps[0], tail);
      assert EncodeFrames(ps) + suffix == EncodeFrame(ps[0]) + tail;
      EncodedYields(ps[1..], suffix);
    }
  }

  // ---------------------------------------------------------------------
  // The decoder
  // ---------------------------------------------------------------------

  /** The codec's fields together with the caller's read buffer. */
  datatype Decoder<S> = Decoder(cipher: Option<Registers<S>>, decrypted: nat, buffer: seq<byte>) {
    predicate Valid() {
      decrypted <= |buffer| && (cipher.None? ==> decrypted == 0)
    }
  }

  datatype Output = Got(frame: Payload) | NotYet | Failed(length: int)

  /** Decrypt the bytes that arrived since the last call. */
  function CatchUp<S>(a: Algorithm<S>, d: Decoder<S>): (d': Decoder<S>)
    requires d.Valid()
    ensures d'.Valid()
  {
    if d.cipher.Some? && d.decrypted < |d.buffer| then
      var (s, plain) := Stream(a.decrypt, d.cipher.value.dec, d.buffer[d.decrypted..]);
      Decoder(Some(d.cipher.value.(dec := s)), |d.buffer|, d.buffer[..d.decrypted] + plain)
    else d
  }

  function DecodeStep<S>(a: Algorithm<S>, d: Decoder<S>): (r: (Decoder<S>, Output))
    requires d.Valid()
    ensures r.0.Valid()
  {
    var d1 := CatchUp(a, d);
    match Peek(d1.buffer)
    case Partial => (d1, NotYet)
    case Bad(n) => (d1, Failed(n))
    case Whole(p, rest) =>
      var consumed := |d1.buffer| - |rest|;
      (Decoder(d1.cipher, if d1.decrypted < consumed then 0 else d1.decrypted - consumed, rest), Got(p))
  }

  /** The plaintext of bytes that go through the registers `c` (or through none). */
  function Plain<S>(a: Algorithm<S>, c: Option<Registers<S>>, bs: seq<byte>): (p: seq<byte>) {
    if c.None? then bs else Stream(a.decrypt, c.value.dec, bs).1
  }

  lemma PlainNothing<S>(a: Algorithm<S>, c: Option<Registers<S>>)
    ensures Plain(a, c, []) == []
  {
  }

  /** The registers after decrypting `bs`. */
  function Advance<S>(a: Algorithm<S>, c: Option<Registers<S>>, bs: seq<byte>): (c': Option<Registers<S>>) {
    if c.None? then c else Some(c.value.(dec := Stream(a.decrypt, c.value.dec, bs).0))
  }

  /** The registers once everything in the buffer has been decrypted. */
  function Future<S>(a: Algorithm<S>, d: Decoder<S>): Option<Registers<S>>
    requires d.Valid()
  {
    Advance(a, d.cipher, d.buffer[d.decrypted..])
  }

  /** The plaintext the buffer stands for. */
  function View<S>(a: Algorithm<S>, d: Decoder<S>): seq<byte>
    requires d.Valid()
  {
    d.buffer[..d.decrypted] + Plain(a, d.cipher, d.buffer[d.decrypted..])
  }

  lemma CatchUpView<S>(a: Algorithm<S>, d: Decoder<S>)
    requires d.Valid()
    ensures CatchUp(a, d).buffer == View(a, d) == View(a, CatchUp(a, d))
    ensures Future(a, CatchUp(a, d)) == Future(a, d) == CatchUp(a, d).cipher
    ensures d.cipher.Some? ==> CatchUp(a, d).decrypted == |CatchUp(a, d).buffer|
  {
    var d1 := CatchUp(a, d);
    assert d.buffer == d.buffer[..d.decrypted] + d.buffer[d.decrypted..];
    if d.cipher.Some? {
      assert d1.buffer[d1.decrypted..] == [];
      assert d1.buffer == d1.buffer[..d1.decrypted];
    }
  }

  /** One call of the decoder, seen through the plaintext the buffer stands for. */
  lemma DecodeView<S>(a: Algorithm<S>, d: Decoder<S>)
    requires d.Valid()
    ensures var (d', out) := DecodeStep(a, d);
      && Future(a, d') == Future(a, d)
      && match Peek(View(a, d))
         case Whole(p, rest) => out == Got(p) && View(a, d') == rest
         case Partial => out == NotYet && View(a, d') == View(a, d)
         case Bad(n) => out == Failed(n) && View(a, d') == View(a, d)
  {
    CatchUpView(a, d);
    var d' := DecodeStep(a, d).0;
    if DecodeStep(a, d).1.Got? {
      assert d'.buffer[d'.decrypted..] == [] || d'.cipher.None?;
      assert d'.buffer == d'.buffer[..d'.decrypted] + d'.buffer[d'.decrypted..];
    }
  }

  lemma AdvanceConcat<S>(a: Algorithm<S>, c: Option<Registers<S>>, x: seq<byte>, y: seq<byte>)
    ensures Plain(a, c, x + y) == Plain(a, c, x) + Plain(a, Advance(a, c, x), y)
    ensures Advance(a, c, x + y) == Advance(a, Advance(a, c, x), y)
  {
    if c.Some? {
      StreamConcat(a.decrypt, c.value.dec, x, y);
    }
  }

  // ---------------------------------------------------------------------
  // Runs
  // ---------------------------------------------------------------------

  datatype Event = Arrive(chunk: seq<byte>) | Call

  function Apply<S>(a: Algorithm<S>, d: Decoder<S>, e: Event): (r: (Decoder<S>, seq<Output>))
    requires d.Valid()
    ensures r.0.Valid()
  {
    match e
    case Arrive(chunk) => (d.(buffer := d.buffer + chunk), [])
    case Call => var (d', out) := DecodeStep(a, d); (d', [out])
  }

  /** Any interleaving of arriving chunks and decoder calls. */
  function Run<S>(a: Algorithm<S>, d: Decoder<S>, es: seq<Event>): (r: (Decoder<S>, seq<Output>))
    requires d.Valid()
    ensures r.0.Valid()
    decreases |es|
  {
    if es == [] then (d, [])
    else
      var (d1, out1) := Apply(a, d, es[0]);
      var (d2, out2) := Run(a, d1, es[1..]);
      (d2, out1 + out2)
  }

  /** The bytes that arrive during a run. */
  function Wire(es: seq<Event>): seq<byte> {
    if es == [] then [] else Chunk(es[0]) + Wire(es[1..])
  }

  function Chunk(e: Event): seq<byte> {
    if e.Arrive? then e.chunk else []
  }

  function Emitted(outs: seq<Output>): seq<Payload> {
    if outs == [] then []
    else (if outs[0].Got? then [outs[0].frame] else []) + Emitted(outs[1..])
  }

  lemma ApplyInvariant<S>(a: Algorithm<S>, d: Decoder<S>, e: Event)
    requires d.Valid()
    ensures var (d', outs) := Apply(a, d, e);
      && Future(a, d') == Advance(a, Future(a, d), Chunk(e))
      && Yields(View(a, d) + Plain(a, Future(a, d), Chunk(e)), Emitted(outs), View(a, d'))
  {
    match e
    case Arrive(chunk) =>
      var d' := Apply(a, d, e).0;
      assert d'.buffer[d'.decrypted..] == d.buffer[d.decrypted..] + chunk;
      assert d'.buffer[..d'.decrypted] == d.buffer[..d.decrypted];
      AdvanceConcat(a, d.cipher, d.buffer[d.decrypted..], chunk);
      assert View(a, d') == View(a, d) + Plain(a, Future(a, d), chunk);
    case Call =>
      DecodeView(a, d);
      var out := DecodeStep(a, d).1;
      assert Chunk(e) == [];
      assert View(a, d) + Plain(a, Future(a, d), []) == View(a, d);
      assert [out][1..] == [];
      assert Emitted([out]) == if out.Got? then [out.frame] else [];
  }

  lemma {:induction false} EmittedConcat(x: seq<Output>, y: seq<Output>)
    ensures Emitted(x + y) == Emitted(x) + Emitted(y)
  {
    if x == [] {
      assert x + y == y;
    } else {
      EmittedConcat(x[1..], y);
      assert (x + y)[1..] == x[1..] + y;
      var first := if x[0].Got? then [x[0].frame] else [];
      assert first + (Emitted(x[1..]) + Emitted(y)) == first + Emitted(x[1..]) + Emitted(y);
    }
  }

  /** What every run keeps: each byte that arrived has gone or will go through the cipher exactly
      once, and the frames handed out plus the plaintext still in the buffer are the plaintext that
      arrived. */
  lemma {:induction false} RunInvariant<S>(a: Algorithm<S>, d: Decoder<S>, es: seq<Event>)
    requires d.Valid()
    ensures var (d', outs) := Run(a, d, es);
      && Future(a, d') == Advance(a, Future(a, d), Wire(es))
      && Yields(View(a, d) + Plain(a, Future(a, d), Wire(es)), Emitted(outs), View(a, d'))
    decreases |es|
  {
    var f := Future(a, d);
    if es == [] {
      assert View(a, d) + Plain(a, f, []) == View(a, d);
    } else {
      hide Peek, Yields, Plain, Advance, Apply, View, Future, Chunk;
      var (d1, out1) := Apply(a, d, es[0]);
      var (d2, out2) := Run(a, d1, es[1..]);
      var w1, w2 := Chunk(es[0]), Wire(es[1..]);
      ApplyInvariant(a, d, es[0]);
      RunInvariant(a, d1, es[1..]);
      AdvanceConcat(a, f, w1, w2);
      YieldsCompose(View(a, d), Plain(a, f, w1), Emitted(out1), View(a, d1),
                    Plain(a, Future(a, d1), w2), Emitted(out2), View(a, d2));
      EmittedConcat(out1, out2);
    }
  }

  function Fresh<S>(c: Option<Registers<S>>): (d: Decoder<S>)
    ensures d.Valid()
  {
    Decoder(c, 0, [])
  }

  lemma FreshView<S>(a: Algorithm<S>, c: Option<Registers<S>>, bs: seq<byte>)
    ensures View(a, Fresh(c)) + Plain(a, Future(a, Fresh(c)), bs) == Plain(a, c, bs)
  {
  }

  /** A run that ends with a call that hands out no frame. */
  predicate Drained(es: seq<Event>, outs: seq<Output>) {
    es != [] && es[|es| - 1] == Call && outs != [] && !outs[|outs| - 1].Got?
  }

  lemma {:induction false} RunConcat<S>(a: Algorithm<S>, d: Decoder<S>, es: seq<Event>, es': seq<Event>)
    requires d.Valid()
    ensures var (d1, outs1) := Run(a, d, es);
      var (d2, outs2) := Run(a, d1, es');
      Run(a, d, es + es') == (d2, outs1 + outs2)
    decreases |es|
  {
    hide Apply;
    var (d2, outs2) := Run(a, Run(a, d, es).0, es');
    if es == [] {
      assert es + es' == es';
      assert [] + outs2 == outs2;
    } else {
      var (d1, out1) := Apply(a, d, es[0]);
      RunConcat(a, d1, es[1..], es');
      assert (es + es')[1..] == es[1..] + es';
      assert out1 + (Run(a, d1, es[1..]).1 + outs2) == out1 + Run(a, d1, es[1..]).1 + outs2;
    }
  }

  lemma RunOne<S>(a: Algorithm<S>, d: Decoder<S>, e: Event)
    requires d.Valid()
    ensures Run(a, d, [e]) == Apply(a, d, e)
  {
    var es := [e];
    assert es[1..] == [];
    assert Apply(a, d, e).1 + [] == Apply(a, d, e).1;
  }

  /** A drained run has told everything its bytes hold: the frames, and whether they end in a stall
      or in an error, are those of the concatenated bytes, however they were split. */
  lemma DrainedRunIsParse<S>(a: Algorithm<S>, c: Option<Registers<S>>, es: seq<Event>)
    requires Drained(es, Run(a, Fresh(c), es).1)
    ensures var (d, outs) := Run(a, Fresh(c), es);
      var content := Parse(Plain(a, c, Wire(es)));
      && Emitted(outs) == content.frames
      && outs[|outs| - 1] == if content.error.Some? then Failed(content.error.value) else NotYet
  {
    hide Peek, Yields, DecodeStep, Run, Plain, Wire, Emitted;
    var d0 := Fresh(c);
    var (d, outs) := Run(a, d0, es);
    RunInvariant(a, d0, es);
    FreshView(a, c, Wire(es));
    var init := es[..|es| - 1];
    assert es == init + [Call];
    RunConcat(a, d0, init, [Call]);
    var d1 := Run(a, d0, init).0;
    RunOne(a, d1, Call);
    DecodeView(a, d1);
    YieldsParse(Plain(a, c, Wire(es)), Emitted(outs), View(a, d));
    assert Emitted(outs) + [] == Emitted(outs);
  }

  /** The outcome depends only on the bytes: not on the chunks, nor on when the decoder was called. */
  lemma SplitsDoNotMatter<S>(a: Algorithm<S>, c: Option<Registers<S>>, es: seq<Event>, es': seq<Event>)
    requires Wire(es) == Wire(es')
    requires Drained(es, Run(a, Fresh(c), es).1) && Drained(es', Run(a, Fresh(c), es').1)
    ensures var (outs, outs') := (Run(a, Fresh(c), es).1, Run(a, Fresh(c), es').1);
      Emitted(outs) == Emitted(outs') && outs[|outs| - 1] == outs'[|outs'| - 1]
  {
    DrainedRunIsParse(a, c, es);
    DrainedRunIsParse(a, c, es');
  }

  // ---------------------------------------------------------------------
  // The encoder, and the whole channel
  // ---------------------------------------------------------------------

  /** Encoding one item after another, with the cipher running on from item to item. */
  function EncodeAll<S>(a: Algorithm<S>, c: Option<Registers<S>>, ps: seq<Payload>): (bs: seq<byte>)
    decreases |ps|
  {
    if ps == [] then []
    else
      var frame := EncodeFrame(ps[0]);
      if c.None? then frame + EncodeAll(a, c, ps[1..])
      else
        var (s, bs) := Stream(a.encrypt, c.value.enc, frame);
        bs + EncodeAll(a, Some(c.value.(enc := s)), ps[1..])
  }

  lemma {:induction false} EncodeAllIsStream<S>(a: Algorithm<S>, c: Option<Registers<S>>, ps: seq<Payload>)
    ensures EncodeAll(a, c, ps)
         == if c.None? then EncodeFrames(ps) else Stream(a.encrypt, c.value.enc, EncodeFrames(ps)).1
    decreases |ps|
  {
    if ps != [] {
      var frame := EncodeFrame(ps[0]);
      if c.None? {
        EncodeAllIsStream(a, c, ps[1..]);
      } else {
        var s := Stream(a.encrypt, c.value.enc, frame).0;
        EncodeAllIsStream(a, Some(c.value.(enc := s)), ps[1..]);
        StreamConcat(a.encrypt, c.value.enc, frame, EncodeFrames(ps[1..]));
      }
    }
  }

  /** Both ends hold the same key, so the sender's register starts where the receiver's does. */
  ghost predicate SameKey<S>(sender: Option<Registers<S>>, receiver: Option<Registers<S>>) {
    sender.Some? == receiver.Some? && (sender.Some? ==> sender.value.enc == receiver.value.dec)
  }

  lemma PlainOfEncoded<S(!new)>(a: Algorithm<S>, sender: Option<Registers<S>>, receiver: Option<Registers<S>>,
                                ps: seq<Payload>)
    requires Lawful(a) && SameKey(sender, receiver)
    ensures Plain(a, receiver, EncodeAll(a, sender, ps)) == EncodeFrames(ps)
  {
    EncodeAllIsStream(a, sender, ps);
    if sender.Some? {
      DecryptUndoesEncrypt(a, sender.value.enc, EncodeFrames(ps));
    }
  }

  /** One call, when the buffer holds a first part of the encoding of `ps`. */
  lemma CallOverFrames<S>(a: Algorithm<S>, d: Decoder<S>, tail: seq<byte>, ps: seq<Payload>)
    requires d.Valid() && Fits(ps)
    requires View(a, d) + tail == EncodeFrames(ps)
    ensures var (d', out) := DecodeStep(a, d);
      && Future(a, d') == Future(a, d)
      && !out.Failed?
      && (if out.Got? then ps != [] && out.frame == ps[0] && View(a, d') + tail == EncodeFrames(ps[1..])
          else View(a, d') == View(a, d) && (tail == [] ==> ps == []))
  {
    hide DecodeStep, View, Future, EncodeFrame, VarNum.Encode, VarNum.Decode;
    DecodeView(a, d);
    PeekExtend(View(a, d), tail);
    if ps != [] {
      PeekFrame(ps[0], EncodeFrames(ps[1..]));
      assert tail == [] ==> View(a, d) + tail == View(a, d);
    } else {
      assert View(a, d) == [];
    }
  }

  /** One event, when the encoding of `ps` is what is buffered, arriving and still to come. */
  lemma StepOverFrames<S>(a: Algorithm<S>, d: Decoder<S>, e: Event, later: seq<byte>, ps: seq<Payload>)
    returns (qs: seq<Payload>)
    requires d.Valid() && Fits(ps)
    requires View(a, d) + Plain(a, Future(a, d), Chunk(e) + later) == EncodeFrames(ps)
    ensures var (d', outs) := Apply(a, d, e);
      && ps == Emitted(outs) + qs && Fits(qs)
      && (forall i :: 0 <= i < |outs| ==> !outs[i].Failed?)
      && View(a, d') + Plain(a, Future(a, d'), later) == EncodeFrames(qs)
  {
    hide DecodeStep, View, Future, Plain, EncodeFrames, Emitted;
    var outs := Apply(a, d, e).1;
    qs := ps;
    if e.Arrive? {
      ArriveOverFrames(a, d, e.chunk, later);
    } else {
      assert Chunk(e) + later == later;
      CallOverFrames(a, d, Plain(a, Future(a, d), later), ps);
      if outs[0].Got? {
        qs := ps[1..];
      }
    }
    EmittedOf(outs, qs);
  }

  /** From any state in which the encoding of `ps` is what is buffered, arriving and still to come,
      a run hands out a first part of `ps`; the encoding of `left` stays. */
  lemma {:induction false} RunOverFrames<S>(a: Algorithm<S>, d: Decoder<S>, es: seq<Event>, more: seq<byte>,
                                            ps: seq<Payload>)
    returns (left: seq<Payload>)
    requires d.Valid() && Fits(ps)
    requires View(a, d) + Plain(a, Future(a, d), Wire(es) + more) == EncodeFrames(ps)
    ensures var (d', outs) := Run(a, d, es);
      && ps == Emitted(outs) + left
      && (forall i :: 0 <= i < |outs| ==> !outs[i].Failed?)
      && View(a, d') + Plain(a, Future(a, d'), more) == EncodeFrames(left)
    decreases |es|
  {
    hide Apply, View, Future, Plain, EncodeFrames, Emitted, Chunk, Fits;
    if es == [] {
      assert Wire(es) + more == more;
      left := ps;
      EmittedOf([], ps);
    } else {
      var later := Wire(es[1..]) + more;
      assert Wire(es) + more == Chunk(es[0]) + later;
      var qs := StepOverFrames(a, d, es[0], later, ps);
      var (d1, out1) := Apply(a, d, es[0]);
      left := RunOverFrames(a, d1, es[1..], more, qs);
      var out2 := Run(a, d1, es[1..]).1;
      EmittedConcat(out1, out2);
      assert Emitted(out1) + (Emitted(out2) + left) == Emitted(out1) + Emitted(out2) + left;
    }
  }

  lemma EmittedOf(outs: seq<Output>, qs: seq<Payload>)
    requires |outs| <= 1
    ensures Emitted(outs) + qs == if outs != [] && outs[0].Got? then [outs[0].frame] + qs else qs
  {
    assert outs != [] ==> outs[1..] == [];
  }

  lemma ArriveOverFrames<S>(a: Algorithm<S>, d: Decoder<S>, chunk: seq<byte>, later: seq<byte>)
    requires d.Valid()
    ensures var d' := Apply(a, d, Arrive(chunk)).0;
      View(a, d') + Plain(a, Future(a, d'), later) == View(a, d) + Plain(a, Future(a, d), chunk + later)
  {
    hide View, Future, Plain, Advance;
    var d' := Apply(a, d, Arrive(chunk)).0;
    ApplyInvariant(a, d, Arrive(chunk));
    AdvanceConcat(a, Future(a, d), chunk, later);
    var x, y, z := View(a, d), Plain(a, Future(a, d), chunk), Plain(a, Future(a, d'), later);
    assert x + y + z == x + (y + z);
  }

  /** While any prefix of the stream has arrived, in any chunks and with any calls in between, the
      frames handed out are the first payloads, in order, and no call fails. Once all of it has
      arrived, a call without a frame means that all payloads have been handed out. */
  lemma FramesInOrder<S(!new)>(a: Algorithm<S>, sender: Option<Registers<S>>, receiver: Option<Registers<S>>,
                               ps: seq<Payload>, es: seq<Event>)
    requires Lawful(a) && SameKey(sender, receiver) && Fits(ps)
    requires Wire(es) <= EncodeAll(a, sender, ps)
    ensures var outs := Run(a, Fresh(receiver), es).1;
      && Emitted(outs) <= ps
      && (forall i :: 0 <= i < |outs| ==> !outs[i].Failed?)
      && (Wire(es) == EncodeAll(a, sender, ps) && Drained(es, outs) ==> Emitted(outs) == ps)
  {
    var wire, d0 := EncodeAll(a, sender, ps), Fresh(receiver);
    var more := wire[|Wire(es)|..];
    assert wire == Wire(es) + more;
    PlainOfEncoded(a, sender, receiver, ps);
    FreshView(a, receiver, wire);
    var left := RunOverFrames(a, d0, es, more, ps);
    if Wire(es) == wire && Drained(es, Run(a, d0, es).1) {
      DrainedRunIsParse(a, receiver, es);
      EncodedYields(ps, []);
      assert EncodeFrames(ps) + [] == EncodeFrames(ps);
      YieldsParse(EncodeFrames(ps), ps, []);
    }
  }

  lemma {:induction false} EncodeFramesConcat(ps: seq<Payload>, qs: seq<Payload>)
    ensures EncodeFrames(ps + qs) == EncodeFrames(ps) + EncodeFrames(qs)
  {
    hide EncodeFrame;
    if ps == [] {
      assert ps + qs == qs;
    } else {
      EncodeFramesConcat(ps[1..], qs);
      FirstFrame(ps[0], ps[1..] + qs);
      assert ps + qs == [ps[0]] + (ps[1..] + qs);
      var x, y, z := EncodeFrame(ps[0]), EncodeFrames(ps[1..]), EncodeFrames(qs);
      assert x + (y + z) == x + y + z;
    }
  }

  /** A refused payload ends the stream: a drained run hands out the payloads before it and fails
      with its announced length, whatever was sent after it. */
  lemma RefusedEndsRun<S(!new)>(a: Algorithm<S>, sender: Option<Registers<S>>, receiver: Option<Registers<S>>,
                                ps: seq<Payload>, big: Payload, qs: seq<Payload>, es: seq<Event>)
    requires Lawful(a) && SameKey(sender, receiver) && Fits(ps) && Refused(big)
    requires Wire(es) == EncodeAll(a, sender, ps + ([big] + qs))
    requires Drained(es, Run(a, Fresh(receiver), es).1)
    ensures var outs := Run(a, Fresh(receiver), es).1;
      Emitted(outs) == ps && outs[|outs| - 1] == Failed(Announced(big))
  {
    hide EncodeAll, Plain, Run, Wire, Emitted, EncodeFrame, Yields, Peek, Drained, EncodeFrames;
    var rest := [big] + qs;
    PlainOfEncoded(a, sender, receiver, ps + rest);
    EncodeFramesConcat(ps, rest);
    DrainedRunIsParse(a, receiver, es);
    EncodedYields(ps, EncodeFrames(rest));
    YieldsParse(EncodeFrames(ps) + EncodeFrames(rest), ps, EncodeFrames(rest));
    PeekWritten(big, EncodeFrames(qs));
    FirstFrame(big, qs);
    assert ps + [] == ps;
    assert Drained(es, Run(a, Fresh(receiver), es).1);
  }

  lemma FirstFrame(p: Payload, qs: seq<Payload>)
    ensures EncodeFrames([p] + qs) == EncodeFrame(p) + EncodeFrames(qs)
  {
    hide EncodeFrame;
    assert ([p] + qs)[1..] == qs;
  }

  // ---------------------------------------------------------------------
  // Stuck for good
  // ---------------------------------------------------------------------

  /** A header that is no VarInt and cannot become one. */
  predicate Stuck(bs: seq<byte>) {
    VarNum.Overlong(VarNum.Int32, 0, bs)
  }

  lemma StuckStays(bs: seq<byte>, more: seq<byte>)
    requires Stuck(bs)
    ensures Stuck(bs + more) && Peek(bs + more) == Partial
  {
    hide VarNum.Decode;
    VarNum.OverflowExactly(VarNum.Int32, bs + more);
  }

  /** Any other buffer gives a frame or an error once the right bytes arrive. */
  lemma Unstuck(bs: seq<byte>) returns (more: seq<byte>)
    requires !Stuck(bs)
    ensures Peek(bs + more) != Partial
  {
    hide VarNum.Decode;
    VarNum.OverflowExactly(VarNum.Int32, bs);
    var start: seq<byte> := [];
    if VarNum.Decode(VarNum.Int32, bs).Err? {
      start := [0];
      Finished(bs);
    } else {
      assert bs + [] == bs;
    }
    var (n, rest) := VarNum.Decode(VarNum.Int32, bs + start).value;
    var fill: seq<byte> := seq(if n < 0 then 0 else n, _ => 0);
    more := start + fill;
    assert bs + more == bs + start + fill;
    VarNum.DecodeExtend(VarNum.Int32, bs + start, fill);
  }

  lemma Finished(bs: seq<byte>)
    requires VarNum.Decode(VarNum.Int32, bs) == Err(UnexpectedEof)
    ensures VarNum.Decode(VarNum.Int32, bs + [0]).Ok?
  {
    hide VarNum.DecodeGroups;
    VarNum.GroupsFinish(VarNum.Int32, 0, bs);
  }

  /** Exactly the buffers that no further bytes bring to a frame or an error. */
  lemma StuckExactly(bs: seq<byte>)
    ensures Stuck(bs) <==> forall more :: Peek(bs + more) == Partial
  {
    hide Peek, Stuck;
    if Stuck(bs) {
      forall more ensures Peek(bs + more) == Partial {
        StuckStays(bs, more);
      }
    } else {
      var more := Unstuck(bs);
    }
  }

  /** No call of the run hands out a frame or an error. */
  predicate Silent(outs: seq<Output>) {
    forall i :: 0 <= i < |outs| ==> outs[i] == NotYet
  }

  /** From a stuck buffer every run is silent. */
  lemma {:induction false} StuckRun<S>(a: Algorithm<S>, d: Decoder<S>, es: seq<Event>)
    requires d.Valid() && Stuck(View(a, d))
    ensures Silent(Run(a, d, es).1)
    decreases |es|
  {
    hide View, Future, Plain, DecodeStep, Stuck, Peek;
    if es != [] {
      var (d1, out1) := Apply(a, d, es[0]);
      StuckStays(View(a, d), []);
      assert View(a, d) + [] == View(a, d);
      if es[0].Arrive? {
        var chunk := es[0].chunk;
        ArriveOverFrames(a, d, chunk, []);
        PlainNothing(a, Future(a, d1));
        assert View(a, d1) + [] == View(a, d1);
        StuckStays(View(a, d), Plain(a, Future(a, d), chunk + []));
      } else {
        DecodeView(a, d);
      }
      StuckRun(a, d1, es[1..]);
    }
  }

  /** The bytes that arrive as `plain`. */
  function Sealed<S>(a: Algorithm<S>, c: Option<Registers<S>>, plain: seq<byte>): seq<byte> {
    if c.None? then plain else Stream(a.encrypt, c.value.dec, plain).1
  }

  lemma SealedArrives<S(!new)>(a: Algorithm<S>, c: Option<Registers<S>>, plain: seq<byte>)
    requires Lawful(a)
    ensures Plain(a, c, Sealed(a, c, plain)) == plain
  {
    if c.Some? {
      DecryptUndoesEncrypt(a, c.value.dec, plain);
    }
  }

  /** From any other buffer some run is not. */
  lemma UnstuckRun<S(!new)>(a: Algorithm<S>, d: Decoder<S>) returns (es: seq<Event>)
    requires d.Valid() && Lawful(a) && !Stuck(View(a, d))
    ensures !Silent(Run(a, d, es).1)
  {
    hide View, Future, Plain, DecodeStep, Stuck, Peek, Sealed;
    var more := Unstuck(View(a, d));
    var chunk := Sealed(a, Future(a, d), more);
    SealedArrives(a, Future(a, d), more);
    es := [Arrive(chunk), Call];
    var d1 := Apply(a, d, Arrive(chunk)).0;
    ArriveOverFrames(a, d, chunk, []);
    PlainNothing(a, Future(a, d1));
    assert View(a, d1) + [] == View(a, d1) && chunk + [] == chunk;
    DecodeView(a, d1);
    var out := DecodeStep(a, d1).1;
    assert out != NotYet;
    assert es[1..] == [Call] && [Call][1..] == [];
    assert Run(a, d, es).1 == [] + ([out] + []);
    assert Run(a, d, es).1[0] == out;
  }

  /** A connection is silent for ever, whatever arrives and whenever the decoder is called, exactly
      when its buffer holds a header that cannot become a VarInt. */
  lemma SilentExactly<S(!new)>(a: Algorithm<S>, d: Decoder<S>)
    requires d.Valid() && Lawful(a)
    ensures Stuck(View(a, d)) <==> forall es :: Silent(Run(a, d, es).1)
  {
    hide Run, View, Stuck, Silent;
    if Stuck(View(a, d)) {
      forall es ensures Silent(Run(a, d, es).1) {
        StuckRun(a, d, es);
      }
    } else {
      var es := UnstuckRun(a, d);
    }
  }

  function Calls(n: nat): (es: seq<Event>) {
    seq(n, _ => Call)
  }

  lemma {:induction false} CallsBringNothing(n: nat)
    ensures Wire(Calls(n)) == []
  {
    if n > 0 {
      CallsBringNothing(n - 1);
      assert Calls(n)[1..] == Calls(n - 1);
    }
  }

  /** A buffer that stands for `ps` gives them out in `|ps|` calls. */
  lemma {:induction false} CallsHandOutAll<S>(a: Algorithm<S>, d: Decoder<S>, ps: seq<Payload>)
    requires d.Valid() && Fits(ps) && View(a, d) == EncodeFrames(ps)
    ensures Emitted(Run(a, d, Calls(|ps|)).1) == ps
    decreases |ps|
  {
    hide DecodeStep, View, EncodeFrames, Peek;
    if ps != [] {
      assert View(a, d) + [] == View(a, d);
      CallOverFrames(a, d, [], ps);
      var (d1, out1) := Apply(a, d, Call);
      assert View(a, d1) + [] == View(a, d1);
      assert Calls(|ps|)[1..] == Calls(|ps| - 1);
      CallsHandOutAll(a, d1, ps[1..]);
      EmittedConcat(out1, Run(a, d1, Calls(|ps| - 1)).1);
      assert out1[1..] == [] && Emitted(out1) == [ps[0]];
    }
  }

  /** The cipher is switched on between two frames: the peer sends `ps` in the clear and then `qs`
      encrypted, and the receiver enables its cipher after it has been handed exactly `ps`, however
      much of the encrypted part is already in its buffer. The rest of the run hands out `qs`. */
  lemma EnableBetweenFrames<S(!new)>(a: Algorithm<S>, key: Registers<S>, ps: seq<Payload>, qs: seq<Payload>,
                                     es: seq<Event>, es': seq<Event>)
    requires Lawful(a) && key.enc == key.dec && Fits(ps) && Fits(qs)
    requires Wire(es) + Wire(es') == EncodeAll(a, None, ps) + EncodeAll(a, Some(key), qs)
    requires Emitted(Run(a, Fresh(None), es).1) == ps
    ensures var d := WithCipher(Run(a, Fresh(None), es).0, key);
      && d.Valid()
      && var outs := Run(a, d, es' + Calls(|qs|)).1;
         && Emitted(outs) == qs
         && forall i :: 0 <= i < |outs| ==> !outs[i].Failed?
  {
    hide Run, Wire, Yields, EncodeAll, EncodeFrames, Emitted, Calls, Plain, View, Future;
    var secret := EncodeAll(a, Some(key), qs);
    var d1 := Run(a, Fresh<S>(None), es).0;
    ClearRun(a, es);
    YieldsExtend(Wire(es), ps, d1.buffer, Wire(es'));
    EncodeAllIsStream(a, None, ps);
    EncodedYields(ps, secret);
    YieldsUnique(Wire(es) + Wire(es'), ps, d1.buffer + Wire(es'), secret);
    PlainOfEncoded(a, Some(key), Some(key), qs);
    EnabledView(a, d1, key, Wire(es'));
    RunThenCalls(a, WithCipher(d1, key), es', qs);
  }

  /** Without a cipher the buffer is the plaintext and the counter stays at zero. */
  lemma ClearRun<S>(a: Algorithm<S>, es: seq<Event>)
    ensures var (d, outs) := Run(a, Fresh<S>(None), es);
      d.cipher == None && d.decrypted == 0 && Yields(Wire(es), Emitted(outs), d.buffer)
  {
    hide Run, Wire, Yields, Emitted;
    RunInvariant(a, Fresh<S>(None), es);
    FreshView<S>(a, None, Wire(es));
    var d := Run(a, Fresh<S>(None), es).0;
    assert View(a, d) == d.buffer;
  }

  lemma EnabledView<S>(a: Algorithm<S>, d: Decoder<S>, key: Registers<S>, more: seq<byte>)
    requires d.decrypted == 0
    ensures var d' := WithCipher(d, key);
      View(a, d') + Plain(a, Future(a, d'), more) == Plain(a, Some(key), d.buffer + more)
  {
    AdvanceConcat(a, Some(key), d.buffer, more);
    assert d.buffer[0..] == d.buffer;
  }

  function WithCipher<S>(d: Decoder<S>, key: Registers<S>): Decoder<S> {
    d.(cipher := Some(key))
  }

  lemma {:induction false} WireConcat(es: seq<Event>, es': seq<Event>)
    ensures Wire(es + es') == Wire(es) + Wire(es')
  {
    hide Chunk;
    if es == [] {
      assert es + es' == es';
    } else {
      WireConcat(es[1..], es');
      WireOf(es[0], es[1..] + es');
      assert es + es' == [es[0]] + (es[1..] + es');
      var (x, y, z) := (Chunk(es[0]), Wire(es[1..]), Wire(es'));
      assert x + (y + z) == x + y + z;
    }
  }

  lemma WireOf(e: Event, es: seq<Event>)
    ensures Wire([e] + es) == Chunk(e) + Wire(es)
  {
    hide Chunk;
    assert ([e] + es)[1..] == es;
  }

  /** When the rest of the encoding of `ps` arrives during `es`, `|ps|` more calls hand out all. */
  lemma RunThenCalls<S>(a: Algorithm<S>, d: Decoder<S>, es: seq<Event>, ps: seq<Payload>)
    requires d.Valid() && Fits(ps)
    requires View(a, d) + Plain(a, Future(a, d), Wire(es)) == EncodeFrames(ps)
    ensures var outs := Run(a, d, es + Calls(|ps|)).1;
      && Emitted(outs) == ps
      && forall i :: 0 <= i < |outs| ==> !outs[i].Failed?
  {
    hide DecodeStep, View, Future, Plain, Peek, Run, Wire, Emitted, EncodeFrames;
    CallsBringNothing(|ps|);
    WireConcat(es, Calls(|ps|));
    assert Wire(es) + [] == Wire(es);
    var left := RunOverFrames(a, d, es, [], ps);
    var left' := RunOverFrames(a, d, es + Calls(|ps|), [], ps);
    var (d1, outs1) := Run(a, d, es);
    PlainNothing(a, Future(a, d1));
    assert View(a, d1) + [] == View(a, d1);
    assert Fits(left) by {
      assert forall i :: 0 <= i < |left| ==> left[i] == ps[|Emitted(outs1)| + i];
    }
    CallsHandOutAll(a, d1, left);
    var k := |ps| - |left|;
    assert Calls(|ps|) == Calls(|left|) + Calls(k);
    RunConcat(a, d, es, Calls(|ps|));
    RunConcat(a, d1, Calls(|left|), Calls(k));
    EmittedConcat(outs1, Run(a, d1, Calls(|ps|)).1);
    EmittedConcat(Run(a, d1, Calls(|left|)).1, Run(a, Run(a, d1, Calls(|left|)).0, Calls(k)).1);
  }

  // ---------------------------------------------------------------------
  // The codec object
  // ---------------------------------------------------------------------

  class MinecraftFrameCodec<!S> {
    const algorithm: Algorithm<S>
    var cipher: Option<Registers<S>>
    var decrypted: nat

    constructor (algorithm: Algorithm<S>)
      ensures this.algorithm == algorithm
      ensures cipher == None && decrypted == 0
    {
      this.algorithm := algorithm;
      cipher, decrypted := None, 0;
    }

    /** The codec's fields and the caller's buffer as one decoder state. */
    ghost function State(src: Buffer): Decoder<S>
      reads this, src
    {
      Decoder(cipher, decrypted, src.data)
    }

    method EnableCipher(key: Registers<S>)
      modifies this
      ensures cipher == Some(key) && decrypted == old(decrypted)
    {
      cipher := Some(key);
    }

    method Decode(src: Buffer) returns (out: Output)
      requires State(src).Valid()
      modifies this, src
      ensures (State(src), out) == DecodeStep(algorithm, old(State(src)))
    {
      hide VarNum.Decode, Stream;
      if cipher.Some? && decrypted < |src.data| {
        var (s, plain) := Stream(algorithm.decrypt, cipher.value.dec, src.data[decrypted..]);
        cipher := Some(cipher.value.(dec := s));
        src.data := src.data[..decrypted] + plain;
        decrypted := |src.data|;
      }
      var peek := new Source(src.data);
      var header := VarNum.DecodeFrom(VarNum.Int32, peek);
      if header.Err? {
        return NotYet;
      }
      var headerLen := |src.data| - |peek.rest|;
      if header.value < 0 || header.value > MAX_FRAME {
        return Failed(header.value);
      }
      var payloadLen := header.value;
      if |src.data| < headerLen + payloadLen {
        return NotYet;
      }
      var consumed := headerLen + payloadLen;
      assert src.data[headerLen..] == peek.rest;
      src.data := src.data[headerLen..];
      var frame := src.data[..payloadLen];
      src.data := src.data[payloadLen..];
      decrypted := if decrypted < consumed then 0 else decrypted - consumed;
      return Got(frame);
    }

    method Encode(item: Payload, dst: Buffer)
      modifies this, dst
      ensures decrypted == old(decrypted)
      ensures cipher.Some? == old(cipher.Some?)
      ensures cipher.Some? ==> cipher.value.dec == old(cipher).value.dec
      ensures dst.data == old(dst.data) + EncodeAll(algorithm, old(cipher), [item])
      ensures forall ps :: EncodeAll(algorithm, old(cipher), [item] + ps)
                        == EncodeAll(algorithm, old(cipher), [item]) + EncodeAll(algorithm, cipher, ps)
    {
      var start := |dst.data|;
      var header := new Buffer();
      VarNum.EncodeTo(VarNum.Int32, |item|, header);
      dst.data := dst.data + header.data;
      dst.data := dst.data + item;
      assert dst.data == old(dst.data) + EncodeFrame(item);
      if cipher.Some? {
        assert dst.data[start..] == EncodeFrame(item);
        var (s, wire) := Stream(algorithm.encrypt, cipher.value.enc, dst.data[start..]);
        dst.data := dst.data[..start] + wire;
        cipher := Some(cipher.value.(enc := s));
      }
      EncodeAllStep(algorithm, old(cipher), item);
    }
  }

  lemma EncodeAllStep<S>(a: Algorithm<S>, c: Option<Registers<S>>, item: Payload)
    ensures var (c', bs) := (
        if c.None? then (c, EncodeFrame(item))
        else
          var (s, wire) := Stream(a.encrypt, c.value.enc, EncodeFrame(item));
          (Some(c.value.(enc := s)), wire));
      && EncodeAll(a, c, [item]) == bs
      && forall ps :: EncodeAll(a, c, [item] + ps) == bs + EncodeAll(a, c', ps)
  {
    var one := [item];
    assert one[1..] == [];
    assert forall ps: seq<Payload> :: ([item] + ps)[1..] == ps;
  }
}
