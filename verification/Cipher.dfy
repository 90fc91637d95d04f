/** The stream cipher of the frame codec, as a machine that handles one byte at a time. */
module Cipher {
  import opened Bytes

  type Step<!S> = (S, byte) -> (S, byte)

  datatype Algorithm<!S> = Algorithm(encrypt: Step<S>, decrypt: Step<S>)

  /** The state `CipherState` keeps: one register a direction, both started from the same key. */
  datatype Registers<S> = Registers(enc: S, dec: S)

  /** Decryption undoes encryption byte by byte and both registers move alike. */
  ghost predicate Lawful<S(!new)>(a: Algorithm<S>) {
    forall s: S, b: byte ::
      a.decrypt(s, a.encrypt(s, b).1) == (a.encrypt(s, b).0, b)
  }

  /** Running bytes through one direction of the cipher. */
  function Stream<S>(step: Step<S>, s: S, bs: seq<byte>): (r: (S, seq<byte>))
    ensures |r.1| == |bs|
  {
    if bs == [] then (s, [])
    else
      var (s1, b) := step(s, bs[0]);
      var (s2, rest) := Stream(step, s1, bs[1..]);
      (s2, [b] + rest)
  }

  lemma {:induction false} StreamConcat<S>(step: Step<S>, s: S, a: seq<byte>, b: seq<byte>)
    ensures Stream(step, s, a + b)
         == (var (s1, a') := Stream(step, s, a);
             var (s2, b') := Stream(step, s1, b);
             (s2, a' + b'))
    decreases |a|
  {
    if a == [] {
      assert a + b == b;
      assert [] + Stream(step, s, b).1 == Stream(step, s, b).1;
    } else {
      assert (a + b)[1..] == a[1..] + b;
      var (s1, c) := step(s, a[0]);
      StreamConcat(step, s1, a[1..], b);
      var (s2, rest) := Stream(step, s1, a[1..]);
      assert [c] + (rest + Stream(step, s2, b).1) == [c] + rest + Stream(step, s2, b).1;
    }
  }

  lemma {:induction false} DecryptUndoesEncrypt<S(!new)>(a: Algorithm<S>, s: S, bs: seq<byte>)
    requires Lawful(a)
    ensures var (s', wire) := Stream(a.encrypt, s, bs);
            Stream(a.decrypt, s, wire) == (s', bs)
  {
    if bs != [] {
      var (s1, b) := a.encrypt(s, bs[0]);
      assert a.decrypt(s, b) == (s1, bs[0]);
      DecryptUndoesEncrypt(a, s1, bs[1..]);
      var wire := Stream(a.encrypt, s, bs).1;
      assert wire[0] == b && wire[1..] == Stream(a.encrypt, s1, bs[1..]).1;
      assert bs == [bs[0]] + bs[1..];
    }
  }

  // ---------------------------------------------------------------------
  // Cipher feedback (section 6.3 of NIST SP 800-38A) over any block function
  // ---------------------------------------------------------------------

  const BLOCK := 16

  type Block = b: seq<byte> | |b| == BLOCK witness seq(BLOCK, _ => 0)

  /** The keystream block, overwritten by ciphertext from the left, and how much is overwritten. */
  type Feedback = f: (seq<byte>, nat) | |f.0| == BLOCK && f.1 < BLOCK witness (seq(BLOCK, _ => 0), 0)

  /** What cipher feedback needs of exclusive or: mixing twice with the same byte changes nothing. */
  ghost predicate Involutive(mix: (byte, byte) -> byte) {
    forall a: byte, b: byte :: mix(mix(a, b), b) == a
  }

  /** Put one ciphertext byte into the register; a full register becomes the next keystream block. */
  function Shift(e: Block -> Block, f: Feedback, c: byte): Feedback {
    var block: Block := f.0[f.1 := c];
    if f.1 + 1 == BLOCK then (e(block), 0) else (block, f.1 + 1)
  }

  function Cfb(e: Block -> Block, xor: (byte, byte) -> byte): Algorithm<Feedback> {
    Algorithm(
      (f: Feedback, p: byte) => var c := xor(p, f.0[f.1]); (Shift(e, f, c), c),
      (f: Feedback, c: byte) => (Shift(e, f, c), xor(c, f.0[f.1])))
  }

  /** The mode the codec uses obeys the law, whatever the block cipher does. */
  lemma CfbIsLawful(e: Block -> Block, xor: (byte, byte) -> byte)
    requires Involutive(xor)
    ensures Lawful(Cfb(e, xor))
  {
    var a := Cfb(e, xor);
    forall f: Feedback, b: byte
      ensures a.decrypt(f, a.encrypt(f, b).1) == (a.encrypt(f, b).0, b)
    {
      assert xor(xor(b, f.0[f.1]), f.0[f.1]) == b;
    }
  }

  function Direction(e: Block -> Block, xor: (byte, byte) -> byte, encrypting: bool): Step<Feedback> {
    if encrypting then Cfb(e, xor).encrypt else Cfb(e, xor).decrypt
  }

  lemma OneByte(e: Block -> Block, xor: (byte, byte) -> byte, encrypting: bool, f: Feedback, b: byte)
    ensures var (f', out) := Direction(e, xor, encrypting)(f, b);
      out == xor(b, f.0[f.1]) && f' == Shift(e, f, if encrypting then out else b)
  {
  }

  /** The register after the ciphertext bytes `cs` of one block: they take their places in it. */
  function Fed(e: Block -> Block, f: Feedback, cs: seq<byte>): Feedback
    requires f.1 + |cs| <= BLOCK
  {
    var block: Block := f.0[..f.1] + cs + f.0[f.1 + |cs|..];
    if f.1 + |cs| == BLOCK then (e(block), 0) else (block, f.1 + |cs|)
  }

  lemma FedOne(e: Block -> Block, f: Feedback, c: byte)
    ensures Fed(e, f, [c]) == Shift(e, f, c)
  {
    assert f.0[f.1 := c] == f.0[..f.1] + [c] + f.0[f.1 + 1..];
  }

  lemma FedMore(e: Block -> Block, f: Feedback, c: byte, cs: seq<byte>)
    requires f.1 + 1 + |cs| <= BLOCK && cs != []
    ensures var f1 := Shift(e, f, c);
      && f1.1 == f.1 + 1 && Fed(e, f1, cs) == Fed(e, f, [c] + cs)
      && forall i :: f1.1 <= i < BLOCK ==> f1.0[i] == f.0[i]
  {
    var f1 := Shift(e, f, c);
    assert f1.0[..f1.1] + cs + f1.0[f1.1 + |cs|..] == f.0[..f.1] + ([c] + cs) + f.0[f.1 + 1 + |cs|..];
  }

  lemma StreamFront<S>(step: Step<S>, s: S, bs: seq<byte>)
    requires bs != []
    ensures var (s1, b) := step(s, bs[0]);
      && (|bs| == 1 ==> Stream(step, s, bs) == (s1, [b]))
      && Stream(step, s, bs) == (Stream(step, s1, bs[1..]).0, [b] + Stream(step, s1, bs[1..]).1)
  {
    var (s1, b) := step(s, bs[0]);
    if |bs| == 1 {
      assert bs[1..] == [];
      assert Stream(step, s1, bs[1..]) == (s1, []);
      assert [b] + [] == [b];
    }
  }

  /** Each byte of `out` is the byte of `bs` mixed with its place in the register. */
  ghost predicate Mixed(xor: (byte, byte) -> byte, f: Feedback, bs: seq<byte>, out: seq<byte>) {
    |out| == |bs| && f.1 + |bs| <= BLOCK && forall i :: 0 <= i < |bs| ==> out[i] == xor(bs[i], f.0[f.1 + i])
  }

  lemma MixedFront(xor: (byte, byte) -> byte, f: Feedback, f1: Feedback, bs: seq<byte>, b: byte, out: seq<byte>)
    requires bs != [] && f1.1 == f.1 + 1 && (forall i :: f1.1 <= i < BLOCK ==> f1.0[i] == f.0[i])
    requires b == xor(bs[0], f.0[f.1]) && Mixed(xor, f1, bs[1..], out)
    ensures Mixed(xor, f, bs, [b] + out)
  {
    var all := [b] + out;
    forall i | 0 <= i < |bs| ensures all[i] == xor(bs[i], f.0[f.1 + i]) {
      if i > 0 {
        assert all[i] == out[i - 1] && bs[i] == bs[1..][i - 1];
        assert out[i - 1] == xor(bs[1..][i - 1], f1.0[f1.1 + (i - 1)]);
      }
    }
  }

  lemma MixedOne(xor: (byte, byte) -> byte, f: Feedback, b: byte)
    ensures Mixed(xor, f, [b], [xor(b, f.0[f.1])])
  {
  }

  /** Bytes that stay inside one block: each is mixed with its own byte of the register. */
  lemma {:induction false} InBlock(e: Block -> Block, xor: (byte, byte) -> byte, encrypting: bool, f: Feedback, bs: seq<byte>)
    requires f.1 + |bs| <= BLOCK && bs != []
    ensures var (f', out) := Stream(Direction(e, xor, encrypting), f, bs);
      f' == Fed(e, f, if encrypting then out else bs) && Mixed(xor, f, bs, out)
    decreases |bs|
  {
    hide Direction, Fed, Shift, Stream, Mixed;
    var step := Direction(e, xor, encrypting);
    var (f1, b) := step(f, bs[0]);
    var c := if encrypting then b else bs[0];
    OneByte(e, xor, encrypting, f, bs[0]);
    StreamFront(step, f, bs);
    if |bs| == 1 {
      assert bs == [bs[0]];
      FedOne(e, f, c);
      assert Mixed(xor, f, bs, [b]) by { MixedOne(xor, f, bs[0]); }
    } else {
      var (f', rest) := Stream(step, f1, bs[1..]);
      var cs := if encrypting then rest else bs[1..];
      FedMore(e, f, c, cs);
      InBlock(e, xor, encrypting, f1, bs[1..]);
      assert bs == [bs[0]] + bs[1..];
      MixedFront(xor, f, f1, bs, b, rest);
    }
  }

  function Behind(e: Block -> Block, prev: Block): Feedback {
    (e(prev), 0)
  }

  /** Cipher feedback as the standard has it, for a block or the front of one behind the block `prev`:
      every byte is mixed with its own byte of the enciphered `prev`, and after a whole block the
      ciphertext is what is enciphered next. */
  lemma CfbIsFeedback(e: Block -> Block, xor: (byte, byte) -> byte, encrypting: bool, prev: Block, bs: seq<byte>)
    requires bs != [] && |bs| <= BLOCK
    ensures var (f, out) := Stream(Direction(e, xor, encrypting), Behind(e, prev), bs);
      && (forall i :: 0 <= i < |bs| ==> out[i] == xor(bs[i], e(prev)[i]))
      && (|bs| == BLOCK ==> f == Behind(e, if encrypting then out else bs))
  {
    hide Direction, Stream, Fed;
    var f := Behind(e, prev);
    InBlock(e, xor, encrypting, f, bs);
    if |bs| == BLOCK {
      FedWhole(e, prev, if encrypting then Stream(Direction(e, xor, encrypting), f, bs).1 else bs);
    }
  }

  lemma FedWhole(e: Block -> Block, prev: Block, cs: Block)
    ensures Fed(e, Behind(e, prev), cs) == Behind(e, cs)
  {
    var f := Behind(e, prev);
    assert f.0[..0] + cs + f.0[BLOCK..] == cs;
  }
}
