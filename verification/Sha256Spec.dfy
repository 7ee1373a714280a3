/** SHA-256 as FIPS 180-4 defines it: the reference the two compressions and the streaming class are proved against. */
module Sha256Spec {
  import opened Arith

  type Word = x: int | 0 <= x < 0x1_0000_0000

  datatype State = State(a: Word, b: Word, c: Word, d: Word, e: Word, f: Word, g: Word, h: Word)

  /** The word operations section 6.2.2 is written in. The compressions are proved equal for every choice of them
      that obeys `Laws`, so no proof about the rounds looks inside a rotation. */
  datatype Ops = Ops(
    add: (Word, Word) -> Word,
    smallSigma0: Word -> Word,
    smallSigma1: Word -> Word,
    bigSigma0: Word -> Word,
    bigSigma1: Word -> Word,
    ch: (Word, Word, Word) -> Word,
    maj: (Word, Word, Word) -> Word,
    bigEndian: (Byte, Byte, Byte, Byte) -> Word,
    littleEndian: (Byte, Byte, Byte, Byte) -> Word,
    k: seq<Word>)

  /** Addition commutes and associates: the rearranged sums rely on it. */
  ghost predicate AddLaw(o: Ops, x: Word, y: Word, z: Word) {
    o.add(x, y) == o.add(y, x) && o.add(o.add(x, y), z) == o.add(x, o.add(y, z))
  }

  /** A reversed little-endian load is a big-endian one. */
  ghost predicate LoadLaw(o: Ops, b0: Byte, b1: Byte, b2: Byte, b3: Byte) {
    o.littleEndian(b3, b2, b1, b0) == o.bigEndian(b0, b1, b2, b3)
  }

  ghost predicate Laws(o: Ops) {
    && |o.k| == 64
    && (forall x, y, z :: AddLaw(o, x, y, z))
    && forall b0, b1, b2, b3 :: LoadLaw(o, b0, b1, b2, b3)
  }

  // ----- Section 6.2.2

  type Block = b: seq<Byte> | |b| == 64 witness seq(64, _ => 0)

  /** W[t] from the words before it. */
  function Next(o: Ops, w16: Word, w15: Word, w7: Word, w2: Word): Word {
    o.add(o.add(o.add(o.smallSigma1(w2), w7), o.smallSigma0(w15)), w16)
  }

  /** The message schedule's first `n` words. */
  function Schedule(o: Ops, m: seq<Word>, n: nat): (w: seq<Word>)
    requires |m| == 16
    ensures |w| == n
  {
    if n <= 16 then m[..n]
    else
      var w := Schedule(o, m, n - 1);
      w + [Next(o, w[n - 17], w[n - 16], w[n - 8], w[n - 3])]
  }

  function Round(o: Ops, s: State, k: Word, w: Word): State {
    var t1 := o.add(o.add(o.add(o.add(s.h, o.bigSigma1(s.e)), o.ch(s.e, s.f, s.g)), k), w);
    var t2 := o.add(o.bigSigma0(s.a), o.maj(s.a, s.b, s.c));
    State(o.add(t1, t2), s.a, s.b, s.c, o.add(s.d, t1), s.e, s.f, s.g)
  }

  function Rounds(o: Ops, s: State, w: seq<Word>, t: nat): State
    requires t <= 64 == |o.k| == |w|
  {
    if t == 0 then s else Round(o, Rounds(o, s, w, t - 1), o.k[t - 1], w[t - 1])
  }

  function AddState(o: Ops, s: State, t: State): State {
    State(
      o.add(s.a, t.a), o.add(s.b, t.b), o.add(s.c, t.c), o.add(s.d, t.d),
      o.add(s.e, t.e), o.add(s.f, t.f), o.add(s.g, t.g), o.add(s.h, t.h))
  }

  function Words(o: Ops, block: Block): (m: seq<Word>)
    ensures |m| == 16
  {
    seq(16, i requires 0 <= i < 16 =>
      o.bigEndian(block[4 * i], block[4 * i + 1], block[4 * i + 2], block[4 * i + 3]))
  }

  function CompressWith(o: Ops, s: State, block: Block): State
    requires |o.k| == 64
  {
    AddState(o, s, Rounds(o, s, Schedule(o, Words(o, block), 64), 64))
  }

  /** The block function of one choice of word operations. */
  function BlockFunction(o: Ops): (State, Block) -> State
    requires |o.k| == 64
  {
    (s: State, block: Block) => CompressWith(o, s, block)
  }

  /** Section 6.2: the blocks of a padded message in order. */
  function Blocks(compress: (State, Block) -> State, s: State, m: seq<Byte>): State
    requires |m| % 64 == 0
  {
    if m == [] then s else compress(Blocks(compress, s, m[..|m| - 64]), m[|m| - 64..])
  }

  // ----- Section 5.1.1

  function BitCount(n: nat): U64 { 8 * n % 0x1_0000_0000_0000_0000 }

  /** The big-endian bytes of a 64-bit length. */
  function LengthBytes(bits: U64): (r: seq<Byte>)
    ensures |r| == 8
  {
    seq(8, i requires 0 <= i < 8 => bits / Pow2(56 - 8 * i) % 0x100)
  }

  function Zeros(n: nat): (r: seq<Byte>)
    ensures |r| == n
  {
    seq(n, _ => 0)
  }

  function Padding(n: nat): (p: seq<Byte>)
    ensures (n + |p|) % 64 == 0 && 9 <= |p| <= 72
  {
    var zeros := PadZeros(n % 64);
    assert (n + 1 + zeros + 8) % 64 == 0;
    [0x80] + Zeros(zeros) + LengthBytes(BitCount(n))
  }

  /** The least count with n + 1 + zeros + 8 a multiple of 64. */
  function PadZeros(r: nat): (zeros: nat)
    requires r < 64
    ensures zeros < 64 && (r + 9 + zeros == 64 || r + 9 + zeros == 128)
  {
    if r < 56 then 55 - r else 119 - r
  }

  function WordBytes(w: Word): (r: seq<Byte>)
    ensures |r| == 4
  {
    [w / 0x100_0000, w / 0x1_0000 % 0x100, w / 0x100 % 0x100, w % 0x100]
  }

  function Digest(s: State): (r: seq<Byte>)
    ensures |r| == 32
  {
    WordBytes(s.a) + WordBytes(s.b) + WordBytes(s.c) + WordBytes(s.d)
      + WordBytes(s.e) + WordBytes(s.f) + WordBytes(s.g) + WordBytes(s.h)
  }

  /** The digest of a message; lengths are taken modulo 2^64 bits, as the standard's 64-bit field is. */
  function HashWith(o: Ops, init: State, m: seq<Byte>): seq<Byte>
    requires |o.k| == 64
  {
    Digest(Blocks(BlockFunction(o), init, m + Padding(|m|)))
  }
}
