/** SHA-256's own word operations and constants, and the hash they make: sections 4.1.2, 4.2.2 and 5.3.3 of FIPS 180-4
(src/sha256.cpp lines 41-60 and 71-99), with the entry points that use them. */
module Sha256 {
  import opened Arith
  import opened Sha256Spec
  import opened Sha256Stream
  import opened Sha256Compress

  // ----- Section 4.1.2, on bit vectors

  function Ror(x: bv32, n: bv6): bv32
    requires 0 < n < 32
  {
    (x >> n) | (x << (32 - n))
  }

  function SmallSigma0(x: Word): Word { var v := x as bv32; (Ror(v, 7) ^ Ror(v, 18) ^ (v >> 3)) as int }

  function SmallSigma1(x: Word): Word { var v := x as bv32; (Ror(v, 17) ^ Ror(v, 19) ^ (v >> 10)) as int }

  function BigSigma0(x: Word): Word { var v := x as bv32; (Ror(v, 2) ^ Ror(v, 13) ^ Ror(v, 22)) as int }

  function BigSigma1(x: Word): Word { var v := x as bv32; (Ror(v, 6) ^ Ror(v, 11) ^ Ror(v, 25)) as int }

  function Ch(x: Word, y: Word, z: Word): Word {
    var (u, v, w) := (x as bv32, y as bv32, z as bv32);
    ((u & v) ^ (!u & w)) as int
  }

  function Maj(x: Word, y: Word, z: Word): Word {
    var (u, v, w) := (x as bv32, y as bv32, z as bv32);
    ((u & v) ^ (u & w) ^ (v & w)) as int
  }

  // ----- Sections 4.2.2 and 5.3.3

  const INIT: State :=
    State(0x6a09e667, 0xbb67ae85, 0x3c6ef372, 0xa54ff53a, 0x510e527f, 0x9b05688c, 0x1f83d9ab, 0x5be0cd19)

  /** Row by row, as section 4.2.2 prints them. */
  const K: seq<Word> := K_1 + K_2 + K_3 + K_4 + K_5 + K_6 + K_7 + K_8

  const K_1: seq<Word> :=
    [0x428a2f98, 0x71374491, 0xb5c0fbcf, 0xe9b5dba5, 0x3956c25b, 0x59f111f1, 0x923f82a4, 0xab1c5ed5]

  const K_2: seq<Word> :=
    [0xd807aa98, 0x12835b01, 0x243185be, 0x550c7dc3, 0x72be5d74, 0x80deb1fe, 0x9bdc06a7, 0xc19bf174]

  const K_3: seq<Word> :=
    [0xe49b69c1, 0xefbe4786, 0x0fc19dc6, 0x240ca1cc, 0x2de92c6f, 0x4a7484aa, 0x5cb0a9dc, 0x76f988da]

  const K_4: seq<Word> :=
    [0x983e5152, 0xa831c66d, 0xb00327c8, 0xbf597fc7, 0xc6e00bf3, 0xd5a79147, 0x06ca6351, 0x14292967]

  const K_5: seq<Word> :=
    [0x27b70a85, 0x2e1b2138, 0x4d2c6dfc, 0x53380d13, 0x650a7354, 0x766a0abb, 0x81c2c92e, 0x92722c85]

  const K_6: seq<Word> :=
    [0xa2bfe8a1, 0xa81a664b, 0xc24b8b70, 0xc76c51a3, 0xd192e819, 0xd6990624, 0xf40e3585, 0x106aa070]

  const K_7: seq<Word> :=
    [0x19a4c116, 0x1e376c08, 0x2748774c, 0x34b0bcb5, 0x391c0cb3, 0x4ed8aa4a, 0x5b9cca4f, 0x682e6ff3]

  const K_8: seq<Word> :=
    [0x748f82ee, 0x78a5636f, 0x84c87814, 0x8cc70208, 0x90befffa, 0xa4506ceb, 0xbef9a3f7, 0xc67178f2]

  /** Addition modulo 2^32. */
  function Add(x: Word, y: Word): Word { (x + y) % 0x1_0000_0000 }

  function BigEndian(b0: Byte, b1: Byte, b2: Byte, b3: Byte): Word { ((b0 * 0x100 + b1) * 0x100 + b2) * 0x100 + b3 }

  function LittleEndian(b0: Byte, b1: Byte, b2: Byte, b3: Byte): Word {
    b0 + b1 * 0x100 + b2 * 0x1_0000 + b3 * 0x100_0000
  }

  const SHA2: Ops := Ops(
    Add, SmallSigma0, SmallSigma1, BigSigma0, BigSigma1, Ch, Maj, BigEndian, LittleEndian, K)

  lemma Sha2Laws()
    ensures Laws(SHA2)
  {
    forall x, y, z ensures AddLaw(SHA2, x, y, z) { Sha2Add(x, y, z); }
    forall b0, b1, b2, b3 ensures LoadLaw(SHA2, b0, b1, b2, b3) { Sha2Load(b0, b1, b2, b3); }
  }

  lemma Sha2Add(x: Word, y: Word, z: Word)
    ensures AddLaw(SHA2, x, y, z)
  {
    AddAssociates(x, y, z);
  }

  lemma AddAssociates(x: Word, y: Word, z: Word)
    ensures Add(x, y) == Add(y, x) && Add(Add(x, y), z) == Add(x, Add(y, z))
  {}

  lemma Sha2Load(b0: Byte, b1: Byte, b2: Byte, b3: Byte)
    ensures LoadLaw(SHA2, b0, b1, b2, b3)
  {}

  function Hash(m: seq<Byte>): seq<Byte> { HashWith(SHA2, INIT, m) }

  /** The one-shot hash, on either implementation. */
  method HashOneShot(impl: Impl, data: seq<Byte>) returns (out: seq<Byte>)
    ensures out == Hash(data)
  {
    Sha2Laws();
    out := HashOne(impl, SHA2, INIT, data);
  }

  /** Any cut into Update calls. */
  method HashPieces(impl: Impl, chunks: seq<seq<Byte>>) returns (out: seq<Byte>)
    ensures out == Hash(Concat(chunks))
  {
    Sha2Laws();
    out := HashChunks(impl, SHA2, INIT, chunks);
  }

  /** An artifact's integrity check: the hash of the file with its 32 hash bytes taken as zero. */
  method IntegrityHolds(impl: Impl, data: seq<Byte>, at: nat) returns (ok: bool)
    requires at + 32 <= |data|
    ensures ok <==> data[at..at + 32] == Hash(Zeroed(data, at))
  {
    Sha2Laws();
    var digest := HashZeroed(impl, SHA2, INIT, data, at);
    ok := digest == data[at..at + 32];
  }

  // ----- Where the constants come from

  /** `k` is the first 32 bits of the fractional part of the cube root of `p`, whose whole part is `c`. */
  predicate CubeRootBits(p: nat, c: nat, k: Word) {
    var r := c * 0x1_0000_0000 + k;
    r * r * r <= p * 0x1_0000_0000_0000_0000_0000_0000 < (r + 1) * (r + 1) * (r + 1)
  }

  /** The same of the square root. */
  predicate SquareRootBits(p: nat, c: nat, k: Word) {
    var r := c * 0x1_0000_0000 + k;
    r * r <= p * 0x1_0000_0000_0000_0000 < (r + 1) * (r + 1)
  }

  // The round constants are the cube roots of the first 64 primes, to 32 bits, in their order.

  lemma CubeRoots1()
    ensures |K_1| == 8
    ensures CubeRootBits(2, 1, K_1[0]) && CubeRootBits(3, 1, K_1[1])
    ensures CubeRootBits(5, 1, K_1[2]) && CubeRootBits(7, 1, K_1[3])
    ensures CubeRootBits(11, 2, K_1[4]) && CubeRootBits(13, 2, K_1[5])
    ensures CubeRootBits(17, 2, K_1[6]) && CubeRootBits(19, 2, K_1[7])
  {}

  lemma CubeRoots2()
    ensures |K_2| == 8
    ensures CubeRootBits(23, 2, K_2[0]) && CubeRootBits(29, 3, K_2[1])
    ensures CubeRootBits(31, 3, K_2[2]) && CubeRootBits(37, 3, K_2[3])
    ensures CubeRootBits(41, 3, K_2[4]) && CubeRootBits(43, 3, K_2[5])
    ensures CubeRootBits(47, 3, K_2[6]) && CubeRootBits(53, 3, K_2[7])
  {}

  lemma CubeRoots3()
    ensures |K_3| == 8
    ensures CubeRootBits(59, 3, K_3[0]) && CubeRootBits(61, 3, K_3[1])
    ensures CubeRootBits(67, 4, K_3[2]) && CubeRootBits(71, 4, K_3[3])
    ensures CubeRootBits(73, 4, K_3[4]) && CubeRootBits(79, 4, K_3[5])
    ensures CubeRootBits(83, 4, K_3[6]) && CubeRootBits(89, 4, K_3[7])
  {}

  lemma CubeRoots4()
    ensures |K_4| == 8
    ensures CubeRootBits(97, 4, K_4[0]) && CubeRootBits(101, 4, K_4[1])
    ensures CubeRootBits(103, 4, K_4[2]) && CubeRootBits(107, 4, K_4[3])
    ensures CubeRootBits(109, 4, K_4[4]) && CubeRootBits(113, 4, K_4[5])
    ensures CubeRootBits(127, 5, K_4[6]) && CubeRootBits(131, 5, K_4[7])
  {}

  lemma CubeRoots5()
    ensures |K_5| == 8
    ensures CubeRootBits(137, 5, K_5[0]) && CubeRootBits(139, 5, K_5[1])
    ensures CubeRootBits(149, 5, K_5[2]) && CubeRootBits(151, 5, K_5[3])
    ensures CubeRootBits(157, 5, K_5[4]) && CubeRootBits(163, 5, K_5[5])
    ensures CubeRootBits(167, 5, K_5[6]) && CubeRootBits(173, 5, K_5[7])
  {}

  lemma CubeRoots6()
    ensures |K_6| == 8
    ensures CubeRootBits(179, 5, K_6[0]) && CubeRootBits(181, 5, K_6[1])
    ensures CubeRootBits(191, 5, K_6[2]) && CubeRootBits(193, 5, K_6[3])
    ensures CubeRootBits(197, 5, K_6[4]) && CubeRootBits(199, 5, K_6[5])
    ensures CubeRootBits(211, 5, K_6[6]) && CubeRootBits(223, 6, K_6[7])
  {}

  lemma CubeRoots7()
    ensures |K_7| == 8
    ensures CubeRootBits(227, 6, K_7[0]) && CubeRootBits(229, 6, K_7[1])
    ensures CubeRootBits(233, 6, K_7[2]) && CubeRootBits(239, 6, K_7[3])
    ensures CubeRootBits(241, 6, K_7[4]) && CubeRootBits(251, 6, K_7[5])
    ensures CubeRootBits(257, 6, K_7[6]) && CubeRootBits(263, 6, K_7[7])
  {}

  lemma CubeRoots8()
    ensures |K_8| == 8
    ensures CubeRootBits(269, 6, K_8[0]) && CubeRootBits(271, 6, K_8[1])
    ensures CubeRootBits(277, 6, K_8[2]) && CubeRootBits(281, 6, K_8[3])
    ensures CubeRootBits(283, 6, K_8[4]) && CubeRootBits(293, 6, K_8[5])
    ensures CubeRootBits(307, 6, K_8[6]) && CubeRootBits(311, 6, K_8[7])
  {}

  /** The initial state is the square roots of the first eight primes, to 32 bits. */
  lemma InitialStateIsSquareRoots()
    ensures SquareRootBits(2, 1, INIT.a) && SquareRootBits(3, 1, INIT.b) && SquareRootBits(5, 2, INIT.c)
    ensures SquareRootBits(7, 2, INIT.d) && SquareRootBits(11, 3, INIT.e) && SquareRootBits(13, 3, INIT.f)
    ensures SquareRootBits(17, 4, INIT.g) && SquareRootBits(19, 4, INIT.h)
  {}
}
