/** The streaming digest: src/sha256.cpp lines 241-288, the Update and Final pair, and the hashes of a file with a
zeroed field (src/artifact.cpp lines 332-337, src/spx1_format.cpp lines 85-100). */
module Sha256Stream {
  import opened Arith
  import opened Sha256Spec
  import opened Sha256Compress

  /** A block-aligned message, compressed block by block. */
  lemma BlocksNext(f: (State, Block) -> State, s: State, m: seq<Byte>, block: Block)
    requires |m| % 64 == 0
    ensures |m + block| % 64 == 0 && Blocks(f, s, m + block) == f(Blocks(f, s, m), block)
  {
    assert (m + block)[..|m|] == m && (m + block)[|m|..] == block;
  }

  lemma MoveAcross(a: seq<Byte>, b: seq<Byte>, k: nat)
    requires k <= |b|
    ensures (a + b[..k]) + b[k..] == a + b
  {}

  lemma RestLength(a: seq<Byte>, b: seq<Byte>)
    requires |a| % 64 == 0 && |b| < 64
    ensures |a + b| % 64 == |b|
  {}

  lemma Regroup(a: seq<Byte>, b: seq<Byte>, c: seq<Byte>)
    ensures (a + b) + c == a + (b + c)
  {}

  lemma TwoBlocks(f: (State, Block) -> State, s: State, m: seq<Byte>, first: Block, second: Block)
    requires |m| % 64 == 0
    ensures |m + (first + second)| % 64 == 0
    ensures Blocks(f, s, m + (first + second)) == f(f(Blocks(f, s, m), first), second)
  {
    BlocksNext(f, s, m, first);
    BlocksNext(f, s, m + first, second);
    Regroup(m, first, second);
  }

  class Hasher {
    const impl: Impl
    const ops: Ops
    const init: State
    /** The block function the class computes with. */
    ghost const f: (State, Block) -> State
    var h: State
    var totalBits: U64
    const buf: array<Byte>
    var bufLen: nat
    ghost var message: seq<Byte>
    ghost var whole: seq<Byte>

    ghost predicate Computes() { Laws(ops) && f == BlockFunction(ops) }

    /** The state is that of the whole blocks seen so far, and the buffer holds the rest. */
    ghost predicate Streaming()
      reads this, buf
    {
      && Computes() && buf.Length == 64 && bufLen < 64 && |whole| % 64 == 0
      && message == whole + buf[..bufLen] && h == Blocks(f, init, whole)
    }

    ghost predicate Valid()
      reads this, buf
    {
      Streaming() && totalBits == BitCount(|message|)
    }

    constructor (which: Impl, o: Ops, start: State)
      requires Laws(o)
      ensures Valid() && message == [] && fresh(buf) && impl == which && ops == o && init == start
    {
      impl, ops, f, init := which, o, BlockFunction(o), start;
      buf := new Byte[64](_ => 0);
      h, totalBits, bufLen, message, whole := start, 0, 0, [], [];
    }

    method Reset()
      requires buf.Length == 64 && Computes()
      modifies this
      ensures Valid() && message == []
    {
      h, totalBits, bufLen, message, whole := init, 0, 0, [], [];
    }

    /** Feeds bytes, in however many pieces. */
    method Update(data: seq<Byte>)
      requires Valid()
      modifies this, buf
      ensures Valid() && message == old(message) + data
    {
      BitsAppend(message, data);
      totalBits := AddBits(totalBits, |data|);
      Absorb(data);
    }

    /** Tops up and flushes a partial block, compresses the whole blocks in place, keeps the tail. */
    method Absorb(data: seq<Byte>)
      requires Streaming()
      modifies this`h, this`bufLen, this`message, this`whole, buf
      ensures Streaming() && message == old(message) + data
    {
      var rest := data;
      if bufLen > 0 {
        var take := if 64 - bufLen < |data| then 64 - bufLen else |data|;
        TopUp(data[..take]);
        rest := data[take..];
        if bufLen < 64 {
          assert data[..take] == data;
          return;
        }
        Flush();
        MoveAcross(old(message), data, take);
      }
      WholeBlocks(rest);
    }

    /** Appends to the partial block. */
    method TopUp(data: seq<Byte>)
      requires Streaming() && bufLen + |data| <= 64
      modifies this`bufLen, this`message, buf
      ensures bufLen == old(bufLen) + |data| && whole + buf[..bufLen] == message == old(message) + data
    {
      Regroup(whole, buf[..bufLen], data);
      CopyIn(data, bufLen);
      message := message + data;
      bufLen := bufLen + |data|;
    }

    method CompressInto(block: Block)
      requires Computes()
      modifies this`h
      ensures h == f(old(h), block)
    {
      h := CompressBlock(ops, impl, h, block);
    }

    /** Compresses the full buffer. */
    method Flush()
      requires Computes() && buf.Length == 64 == bufLen && |whole| % 64 == 0 && message == whole + buf[..]
          && h == Blocks(f, init, whole)
      modifies this`h, this`bufLen, this`whole
      ensures Streaming() && bufLen == 0
    {
      var block: Block := buf[..];
      BlocksNext(f, init, whole, block);
      CompressInto(block);
      whole := whole + block;
      bufLen := 0;
      assert whole + buf[..0] == whole;
    }

    /** The blocks compressed straight from the data, and the tail kept. */
    method WholeBlocks(data: seq<Byte>)
      requires Streaming() && bufLen == 0
      modifies this`h, this`bufLen, this`message, this`whole, buf
      ensures Streaming() && message == old(message) + data
    {
      var rest := data;
      ghost var goal := message + data;
      while |rest| >= 64
        invariant |whole| % 64 == 0 && whole + rest == goal && h == Blocks(f, init, whole) && bufLen == 0
      {
        var block: Block := rest[..64];
        MoveAcross(whole, rest, 64);
        BlocksNext(f, init, whole, block);
        CompressInto(block);
        whole := whole + block;
        rest := rest[64..];
      }
      KeepTail(rest);
      message := goal;
    }

    method KeepTail(rest: seq<Byte>)
      requires buf.Length == 64 && |rest| < 64
      modifies this`bufLen, buf
      ensures bufLen == |rest| && buf[..bufLen] == rest
    {
      CopyIn(rest, 0);
      bufLen := |rest|;
      assert buf[..|rest|] == [] + rest;
    }

    method CopyIn(data: seq<Byte>, at: nat)
      requires at + |data| <= buf.Length
      modifies buf
      ensures buf[..at + |data|] == old(buf[..at]) + data
    {
      for k := 0 to |data|
        invariant forall j :: 0 <= j < at ==> buf[j] == old(buf[j])
        invariant forall j :: at <= j < at + k ==> buf[j] == data[j - at]
      {
        buf[at + k] := data[k];
      }
    }

    /** The last one or two blocks: 0x80, zeros, and the bit length in big-endian order. */
    static method BuildTail(head: seq<Byte>, ghost n: nat, bits: U64) returns (blocks: seq<Byte>)
      requires |head| == n % 64 && bits == BitCount(n)
      ensures |blocks| in {64, 128} && blocks == head + Padding(n)
    {
      var tail := StartTail(head);
      var size := if |head| < 56 then 64 else 128;
      PutLength(tail, size - 8, bits);
      blocks := tail[..size];
      TailIsPadding(blocks, head, n, bits);
    }

    static method StartTail(head: seq<Byte>) returns (tail: array<Byte>)
      requires |head| < 64
      ensures fresh(tail) && tail.Length == 128
      ensures forall j :: 0 <= j < 128 ==>
          tail[j] == if j < |head| then head[j] else if j == |head| then 0x80 else 0
    {
      tail := new Byte[128](_ => 0);
      for k := 0 to |head|
        invariant forall j :: 0 <= j < 128 ==> tail[j] == if j < k then head[j] else 0
      {
        tail[k] := head[k];
      }
      tail[|head|] := 0x80;
    }

    static method PutLength(tail: array<Byte>, at: nat, bits: U64)
      requires at + 8 <= tail.Length
      modifies tail
      ensures forall j :: 0 <= j < tail.Length ==>
          tail[j] == if at <= j < at + 8 then LengthBytes(bits)[j - at] else old(tail[j])
    {
      for i := 0 to 8
        invariant forall j :: 0 <= j < tail.Length ==>
            tail[j] == if at <= j < at + i then LengthBytes(bits)[j - at] else old(tail[j])
      {
        tail[at + i] := bits / Pow2(56 - 8 * i) % 0x100;
      }
    }

    /** Compresses the last one or two blocks. */
    method FinishBlocks(tail: seq<Byte>)
      requires Computes() && |tail| in {64, 128} && |whole| % 64 == 0 && h == Blocks(f, init, whole)
      modifies this`h
      ensures |whole + tail| % 64 == 0 && h == Blocks(f, init, whole + tail)
    {
      var first: Block := tail[..64];
      if |tail| == 64 {
        BlocksNext(f, init, whole, tail);
        CompressInto(tail);
      } else {
        var second: Block := tail[64..];
        TwoBlocks(f, init, whole, first, second);
        assert tail == first + second;
        CompressInto(first);
        CompressInto(second);
      }
    }

    /** The digest of everything fed. The state is spent: only Reset makes it a stream again. */
    method Final() returns (out: seq<Byte>)
      requires Valid()
      modifies this`h, this`bufLen
      ensures out == HashWith(ops, init, message)
    {
      ghost var rest := buf[..bufLen];
      RestLength(whole, rest);
      Regroup(whole, rest, Padding(|message|));
      var tail := BuildTail(buf[..bufLen], |message|, totalBits);
      FinishBlocks(tail);
      out := Digest(h);
      bufLen := 0;
    }
  }

  lemma TailIsPadding(tail: seq<Byte>, head: seq<Byte>, n: nat, bits: U64)
    requires |head| == n % 64 && bits == BitCount(n) && |tail| == (if |head| < 56 then 64 else 128)
    requires forall j :: 0 <= j < |head| ==> tail[j] == head[j]
    requires tail[|head|] == 0x80 && forall j :: |head| < j < |tail| - 8 ==> tail[j] == 0
    requires forall j :: |tail| - 8 <= j < |tail| ==> tail[j] == LengthBytes(bits)[j - (|tail| - 8)]
    ensures tail == head + Padding(n)
  {
    var r := head + Padding(n);
    assert |r| == |tail|;
    forall k | 0 <= k < |tail| ensures tail[k] == r[k] {}
  }

  lemma BitsAppend(m: seq<Byte>, data: seq<Byte>)
    ensures AddBits(BitCount(|m|), |data|) == BitCount(|m + data|)
  {
    AddResidues(|m| * 8, |data| * 8);
  }

  lemma AddResidues(a: int, b: int)
    ensures (a % 0x1_0000_0000_0000_0000 + b % 0x1_0000_0000_0000_0000) % 0x1_0000_0000_0000_0000
        == (a + b) % 0x1_0000_0000_0000_0000
  {
    DivBounds(a, 0x1_0000_0000_0000_0000);
    DivBounds(b, 0x1_0000_0000_0000_0000);
    DivAddMultiple(a % 0x1_0000_0000_0000_0000 + b % 0x1_0000_0000_0000_0000,
        a / 0x1_0000_0000_0000_0000 + b / 0x1_0000_0000_0000_0000, 0x1_0000_0000_0000_0000);
  }

  /** The running count of bits, modulo 2^64. */
  function AddBits(bits: U64, len: nat): U64 { (bits + len * 8 % 0x1_0000_0000_0000_0000) % 0x1_0000_0000_0000_0000 }

  // ----- What the callers rely on

  function Concat(chunks: seq<seq<Byte>>): seq<Byte> {
    if chunks == [] then [] else Concat(chunks[..|chunks| - 1]) + chunks[|chunks| - 1]
  }

  /** Every way of cutting a message into Update calls gives its one digest. */
  method HashChunks(impl: Impl, o: Ops, init: State, chunks: seq<seq<Byte>>) returns (out: seq<Byte>)
    requires Laws(o)
    ensures out == HashWith(o, init, Concat(chunks))
  {
    var hasher := new Hasher(impl, o, init);
    for i := 0 to |chunks|
      invariant hasher.Valid() && hasher.message == Concat(chunks[..i]) && hasher.ops == o && hasher.init == init
      invariant fresh(hasher) && fresh(hasher.buf)
    {
      assert chunks[..i + 1][..i] == chunks[..i];
      hasher.Update(chunks[i]);
    }
    assert chunks[..|chunks|] == chunks;
    out := hasher.Final();
  }

  method HashOne(impl: Impl, o: Ops, init: State, data: seq<Byte>) returns (out: seq<Byte>)
    requires Laws(o)
    ensures out == HashWith(o, init, data)
  {
    var hasher := new Hasher(impl, o, init);
    hasher.Update(data);
    assert [] + data == data;
    out := hasher.Final();
  }

  /** The file with its 32 digest bytes at `at` taken as zero. */
  function Zeroed(data: seq<Byte>, at: nat): seq<Byte>
    requires at + 32 <= |data|
  {
    data[..at] + Zeros(32) + data[at + 32..]
  }

  /** The three-part integrity hash: before the field, zeros, after the field. */
  method HashZeroed(impl: Impl, o: Ops, init: State, data: seq<Byte>, at: nat) returns (out: seq<Byte>)
    requires Laws(o) && at + 32 <= |data|
    ensures out == HashWith(o, init, Zeroed(data, at))
  {
    out := HashChunks(impl, o, init, [data[..at], Zeros(32), data[at + 32..]]);
    ThreeParts(data[..at], Zeros(32), data[at + 32..]);
  }

  lemma ThreeParts(a: seq<Byte>, b: seq<Byte>, c: seq<Byte>)
    ensures Concat([a, b, c]) == a + b + c
  {
    assert [a, b, c][..2] == [a, b] && [a, b][..1] == [a] && [a][..0] == [];
    assert Concat([a]) == [] + a;
    assert Concat([a, b]) == a + b;
  }

  function Sealed(data: seq<Byte>, at: nat, digest: seq<Byte>): (r: seq<Byte>)
    requires at + 32 <= |data| && |digest| == 32
    ensures |r| == |data| && r[at..at + 32] == digest
  {
    data[..at] + digest + data[at + 32..]
  }

  lemma ZeroedSeal(data: seq<Byte>, at: nat, digest: seq<Byte>)
    requires at + 32 <= |data| && |digest| == 32 && data[at..at + 32] == Zeros(32)
    ensures Zeroed(Sealed(data, at, digest), at) == data
  {
    assert data[..at] + data[at..at + 32] + data[at + 32..] == data;
  }

  /** What sealing writes, reading accepts: hashing the zeroed blob in one call and comparing the three-part hash of
      the sealed blob agree, on either implementation; and reading accepts no other digest bytes. */
  method SealThenRead(sealer: Impl, reader: Impl, o: Ops, init: State, data: seq<Byte>, at: nat, stored: seq<Byte>)
    returns (accepted: bool)
    requires Laws(o) && at + 32 <= |data| && data[at..at + 32] == Zeros(32) && |stored| == 32
    ensures accepted <==> stored == HashWith(o, init, data)
  {
    var digest := HashOne(sealer, o, init, data);
    var blob := Sealed(data, at, stored);
    var check := HashZeroed(reader, o, init, blob, at);
    ZeroedSeal(data, at, stored);
    accepted := check == blob[at..at + 32];
    assert digest == check;
  }
}
