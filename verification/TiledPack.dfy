/** The tiled kernels' weight packer: src/matmul.cpp lines 510-568. */
module TiledPack {
  import opened Arith
  import opened DotRow

  /** A 16-bit element: one k-pair of one output row, low byte first. */
  datatype Pair = Pair(lo: Int8, hi: Int8)

  /** A 128-bit register as eight 16-bit elements. */
  type Register = r: seq<Pair> | |r| == 8 witness seq(8, _ => Pair(0, 0))

  function UnpackLo16(a: Register, b: Register): Register { [a[0], b[0], a[1], b[1], a[2], b[2], a[3], b[3]] }

  function UnpackHi16(a: Register, b: Register): Register { [a[4], b[4], a[5], b[5], a[6], b[6], a[7], b[7]] }

  function UnpackLo32(a: Register, b: Register): Register { [a[0], a[1], b[0], b[1], a[2], a[3], b[2], b[3]] }

  function UnpackHi32(a: Register, b: Register): Register { [a[4], a[5], b[4], b[5], a[6], a[7], b[6], b[7]] }

  function UnpackLo64(a: Register, b: Register): Register { a[..4] + b[..4] }

  function UnpackHi64(a: Register, b: Register): Register { a[4..] + b[4..] }

  /** Element `q` of eight registers, in register order. */
  function Column(r: seq<Register>, q: nat): Register
    requires |r| == 8 && q < 8
  {
    [r[0][q], r[1][q], r[2][q], r[3][q], r[4][q], r[5][q], r[6][q], r[7][q]]
  }

  lemma ColumnAt(r: seq<Register>, q: nat, i: nat)
    requires |r| == 8 && q < 8 && i < 8
    ensures Column(r, q)[i] == r[i][q]
  {}

  /** The first two rounds on four registers: each result holds two columns of the four rows. */
  method Transpose4(r0: Register, r1: Register, r2: Register, r3: Register)
    returns (b0: Register, b1: Register, b2: Register, b3: Register)
    ensures b0 == [r0[0], r1[0], r2[0], r3[0], r0[1], r1[1], r2[1], r3[1]]
    ensures b1 == [r0[2], r1[2], r2[2], r3[2], r0[3], r1[3], r2[3], r3[3]]
    ensures b2 == [r0[4], r1[4], r2[4], r3[4], r0[5], r1[5], r2[5], r3[5]]
    ensures b3 == [r0[6], r1[6], r2[6], r3[6], r0[7], r1[7], r2[7], r3[7]]
  {
    var a0, a1 := UnpackLo16(r0, r1), UnpackHi16(r0, r1);
    var a2, a3 := UnpackLo16(r2, r3), UnpackHi16(r2, r3);
    b0, b1 := UnpackLo32(a0, a2), UnpackHi32(a0, a2);
    b2, b3 := UnpackLo32(a1, a3), UnpackHi32(a1, a3);
  }

  /** The SSE2 transpose: on return register `q` holds pair `q` of rows 0..7. */
  method Transpose8x8(r: seq<Register>) returns (t: seq<Register>)
    requires |r| == 8
    ensures |t| == 8 && forall q :: 0 <= q < 8 ==> t[q] == Column(r, q)
  {
    var b0, b1, b2, b3 := Transpose4(r[0], r[1], r[2], r[3]);
    var b4, b5, b6, b7 := Transpose4(r[4], r[5], r[6], r[7]);
    t := [
      UnpackLo64(b0, b4), UnpackHi64(b0, b4), UnpackLo64(b1, b5), UnpackHi64(b1, b5),
      UnpackLo64(b2, b6), UnpackHi64(b2, b6), UnpackLo64(b3, b7), UnpackHi64(b3, b7)
    ];
  }

  // ----- The panel

  predicate Rows(w: seq<seq<Int8>>, channels: nat) { forall n :: 0 <= n < |w| ==> |w[n]| == channels }

  /** Byte `x` of the panel that starts at output row `n0`: pairs of 16 rows, zero past the rows and the channels. */
  function PanelByte(w: seq<seq<Int8>>, channels: nat, n0: nat, nEnd: nat, x: nat): Int8
    requires nEnd <= |w| && Rows(w, channels)
  {
    var n, k := n0 + x % 32 / 2, x / 32 * 2 + x % 2;
    if n < nEnd && k < channels then w[n][k] else 0
  }

  /** Sixteen bytes read as a register. */
  function Load(row: seq<Int8>, k: nat): Register
    requires k + 16 <= |row|
  {
    seq(8, j requires 0 <= j < 8 => Pair(row[k + 2 * j], row[k + 2 * j + 1]))
  }

  function Byte(r: Register, j: nat): Int8
    requires j < 16
  {
    if j % 2 == 0 then r[j / 2].lo else r[j / 2].hi
  }

  method Store(dst: array<Int8>, at: nat, r: Register)
    requires at + 16 <= dst.Length
    modifies dst
    ensures forall x :: 0 <= x < dst.Length ==> dst[x] == if at <= x < at + 16 then Byte(r, x - at) else old(dst[x])
  {
    for j := 0 to 8
      invariant forall x ::
          0 <= x < dst.Length ==> dst[x] == if at <= x < at + 2 * j then Byte(r, x - at) else old(dst[x])
    {
      dst[at + 2 * j], dst[at + 2 * j + 1] := r[j].lo, r[j].hi;
    }
  }

  /** A column of rows `n0 + 8 h ..` loaded at pair `kq` is one half of panel row `kq + q`. */
  lemma ColumnIsPanelRow(w: seq<seq<Int8>>, channels: nat, n0: nat, nEnd: nat, kq: nat, h: nat, q: nat, j: nat)
    requires nEnd <= |w| && Rows(w, channels) && n0 + 16 <= nEnd && 2 * kq + 16 <= channels && h < 2 && q < 8 && j < 16
    ensures Byte(Column(HalfPanel(w, channels, n0, nEnd, kq, h), q), j)
         == PanelByte(w, channels, n0, nEnd, (kq + q) * 32 + h * 16 + j)
  {
    var x := (kq + q) * 32 + h * 16 + j;
    assert x / 32 == kq + q && x % 32 == h * 16 + j && x % 2 == j % 2;
    var i := j / 2;
    assert x % 32 / 2 == h * 8 + i;
    var rows := HalfPanel(w, channels, n0, nEnd, kq, h);
    ColumnAt(rows, q, i);
    assert rows[i][q] == Pair(w[n0 + h * 8 + i][2 * kq + 2 * q], w[n0 + h * 8 + i][2 * kq + 2 * q + 1]);
  }

  function HalfPanel(w: seq<seq<Int8>>, channels: nat, n0: nat, nEnd: nat, kq: nat, h: nat): (r: seq<Register>)
    requires nEnd <= |w| && Rows(w, channels) && n0 + 16 <= nEnd && 2 * kq + 16 <= channels && h < 2
    ensures |r| == 8
  {
    seq<Register>(8, i requires 0 <= i < 8 => Load(w[n0 + h * 8 + i], 2 * kq))
  }

  /** Byte `x` of the block at `kq` is written once the loops have reached half `h`, register `q`. */
  predicate Written(x: nat, kq: nat, h: nat, q: nat) {
    x % 32 / 16 < h || (x % 32 / 16 == h && x / 32 < kq + q)
  }

  /** A full panel's next 16 channels, through two transposes. */
  method PackBlock(w: seq<seq<Int8>>, channels: nat, n0: nat, nEnd: nat, dst: array<Int8>, base: nat, kq: nat)
    requires nEnd <= |w| && Rows(w, channels) && n0 + 16 <= nEnd && 2 * kq + 16 <= channels
    requires base + (kq + 8) * 32 <= dst.Length
    modifies dst
    ensures forall y :: base + kq * 32 <= y < base + (kq + 8) * 32 ==>
        dst[y] == PanelByte(w, channels, n0, nEnd, y - base)
    ensures forall y :: 0 <= y < dst.Length && !(base + kq * 32 <= y < base + (kq + 8) * 32) ==> dst[y] == old(dst[y])
  {
    for h := 0 to 2
      invariant forall y :: base + kq * 32 <= y < base + (kq + 8) * 32 && Written(y - base, kq, h, 0) ==>
          dst[y] == PanelByte(w, channels, n0, nEnd, y - base)
      invariant forall y ::
          0 <= y < dst.Length && !(base + kq * 32 <= y < base + (kq + 8) * 32) ==> dst[y] == old(dst[y])
    {
      var t := Transpose8x8(HalfPanel(w, channels, n0, nEnd, kq, h));
      for q := 0 to 8
        invariant forall y :: base + kq * 32 <= y < base + (kq + 8) * 32 && Written(y - base, kq, h, q) ==>
            dst[y] == PanelByte(w, channels, n0, nEnd, y - base)
        invariant forall y ::
            0 <= y < dst.Length && !(base + kq * 32 <= y < base + (kq + 8) * 32) ==> dst[y] == old(dst[y])
      {
        forall j | 0 <= j < 16
          ensures Byte(t[q], j) == PanelByte(w, channels, n0, nEnd, (kq + q) * 32 + h * 16 + j)
        {
          ColumnIsPanelRow(w, channels, n0, nEnd, kq, h, q, j);
        }
        Store(dst, base + (kq + q) * 32 + h * 16, t[q]);
      }
    }
  }

  /** The packer: output rows `n0 ..+ 16` into `dst[base ..+ 16 * kp]`, rows from `nEnd` on and channels from
      `channels` on as zero, and nothing else written. */
  method PackPanel16(w: seq<seq<Int8>>, channels: nat, n0: nat, nEnd: nat, dst: array<Int8>, base: nat, kp: nat)
    requires nEnd <= |w| && Rows(w, channels) && channels <= kp && kp % 2 == 0 && base + kp / 2 * 32 <= dst.Length
    modifies dst
    ensures forall y :: base <= y < base + kp / 2 * 32 ==> dst[y] == PanelByte(w, channels, n0, nEnd, y - base)
    ensures forall y :: 0 <= y < dst.Length && !(base <= y < base + kp / 2 * 32) ==> dst[y] == old(dst[y])
  {
    var k := 0;
    if n0 + 16 <= nEnd {
      while k + 16 <= channels
        invariant k % 16 == 0 && k <= channels
        invariant forall y :: base <= y < base + k / 2 * 32 ==> dst[y] == PanelByte(w, channels, n0, nEnd, y - base)
        invariant forall y :: 0 <= y < dst.Length && !(base <= y < base + kp / 2 * 32) ==> dst[y] == old(dst[y])
      {
        PackBlock(w, channels, n0, nEnd, dst, base, k / 2);
        k := k + 16;
      }
    }
    while k < kp
      invariant k % 2 == 0 && k <= kp
      invariant forall y :: base <= y < base + k / 2 * 32 ==> dst[y] == PanelByte(w, channels, n0, nEnd, y - base)
      invariant forall y :: 0 <= y < dst.Length && !(base <= y < base + kp / 2 * 32) ==> dst[y] == old(dst[y])
    {
      PackPair(w, channels, n0, nEnd, dst, base, k);
      k := k + 2;
    }
  }

  /** One pair of channels of sixteen rows, byte by byte. */
  method PackPair(w: seq<seq<Int8>>, channels: nat, n0: nat, nEnd: nat, dst: array<Int8>, base: nat, k: nat)
    requires nEnd <= |w| && Rows(w, channels) && k % 2 == 0 && base + (k / 2 + 1) * 32 <= dst.Length
    modifies dst
    ensures forall y :: base + k / 2 * 32 <= y < base + (k / 2 + 1) * 32 ==>
        dst[y] == PanelByte(w, channels, n0, nEnd, y - base)
    ensures forall y ::
        0 <= y < dst.Length && !(base + k / 2 * 32 <= y < base + (k / 2 + 1) * 32) ==> dst[y] == old(dst[y])
  {
    for i := 0 to 16
      invariant forall y ::
          base + k / 2 * 32 <= y < base + k / 2 * 32 + i * 2 ==> dst[y] == PanelByte(w, channels, n0, nEnd, y - base)
      invariant forall y ::
          0 <= y < dst.Length && !(base + k / 2 * 32 <= y < base + (k / 2 + 1) * 32) ==> dst[y] == old(dst[y])
    {
      for e := 0 to 2
        invariant forall y ::
          base + k / 2 * 32 <= y < base + k / 2 * 32 + i * 2 + e ==>
              dst[y] == PanelByte(w, channels, n0, nEnd, y - base)
        invariant forall y ::
            0 <= y < dst.Length && !(base + k / 2 * 32 <= y < base + (k / 2 + 1) * 32) ==> dst[y] == old(dst[y])
      {
        var x := k / 2 * 32 + i * 2 + e;
        assert x / 32 == k / 2 && x % 32 / 2 == i && x % 2 == e;
        dst[base + x] := if n0 + i < nEnd && k + e < channels then w[n0 + i][k + e] else 0;
      }
    }
  }
}
