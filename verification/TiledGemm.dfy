/** The tiled prefill GEMM and its dispatch: src/matmul.cpp lines 500-508, 570-690 and 1116-1144.

Matrices are sequences of rows; the packed panel and the output are arrays the kernels write in place. One
micro-kernel and one driver serve both tiers: AVX2 has 8-lane registers and 4-token tiles over one 16-output
panel whose second half starts 16 bytes into each row, AVX-512 has 16-lane registers and 8-token tiles over two
panels, the second 16 * kp bytes after the first. */
module TiledGemm {
  import opened Arith
  import opened DotRow
  import opened TiledPack

  const TILED_MIN_TOKENS: nat := 8

  /** The first `q` pairs of an output column that starts at byte `at` of each 32-byte panel row. */
  function PairDot(a: seq<int>, panel: seq<int>, at: nat, q: nat): int
    requires 2 * q <= |a| && at + 32 * q <= |panel| + 30
  {
    if q == 0 then
      0
    else
      PairDot(a, panel, at, q - 1)
        + Madd(a[2 * q - 2], a[2 * q - 1], panel[at + 32 * q - 32], panel[at + 32 * q - 31])
  }

  lemma MaddBound(a0: Int8, a1: Int8, w0: Int8, w1: Int8)
    ensures -0x8000 <= Madd(a0, a1, w0, w1) <= 0x8000
  {
    ProductFits(a0, w0);
    ProductFits(a1, w1);
  }

  lemma {:induction false} PairDotBound(a: seq<Int8>, panel: seq<Int8>, at: nat, q: nat)
    requires 2 * q <= |a| && at + 32 * q <= |panel| + 30
    ensures -(q * 0x8000) <= PairDot(a, panel, at, q) <= q * 0x8000
  {
    if q > 0 {
      PairDotBound(a, panel, at, q - 1);
      MaddBound(a[2 * q - 2], a[2 * q - 1], panel[at + 32 * q - 32], panel[at + 32 * q - 31]);
    }
  }

  // ----- Registers

  /** vpmaddwd of one broadcast activation pair with widened weight bytes. */
  function MaddLanes(a0: int, a1: int, w: seq<int>, lanes: nat): (r: seq<int>)
    requires |w| == 2 * lanes
    ensures |r| == lanes
  {
    seq(lanes, i requires 0 <= i < lanes => Madd(a0, a1, w[2 * i], w[2 * i + 1]))
  }

  /** A register whose lane `i` holds pairs `q0 ..< q` of the column at `at + 2 i`. */
  ghost predicate Holds(r: seq<int>, a: seq<int>, panel: seq<int>, at: nat, q0: nat, q: nat, lanes: nat)
    requires q0 <= q && 2 * q <= |a| && (q > 0 ==> at + 32 * q + 2 * lanes <= |panel| + 32)
  {
    && |r| == lanes && LanesWithin(r, (q - q0) * 0x8000)
    && (q == 0 || forall i :: 0 <= i < lanes ==>
        r[i] == PairDot(a, panel, at + 2 * i, q) - PairDot(a, panel, at + 2 * i, q0))
    && (q == 0 ==> LanesWithin(r, 0))
  }

  /** One multiply-add step keeps it, without wrap-around inside a flush window. */
  lemma StepHolds(r: seq<I32>, a: seq<Int8>, panel: seq<Int8>, at: nat, q0: nat, q: nat, lanes: nat, w: seq<Int8>)
    requires q0 <= q < q0 + FLUSH_BLOCKS && 2 * (q + 1) <= |a| && at + 32 * q + 2 * lanes <= |panel|
    requires w == panel[at + 32 * q..at + 32 * q + 2 * lanes] && Holds(r, a, panel, at, q0, q, lanes)
    ensures Holds(AddLanes(r, MaddLanes(a[2 * q], a[2 * q + 1], w, lanes)), a, panel, at, q0, q + 1, lanes)
  {
    var p := MaddLanes(a[2 * q], a[2 * q + 1], w, lanes);
    forall i | 0 <= i < lanes
      ensures -0x8000 <= p[i] <= 0x8000
      ensures p[i] == PairDot(a, panel, at + 2 * i, q + 1) - PairDot(a, panel, at + 2 * i, q)
    {
      MaddBound(a[2 * q], a[2 * q + 1], w[2 * i], w[2 * i + 1]);
    }
    LanesAddExact(r, p, q - q0);
  }

  /** The two registers of one token's row of the tile. */
  datatype Halves = Halves(first: seq<I32>, second: seq<I32>)

  ghost predicate RowHolds(h: Halves, a: seq<int>, panel: seq<int>, step: nat, q0: nat, q: nat, lanes: nat)
    requires q0 <= q && 2 * q <= |a| && (q > 0 ==> step + 32 * q + 2 * lanes <= |panel| + 32)
  {
    Holds(h.first, a, panel, 0, q0, q, lanes) && Holds(h.second, a, panel, step, q0, q, lanes)
  }

  /** Every token row is as long as the panel is deep, and every load lies inside the panel. */
  predicate Shaped(a: seq<seq<Int8>>, panel: seq<Int8>, pairs: nat, step: nat, lanes: nat) {
    && lanes <= 16 && (forall m :: 0 <= m < |a| ==> |a[m]| == 2 * pairs)
    && (pairs > 0 ==> step + 32 * pairs + 2 * lanes <= |panel| + 32)
  }

  /** One flush window: pairs `q0 ..< qEnd` of every token row into int32 registers. */
  method Window(a: seq<seq<Int8>>, panel: seq<Int8>, pairs: nat, step: nat, lanes: nat, q0: nat, qEnd: nat)
    returns (acc: seq<Halves>)
    requires Shaped(a, panel, pairs, step, lanes) && q0 < qEnd <= pairs && qEnd <= q0 + FLUSH_BLOCKS
    ensures |acc| == |a| && forall m :: 0 <= m < |a| ==> RowHolds(acc[m], a[m], panel, step, q0, qEnd, lanes)
  {
    acc := seq(|a|, _ => Halves(ZeroLanes(lanes), ZeroLanes(lanes)));
    var q := q0;
    while q < qEnd
      invariant q0 <= q <= qEnd && |acc| == |a|
      invariant forall m :: 0 <= m < |a| ==> RowHolds(acc[m], a[m], panel, step, q0, q, lanes)
    {
      var w0 := panel[32 * q..32 * q + 2 * lanes];
      var w1 := panel[step + 32 * q..step + 32 * q + 2 * lanes];
      for m := 0 to |a|
        invariant |acc| == |a|
        invariant forall n :: 0 <= n < m ==> RowHolds(acc[n], a[n], panel, step, q0, q + 1, lanes)
        invariant forall n :: m <= n < |a| ==> RowHolds(acc[n], a[n], panel, step, q0, q, lanes)
      {
        var row := StepRow(acc[m], a[m], panel, step, lanes, q0, q, w0, w1);
        acc := acc[m := row];
      }
      q := q + 1;
    }
  }

  method StepRow(h: Halves, a: seq<Int8>, panel: seq<Int8>, step: nat, lanes: nat, q0: nat, q: nat,
                 w0: seq<Int8>, w1: seq<Int8>)
    returns (r: Halves)
    requires q0 <= q < q0 + FLUSH_BLOCKS && 2 * (q + 1) <= |a| && step + 32 * q + 2 * lanes <= |panel|
    requires w0 == panel[32 * q..32 * q + 2 * lanes] && w1 == panel[step + 32 * q..step + 32 * q + 2 * lanes]
    requires RowHolds(h, a, panel, step, q0, q, lanes)
    ensures RowHolds(r, a, panel, step, q0, q + 1, lanes)
  {
    StepHolds(h.first, a, panel, 0, q0, q, lanes, w0);
    StepHolds(h.second, a, panel, step, q0, q, lanes, w1);
    var p0, p1 := MaddLanes(a[2 * q], a[2 * q + 1], w0, lanes), MaddLanes(a[2 * q], a[2 * q + 1], w1, lanes);
    r := Halves(AddLanes(h.first, p0), AddLanes(h.second, p1));
  }

  // ----- Micro-kernel

  /** The byte at which output `o` of the tile starts in each panel row. */
  function ColumnAt(o: nat, step: nat, lanes: nat): nat { if o < lanes then 2 * o else step + 2 * (o - lanes) }

  /** The tile's cell: the exact sum over the first `q` pairs. */
  function Cell(a: seq<int>, panel: seq<int>, o: nat, step: nat, lanes: nat, q: nat): int
    requires o < 2 * lanes && 2 * q <= |a| && (q > 0 ==> step + 32 * q + 2 * lanes <= |panel| + 32)
  {
    if q == 0 then 0 else PairDot(a, panel, ColumnAt(o, step, lanes), q)
  }

  lemma CellBound(a: seq<Int8>, panel: seq<Int8>, o: nat, step: nat, lanes: nat, q: nat)
    requires o < 2 * lanes && 2 * q <= |a| && (q > 0 ==> step + 32 * q + 2 * lanes <= |panel| + 32)
    ensures -(q * 0x8000) <= Cell(a, panel, o, step, lanes, q) <= q * 0x8000
  {
    if q > 0 { PairDotBound(a, panel, ColumnAt(o, step, lanes), q); }
  }

  lemma LaneIsCellPart(h: Halves, a: seq<int>, panel: seq<int>, step: nat, q0: nat, q: nat, lanes: nat, o: nat)
    requires q0 < q && 2 * q <= |a| && step + 32 * q + 2 * lanes <= |panel| + 32 && o < 2 * lanes
    requires RowHolds(h, a, panel, step, q0, q, lanes)
    ensures (if o < lanes then h.first[o] else h.second[o - lanes])
         == Cell(a, panel, o, step, lanes, q) - Cell(a, panel, o, step, lanes, q0)
  {}

  /** Adds one token row's registers to its int64 cells. */
  method FlushRow(h: Halves, a: seq<Int8>, panel: seq<Int8>, step: nat, q0: nat, q: nat, lanes: nat,
                  acc64: array2<I64>, row: nat)
    requires q0 < q && 2 * q <= |a| <= MAX_CHANNELS + 1 && step + 32 * q + 2 * lanes <= |panel| + 32
    requires RowHolds(h, a, panel, step, q0, q, lanes) && row < acc64.Length0 && 2 * lanes <= acc64.Length1
    requires forall o :: 0 <= o < 2 * lanes ==> acc64[row, o] == Cell(a, panel, o, step, lanes, q0)
    modifies acc64
    ensures forall o :: 0 <= o < 2 * lanes ==> acc64[row, o] == Cell(a, panel, o, step, lanes, q)
    ensures forall r, o :: 0 <= r < acc64.Length0 && r != row && 0 <= o < acc64.Length1 ==>
        acc64[r, o] == old(acc64[r, o])
  {
    for o := 0 to 2 * lanes
      invariant forall c :: 0 <= c < o ==> acc64[row, c] == Cell(a, panel, c, step, lanes, q)
      invariant forall c :: o <= c < 2 * lanes ==> acc64[row, c] == Cell(a, panel, c, step, lanes, q0)
      invariant forall r, c ::
          0 <= r < acc64.Length0 && r != row && 0 <= c < acc64.Length1 ==> acc64[r, c] == old(acc64[r, c])
    {
      LaneIsCellPart(h, a, panel, step, q0, q, lanes, o);
      CellBound(a, panel, o, step, lanes, q);
      var lane: int := if o < lanes then h.first[o] else h.second[o - lanes];
      acc64[row, o] := acc64[row, o] + lane;
    }
  }

  /** The micro-kernel: every cell of the tile becomes the exact sum over all pairs. */
  method TiledMicro(a: seq<seq<Int8>>, panel: seq<Int8>, pairs: nat, step: nat, lanes: nat, acc64: array2<I64>,
                    row0: nat)
    requires Shaped(a, panel, pairs, step, lanes) && 2 * pairs <= MAX_CHANNELS + 1
    requires row0 + |a| <= acc64.Length0 && 2 * lanes <= acc64.Length1
    requires forall r, o :: row0 <= r < row0 + |a| && 0 <= o < 2 * lanes ==> acc64[r, o] == 0
    modifies acc64
    ensures forall r, o :: row0 <= r < row0 + |a| && 0 <= o < 2 * lanes ==>
        acc64[r, o] == Cell(a[r - row0], panel, o, step, lanes, pairs)
    ensures forall r, o :: 0 <= r < acc64.Length0 && !(row0 <= r < row0 + |a|) && 0 <= o < acc64.Length1 ==>
        acc64[r, o] == old(acc64[r, o])
  {
    var q0 := 0;
    while q0 < pairs
      invariant 0 <= q0
      invariant forall r, o :: row0 <= r < row0 + |a| && 0 <= o < 2 * lanes ==>
          acc64[r, o] == Cell(a[r - row0], panel, o, step, lanes, Lesser(q0, pairs))
      invariant forall r, o :: 0 <= r < acc64.Length0 && !(row0 <= r < row0 + |a|) && 0 <= o < acc64.Length1 ==>
          acc64[r, o] == old(acc64[r, o])
    {
      var qEnd := Lesser(pairs, q0 + FLUSH_BLOCKS);
      var acc := Window(a, panel, pairs, step, lanes, q0, qEnd);
      for m := 0 to |a|
        invariant forall r, o :: row0 <= r < row0 + m && 0 <= o < 2 * lanes ==>
            acc64[r, o] == Cell(a[r - row0], panel, o, step, lanes, qEnd)
        invariant forall r, o :: row0 + m <= r < row0 + |a| && 0 <= o < 2 * lanes ==>
            acc64[r, o] == Cell(a[r - row0], panel, o, step, lanes, q0)
        invariant forall r, o :: 0 <= r < acc64.Length0 && !(row0 <= r < row0 + |a|) && 0 <= o < acc64.Length1 ==>
            acc64[r, o] == old(acc64[r, o])
      {
        FlushRow(acc[m], a[m], panel, step, q0, qEnd, lanes, acc64, row0 + m);
      }
      q0 := q0 + FLUSH_BLOCKS;
    }
  }

  function Lesser(x: nat, y: nat): nat { if x < y then x else y }

  // ----- From packed panels to dot products

  /** A row widened to `kp` channels, zero past its own. */
  function Padded(row: seq<Int8>, kp: nat): (r: seq<Int8>)
    requires |row| <= kp
    ensures |r| == kp
  {
    row + seq<Int8>(kp - |row|, _ => 0)
  }

  /** Panel rows hold output rows `n0 ..+ 16`, starting at byte `base`. */
  ghost predicate Packed(panel: seq<Int8>, w: seq<seq<Int8>>, channels: nat, n0: nat, nEnd: nat, base: nat, kp: nat)
    requires nEnd <= |w| && Rows(w, channels)
  {
    && base + kp / 2 * 32 <= |panel|
    && forall y :: base <= y < base + kp / 2 * 32 ==> panel[y] == PanelByte(w, channels, n0, nEnd, y - base)
  }

  lemma PackedPair(panel: seq<Int8>, w: seq<seq<Int8>>, channels: nat, n0: nat, nEnd: nat, base: nat, kp: nat,
                   o: nat, q: nat, e: nat)
    requires nEnd <= |w| && Rows(w, channels) && Packed(panel, w, channels, n0, nEnd, base, kp)
    requires o < 16 && n0 + o < nEnd && q < kp / 2 && e < 2
    ensures panel[base + 32 * q + 2 * o + e] == if 2 * q + e < channels then w[n0 + o][2 * q + e] else 0
  {
    var x := 32 * q + 2 * o + e;
    assert x / 32 == q;
    assert x % 32 == 2 * o + e;
    assert panel[base + x] == PanelByte(w, channels, n0, nEnd, base + x - base);
  }

  function Channel(row: seq<Int8>, k: nat): Int8 { if k < |row| then row[k] else 0 }

  ghost predicate PairAt(panel: seq<Int8>, row: seq<Int8>, at: nat, p: nat) {
    at + 32 * p + 2 <= |panel|
    && panel[at + 32 * p] == Channel(row, 2 * p) && panel[at + 32 * p + 1] == Channel(row, 2 * p + 1)
  }

  lemma PairDotStep(a: seq<int>, panel: seq<int>, at: nat, q: nat)
    requires 2 * q + 2 <= |a| && at + 32 * q + 2 <= |panel|
    ensures PairDot(a, panel, at, q + 1)
         == PairDot(a, panel, at, q) + Madd(a[2 * q], a[2 * q + 1], panel[at + 32 * q], panel[at + 32 * q + 1])
  {}

  /** Two runs with the same start and the same steps end together. */
  lemma {:induction false} Telescopes(f: seq<int>, g: seq<int>)
    requires |f| == |g| > 0 && f[0] == g[0] && forall k :: 0 < k < |f| ==> f[k] - f[k - 1] == g[k] - g[k - 1]
    ensures f[|f| - 1] == g[|g| - 1]
  {
    if |f| > 1 { Telescopes(f[..|f| - 1], g[..|g| - 1]); }
  }

  /** The zero pads meet: a packed column against a padded row is the dot product of the unpadded rows. */
  lemma ColumnSum(a: seq<Int8>, act: seq<Int8>, row: seq<Int8>, panel: seq<Int8>, at: nat, q: nat)
    requires |act| == |row| <= |a| && forall k :: 0 <= k < |a| ==> a[k] == Channel(act, k)
    requires 2 * q <= |a| && at + 32 * q <= |panel| + 30 && forall p :: 0 <= p < q ==> PairAt(panel, row, at, p)
    ensures PairDot(a, panel, at, q) == Dot(act[..Lesser(2 * q, |act|)], row[..Lesser(2 * q, |act|)])
  {
    var f := seq(q + 1, k requires 0 <= k <= q => PairDot(a, panel, at, k));
    var g := seq(q + 1, k requires 0 <= k <= q => Dot(act[..Lesser(2 * k, |act|)], row[..Lesser(2 * k, |act|)]));
    forall k | 0 < k <= q ensures f[k] - f[k - 1] == g[k] - g[k - 1] {
      assert PairAt(panel, row, at, k - 1);
      ColumnStep(a, act, row, panel, at, k - 1);
    }
    Telescopes(f, g);
  }

  lemma ColumnStep(a: seq<Int8>, act: seq<Int8>, row: seq<Int8>, panel: seq<Int8>, at: nat, k: nat)
    requires |act| == |row| <= |a| && 2 * k + 2 <= |a| && PairAt(panel, row, at, k)
    requires a[2 * k] == Channel(act, 2 * k) && a[2 * k + 1] == Channel(act, 2 * k + 1)
    ensures PairDot(a, panel, at, k + 1) - PairDot(a, panel, at, k)
         == Dot(act[..Lesser(2 * k + 2, |act|)], row[..Lesser(2 * k + 2, |act|)])
          - Dot(act[..Lesser(2 * k, |act|)], row[..Lesser(2 * k, |act|)])
  {
    PairDotStep(a, panel, at, k);
    PaddedStep(act, row, k, a[2 * k], a[2 * k + 1], panel[at + 32 * k], panel[at + 32 * k + 1]);
  }

  lemma PackedColumn(act: seq<Int8>, panel: seq<Int8>, w: seq<seq<Int8>>, channels: nat, n0: nat,
                     nEnd: nat, base: nat, kp: nat, o: nat)
    requires nEnd <= |w| && Rows(w, channels) && Packed(panel, w, channels, n0, nEnd, base, kp)
    requires |act| == channels <= kp && kp % 2 == 0 && o < 16 && n0 + o < nEnd
    ensures base + 2 * o + 32 * (kp / 2) <= |panel| + 30
    ensures PairDot(Padded(act, kp), panel, base + 2 * o, kp / 2) == Dot(act, w[n0 + o])
  {
    var row := w[n0 + o];
    var at := base + 2 * o;
    forall p | 0 <= p < kp / 2 ensures PairAt(panel, row, at, p) {
      PackedPair(panel, w, channels, n0, nEnd, base, kp, o, p, 0);
      PackedPair(panel, w, channels, n0, nEnd, base, kp, o, p, 1);
    }
    ColumnSum(Padded(act, kp), act, row, panel, at, kp / 2);
    assert act[..channels] == act && row[..channels] == row;
  }

  /** One pair of padded channels adds the next unpadded products, or nothing. */
  lemma PaddedStep(act: seq<Int8>, row: seq<Int8>, q: nat, a0: Int8, a1: Int8, w0: Int8, w1: Int8)
    requires |act| == |row| && a0 == Channel(act, 2 * q) && a1 == Channel(act, 2 * q + 1)
    requires w0 == Channel(row, 2 * q) && w1 == Channel(row, 2 * q + 1)
    ensures Dot(act[..Lesser(2 * q + 2, |act|)], row[..Lesser(2 * q + 2, |act|)])
         == Dot(act[..Lesser(2 * q, |act|)], row[..Lesser(2 * q, |act|)])
          + Madd(a0, a1, w0, w1)
  {
    if 2 * q < |act| { DotStep(act, row, 2 * q); }
    if 2 * q + 1 < |act| { DotStep(act, row, 2 * q + 1); }
  }

  /** What both drivers have in their scratch for the tile at `n0`. */
  ghost predicate TilePacked(panel: seq<Int8>, w: seq<seq<Int8>>, channels: nat, n0: nat, nEnd: nat, kp: nat,
                             wide: bool)
    requires nEnd <= |w| && Rows(w, channels)
  {
    && Packed(panel, w, channels, n0, nEnd, 0, kp)
    && (wide ==> Packed(panel, w, channels, n0 + 16, nEnd, kp / 2 * 32, kp))
  }

  function LaneCount(wide: bool): nat { if wide then 16 else 8 }

  function Step(wide: bool, kp: nat): nat { if wide then kp / 2 * 32 else 16 }

  lemma CellIsDot(act: seq<Int8>, panel: seq<Int8>, w: seq<seq<Int8>>, channels: nat, n0: nat, nEnd: nat, kp: nat,
                  wide: bool, o: nat)
    requires nEnd <= |w| && Rows(w, channels) && TilePacked(panel, w, channels, n0, nEnd, kp, wide)
    requires |act| == channels <= kp && kp % 2 == 0 && o < 2 * LaneCount(wide) && n0 + o < nEnd
    ensures Cell(Padded(act, kp), panel, o, Step(wide, kp), LaneCount(wide), kp / 2) == Dot(act, w[n0 + o])
  {
    if kp == 0 {
      assert act == [];
    } else if o < 16 {
      assert Packed(panel, w, channels, n0, nEnd, 0, kp);
      FirstPanel(act, panel, w, channels, n0, nEnd, kp, Step(wide, kp), LaneCount(wide), o);
    } else {
      assert Packed(panel, w, channels, n0 + 16, nEnd, kp / 2 * 32, kp);
      SecondPanel(act, panel, w, channels, n0 + 16, nEnd, kp, kp / 2 * 32, o - 16);
      assert n0 + 16 + (o - 16) == n0 + o;
    }
  }

  lemma FirstPanel(act: seq<Int8>, panel: seq<Int8>, w: seq<seq<Int8>>, channels: nat, n0: nat, nEnd: nat, kp: nat,
                   step: nat, lanes: nat, o: nat)
    requires nEnd <= |w| && Rows(w, channels) && Packed(panel, w, channels, n0, nEnd, 0, kp)
    requires |act| == channels <= kp && kp % 2 == 0 < kp && o < 16 && n0 + o < nEnd
    requires o < 2 * lanes && step + 32 * (kp / 2) + 2 * lanes <= |panel| + 32 && ColumnAt(o, step, lanes) == 0 + 2 * o
    ensures Cell(Padded(act, kp), panel, o, step, lanes, kp / 2) == Dot(act, w[n0 + o])
  {
    PackedColumn(act, panel, w, channels, n0, nEnd, 0, kp, o);
    CellColumn(Padded(act, kp), panel, o, step, lanes, kp / 2, 0 + 2 * o);
  }

  lemma SecondPanel(act: seq<Int8>, panel: seq<Int8>, w: seq<seq<Int8>>, channels: nat, n1: nat, nEnd: nat, kp: nat,
                    base: nat, c: nat)
    requires nEnd <= |w| && Rows(w, channels) && Packed(panel, w, channels, n1, nEnd, base, kp)
    requires |act| == channels <= kp && kp % 2 == 0 < kp && c < 16 && n1 + c < nEnd
    ensures Cell(Padded(act, kp), panel, c + 16, base, 16, kp / 2) == Dot(act, w[n1 + c])
  {
    PackedColumn(act, panel, w, channels, n1, nEnd, base, kp, c);
    CellColumn(Padded(act, kp), panel, c + 16, base, 16, kp / 2, base + 2 * c);
  }

  lemma CellColumn(a: seq<int>, panel: seq<int>, o: nat, step: nat, lanes: nat, q: nat, at: nat)
    requires o < 2 * lanes && 0 < q && 2 * q <= |a| && step + 32 * q + 2 * lanes <= |panel| + 32
    requires at == ColumnAt(o, step, lanes)
    ensures Cell(a, panel, o, step, lanes, q) == PairDot(a, panel, at, q)
  {}

  // ----- Drivers

  method WidenActivations(activations: seq<seq<Int8>>, channels: nat, kp: nat) returns (a16: seq<seq<Int8>>)
    requires Rows(activations, channels) && channels <= kp
    ensures |a16| == |activations| && forall t :: 0 <= t < |a16| ==> a16[t] == Padded(activations[t], kp)
  {
    a16 := [];
    for t := 0 to |activations|
      invariant |a16| == t && forall s :: 0 <= s < t ==> a16[s] == Padded(activations[s], kp)
    {
      var row := new Int8[kp](_ => 0);
      for k := 0 to channels
        invariant forall j :: 0 <= j < k ==> row[j] == activations[t][j]
        invariant forall j :: k <= j < kp ==> row[j] == 0
      {
        row[k] := activations[t][k];
      }
      assert row[..] == Padded(activations[t], kp);
      a16 := a16 + [row[..]];
    }
  }

  /** The widened activations of a call. */
  ghost predicate Widened(a16: seq<seq<Int8>>, activations: seq<seq<Int8>>, channels: nat, kp: nat) {
    && Rows(activations, channels) && channels <= kp && kp % 2 == 0 && kp <= MAX_CHANNELS + 1
    && |a16| == |activations| && forall t :: 0 <= t < |a16| ==> a16[t] == Padded(activations[t], kp)
  }

  /** The micro-kernel on a whole block, or the one-row kernel on each row of the token tail. */
  method ComputeTile(a: seq<seq<Int8>>, panel: seq<Int8>, pairs: nat, step: nat, lanes: nat, kMr: nat,
                     acc64: array2<I64>)
    requires Shaped(a, panel, pairs, step, lanes) && 2 * pairs <= MAX_CHANNELS + 1
    requires |a| <= kMr == acc64.Length0 && 2 * lanes == acc64.Length1
    requires forall r, o :: 0 <= r < kMr && 0 <= o < 2 * lanes ==> acc64[r, o] == 0
    modifies acc64
    ensures forall r, o :: 0 <= r < |a| && 0 <= o < 2 * lanes ==>
        acc64[r, o] == Cell(a[r], panel, o, step, lanes, pairs)
  {
    if |a| == kMr {
      TiledMicro(a, panel, pairs, step, lanes, acc64, 0);
    } else {
      for r := 0 to |a|
        invariant forall s, o :: 0 <= s < r && 0 <= o < 2 * lanes ==>
            acc64[s, o] == Cell(a[s], panel, o, step, lanes, pairs)
        invariant forall s, o :: r <= s < kMr && 0 <= o < 2 * lanes ==> acc64[s, o] == 0
      {
        TiledMicro([a[r]], panel, pairs, step, lanes, acc64, r);
      }
    }
  }

  /** One block of up to `kMr` tokens: the tile's exact sums, then the guarded stores. */
  method TileBlock(activations: seq<seq<Int8>>, a16: seq<seq<Int8>>, channels: nat, kp: nat, w: seq<seq<Int8>>,
                   panel: seq<Int8>, n0: nat, jEnd: nat, wide: bool, t0: nat, kMr: nat, out: array2<I64>)
    requires Widened(a16, activations, channels, kp) && jEnd <= |w| && Rows(w, channels)
    requires TilePacked(panel, w, channels, n0, jEnd, kp, wide) && 1 <= kMr && t0 < |a16|
    requires out.Length0 == |activations| && jEnd <= out.Length1
    modifies out
    ensures forall t, n :: 0 <= t < out.Length0 && 0 <= n < out.Length1 ==>
        out[t, n] == if t0 <= t < t0 + kMr && n0 <= n < Lesser(n0 + 2 * LaneCount(wide), jEnd)
          then Dot(activations[t], w[n]) else old(out[t, n])
  {
    var lanes := LaneCount(wide);
    var acc64 := new I64[kMr, 2 * lanes]((_, _) => 0);
    var mr := Lesser(kMr, |a16| - t0);
    ComputeTile(a16[t0..t0 + mr], panel, kp / 2, Step(wide, kp), lanes, kMr, acc64);
    forall r, o | 0 <= r < mr && 0 <= o < 2 * lanes && n0 + o < jEnd
      ensures acc64[r, o] == Dot(activations[t0 + r], w[n0 + o])
    {
      CellIsDot(activations[t0 + r], panel, w, channels, n0, jEnd, kp, wide, o);
    }
    StoreTile(activations, channels, w, n0, jEnd, t0, mr, acc64, out);
  }

  /** The store guard: cells from `jEnd` on are dropped. */
  method StoreTile(activations: seq<seq<Int8>>, channels: nat, w: seq<seq<Int8>>, n0: nat, jEnd: nat, t0: nat, mr: nat,
                   acc64: array2<I64>, out: array2<I64>)
    requires Rows(activations, channels) && Rows(w, channels) && jEnd <= |w| && t0 + mr <= |activations|
    requires out.Length0 == |activations| && jEnd <= out.Length1 && acc64 != out && mr <= acc64.Length0
    requires forall r, o :: 0 <= r < mr && 0 <= o < acc64.Length1 && n0 + o < jEnd ==>
        acc64[r, o] == Dot(activations[t0 + r], w[n0 + o])
    modifies out
    ensures forall t, n :: 0 <= t < out.Length0 && 0 <= n < out.Length1 ==>
        out[t, n] == if t0 <= t < t0 + mr && n0 <= n < Lesser(n0 + acc64.Length1, jEnd)
          then Dot(activations[t], w[n]) else old(out[t, n])
  {
    for r := 0 to mr
      invariant forall t, n :: 0 <= t < out.Length0 && 0 <= n < out.Length1 ==>
          out[t, n] == if t0 <= t < t0 + r && n0 <= n < Lesser(n0 + acc64.Length1, jEnd)
            then Dot(activations[t], w[n]) else old(out[t, n])
    {
      for i := 0 to acc64.Length1
        invariant forall t, n :: 0 <= t < out.Length0 && 0 <= n < out.Length1 ==>
            out[t, n] == if (t0 <= t < t0 + r && n0 <= n < Lesser(n0 + acc64.Length1, jEnd))
              || (t == t0 + r && n0 <= n < Lesser(n0 + i, jEnd))
            then Dot(activations[t], w[n]) else old(out[t, n])
      {
        var n := n0 + i;
        if n < jEnd { out[t0 + r, n] := acc64[r, i]; }
      }
    }
  }

  /** The driver of either tier: panels across `[jBegin, jEnd)`, each packed once and run against every block of
      tokens. Every cell of the range is the exact dot product and no other cell changes. */
  method TiledGemm(activations: seq<seq<Int8>>, a16: seq<seq<Int8>>, channels: nat, kp: nat, w: seq<seq<Int8>>,
                   jBegin: nat, jEnd: nat, wide: bool, out: array2<I64>)
    requires Widened(a16, activations, channels, kp) && jBegin <= jEnd <= |w| && Rows(w, channels)
    requires out.Length0 == |activations| && jEnd <= out.Length1
    modifies out
    ensures forall t, n :: 0 <= t < out.Length0 && 0 <= n < out.Length1 ==>
        out[t, n] == if jBegin <= n < jEnd then Dot(activations[t], w[n]) else old(out[t, n])
  {
    var kMr, kNw := if wide then 8 else 4, 2 * LaneCount(wide);
    var scratch := new Int8[(if wide then 32 else 16) * kp](_ => 0);
    var n0 := jBegin;
    while n0 < jEnd
      invariant jBegin <= n0
      invariant forall t, n :: 0 <= t < out.Length0 && 0 <= n < out.Length1 ==>
          out[t, n] == if jBegin <= n < Lesser(n0, jEnd) then Dot(activations[t], w[n]) else old(out[t, n])
    {
      PackTile(w, channels, n0, jEnd, kp, wide, scratch);
      var t0 := 0;
      while t0 < |a16|
        invariant 0 <= t0
        invariant TilePacked(scratch[..], w, channels, n0, jEnd, kp, wide)
        invariant forall t, n :: 0 <= t < out.Length0 && 0 <= n < out.Length1 ==>
            out[t, n] == if jBegin <= n < Lesser(if t < t0 then n0 + kNw else n0, jEnd)
              then Dot(activations[t], w[n]) else old(out[t, n])
      {
        TileBlock(activations, a16, channels, kp, w, scratch[..], n0, jEnd, wide, t0, kMr, out);
        t0 := t0 + kMr;
      }
      n0 := n0 + kNw;
    }
  }

  /** One panel, or two consecutive ones on AVX-512. */
  method PackTile(w: seq<seq<Int8>>, channels: nat, n0: nat, jEnd: nat, kp: nat, wide: bool, scratch: array<Int8>)
    requires jEnd <= |w| && Rows(w, channels) && channels <= kp && kp % 2 == 0
    requires scratch.Length == (if wide then 32 else 16) * kp
    modifies scratch
    ensures TilePacked(scratch[..], w, channels, n0, jEnd, kp, wide)
  {
    PackPanel16(w, channels, n0, jEnd, scratch, 0, kp);
    if wide { PackPanel16(w, channels, n0 + 16, jEnd, scratch, kp / 2 * 32, kp); }
  }

  // ----- Dispatch

  /** Which calls run the tiled kernels. */
  predicate Tiled(tier: GemmTier, tokens: nat, msvcSwitch: bool, isMsvc: bool) {
    tokens >= TILED_MIN_TOKENS && (tier.Avx2? || (tier.Avx512? && !(isMsvc && !msvcSwitch)))
  }

  method DotRowOf(tier: GemmTier, a: seq<Int8>, w: seq<Int8>) returns (acc: I64)
    requires |a| == |w| <= MAX_CHANNELS
    ensures acc == Dot(a, w)
  {
    match tier {
      case Scalar => acc := DotRowScalar(a, w);
      case _ => acc := DotRowSimd(a, w, tier);
    }
  }

  /** The column-range entry: on every tier and path, exactly the cells of the range become their dot products. */
  method GemmInt8AccumulateCols(tier: GemmTier, msvcSwitch: bool, isMsvc: bool, activations: seq<seq<Int8>>,
                                w: seq<seq<Int8>>, channels: nat, jBegin: nat, jEnd: nat, out: array2<I64>)
    requires Rows(activations, channels) && Rows(w, channels) && channels <= MAX_CHANNELS
    requires out.Length0 == |activations| > 0 && jBegin <= jEnd <= |w| == out.Length1
    modifies out
    ensures forall t, n :: 0 <= t < out.Length0 && 0 <= n < out.Length1 ==>
        out[t, n] == if jBegin <= n < jEnd then Dot(activations[t], w[n]) else old(out[t, n])
  {
    if jBegin == jEnd { return; }
    if Tiled(tier, |activations|, msvcSwitch, isMsvc) {
      var kp := (channels + 1) / 2 * 2;
      var a16 := WidenActivations(activations, channels, kp);
      TiledGemm(activations, a16, channels, kp, w, jBegin, jEnd, tier.Avx512?, out);
      return;
    }
    DotRowLoop(tier, activations, w, channels, jBegin, jEnd, out);
  }

  /** The one-cell-at-a-time loop. */
  method DotRowLoop(tier: GemmTier, activations: seq<seq<Int8>>, w: seq<seq<Int8>>, channels: nat, jBegin: nat,
                    jEnd: nat, out: array2<I64>)
    requires Rows(activations, channels) && Rows(w, channels) && channels <= MAX_CHANNELS
    requires out.Length0 == |activations| && jBegin <= jEnd <= |w| == out.Length1
    modifies out
    ensures forall t, n :: 0 <= t < out.Length0 && 0 <= n < out.Length1 ==>
        out[t, n] == if jBegin <= n < jEnd then Dot(activations[t], w[n]) else old(out[t, n])
  {
    for j := jBegin to jEnd
      invariant forall t, n :: 0 <= t < out.Length0 && 0 <= n < out.Length1 ==>
          out[t, n] == if jBegin <= n < j then Dot(activations[t], w[n]) else old(out[t, n])
    {
      for t := 0 to |activations|
        invariant forall s, n :: 0 <= s < out.Length0 && 0 <= n < out.Length1 ==>
            out[s, n] == if jBegin <= n < j || (n == j && s < t) then Dot(activations[s], w[n]) else old(out[s, n])
      {
        out[t, j] := DotRowOf(tier, activations[t], w[j]);
      }
    }
  }
}
