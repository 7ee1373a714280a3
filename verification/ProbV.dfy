/** The probability-times-value context accumulate: src/matmul.cpp lines 729-954 and 1257-1275.

Values are one row per key; the context is an int64 array the bodies add into. */
module ProbV {
  import opened Arith
  import opened DotRow
  import opened Sums
  import SoftmaxRow

  const MAX_P: int := 32767
  const MAX_SUM: int := 0x8000
  const LANE_LIMIT: int := 0x40_0000

  /** The exact sum over the first `k` keys for one dimension. */
  function Ctx(probs: seq<int>, values: seq<seq<Int8>>, d: nat, k: nat): int
    requires k <= |probs| == |values| && forall j :: 0 <= j < k ==> d < |values[j]|
  {
    if k == 0 then 0 else Ctx(probs, values, d, k - 1) + Times(probs[k - 1], values[k - 1][d])
  }

  predicate Keys(probs: seq<int>, values: seq<seq<Int8>>, headDim: nat) {
    |probs| == |values| && forall k :: 0 <= k < |values| ==> |values[k]| == headDim
  }

  predicate InI64(x: int) { -0x8000_0000_0000_0000 <= x < 0x8000_0000_0000_0000 }

  /** The call's int64 contract: no prefix of any dimension's accumulation leaves int64. */
  ghost predicate Fits(ctx: seq<int>, probs: seq<int>, values: seq<seq<Int8>>)
    requires Keys(probs, values, |ctx|)
  {
    forall d, k :: 0 <= d < |ctx| && 0 <= k <= |probs| ==> InI64(ctx[d] + Ctx(probs, values, d, k))
  }

  // ----- The int16 condition

  predicate Int16Row(probs: seq<int>) {
    (forall k :: 0 <= k < |probs| ==> 0 <= probs[k] <= MAX_P) && Sum(probs) <= MAX_SUM
  }

  lemma {:induction false} PrefixSum(probs: seq<int>, k: nat)
    requires k <= |probs| && forall j :: 0 <= j < |probs| ==> probs[j] >= 0
    ensures 0 <= Sum(probs[..k]) <= Sum(probs)
  {
    if k == |probs| {
      assert probs[..k] == probs;
      if k > 0 { PrefixSum(probs[..k - 1], k - 1); assert probs[..k - 1][..k - 1] == probs[..k - 1]; }
    } else {
      PrefixSum(probs[..|probs| - 1], k);
      assert probs[..|probs| - 1][..k] == probs[..k];
    }
  }

  /** One pass, returning at the first entry out of range, so the running sum cannot overflow. */
  method Int16Condition(probs: seq<I64>) returns (admits: bool)
    requires |probs| < 0x1_0000_0000_0000
    ensures admits <==> Int16Row(probs)
  {
    var sum: I64 := 0;
    for k := 0 to |probs|
      invariant forall j :: 0 <= j < k ==> 0 <= probs[j] <= MAX_P
      invariant sum == Sum(probs[..k])
    {
      if probs[k] < 0 || probs[k] > MAX_P { return false; }
      assert probs[..k + 1][..k] == probs[..k];
      SumBounds(probs[..k + 1], MAX_P);
      sum := sum + probs[k];
    }
    assert probs[..|probs|] == probs;
    admits := sum <= MAX_SUM;
  }

  /** On a softmax row the condition can fail only through an entry equal to 2^15. */
  lemma SoftmaxRowsFailOnlyAtOne(e: seq<int>)
    requires forall k :: 0 <= k < |e| ==> e[k] >= 0
    ensures Int16Row(SoftmaxRow.Probabilities(e)) <==> MAX_SUM !in SoftmaxRow.Probabilities(e)
  {
    SoftmaxRow.OutputsAreBounded(e);
  }

  lemma ProbTimes(p: int, v: Int8)
    requires p >= 0
    ensures -128 * p <= Times(p, v) <= 128 * p
  {
    MulMono(-128, v, p);
    MulMono(v, 128, p);
  }

  /** Every partial sum of an admitted row is at most 2^22 in magnitude, whatever the width. */
  lemma {:induction false} CtxBound(probs: seq<int>, values: seq<seq<Int8>>, d: nat, k: nat)
    requires k <= |probs| == |values| && forall j :: 0 <= j < k ==> d < |values[j]|
    requires forall j :: 0 <= j < |probs| ==> probs[j] >= 0
    ensures -128 * Sum(probs[..k]) <= Ctx(probs, values, d, k) <= 128 * Sum(probs[..k])
  {
    if k > 0 {
      CtxBound(probs, values, d, k - 1);
      assert probs[..k][..k - 1] == probs[..k - 1];
      ProbTimes(probs[k - 1], values[k - 1][d]);
    }
  }

  lemma AdmittedBound(probs: seq<int>, values: seq<seq<Int8>>, headDim: nat, d: nat, k: nat)
    requires Keys(probs, values, headDim) && Int16Row(probs) && d < headDim && k <= |probs|
    ensures -LANE_LIMIT <= Ctx(probs, values, d, k) <= LANE_LIMIT
  {
    CtxBound(probs, values, d, k);
    PrefixSum(probs, k);
  }

  /** Splitting the keys into page runs leaves the sum unchanged. */
  lemma {:induction false} CtxAppend(p1: seq<int>, v1: seq<seq<Int8>>, p2: seq<int>, v2: seq<seq<Int8>>, headDim: nat,
                                     d: nat)
    requires Keys(p1, v1, headDim) && Keys(p2, v2, headDim) && d < headDim
    ensures Ctx(p1 + p2, v1 + v2, d, |p1 + p2|) == Ctx(p1, v1, d, |p1|) + Ctx(p2, v2, d, |p2|)
    decreases |p1| + |p2|
  {
    if |p2| > 0 {
      var n := |p2| - 1;
      CtxAppend(p1, v1, p2[..n], v2[..n], headDim, d);
      CtxPrefix(p1 + p2, v1 + v2, headDim, d, |p1| + n);
      CtxPrefix(p2, v2, headDim, d, n);
      assert (p1 + p2)[..|p1| + n] == p1 + p2[..n] && (v1 + v2)[..|p1| + n] == v1 + v2[..n];
    } else {
      assert p1 + p2 == p1 && v1 + v2 == v1;
    }
  }

  lemma {:induction false} CtxPrefix(probs: seq<int>, values: seq<seq<Int8>>, headDim: nat, d: nat, k: nat)
    requires Keys(probs, values, headDim) && d < headDim && k <= |probs|
    ensures Ctx(probs, values, d, k) == Ctx(probs[..k], values[..k], d, k)
  {
    CtxSame(probs, values, probs[..k], values[..k], headDim, d, k);
  }

  lemma {:induction false} CtxSame(p: seq<int>, v: seq<seq<Int8>>, p': seq<int>, v': seq<seq<Int8>>, headDim: nat,
                                   d: nat, k: nat)
    requires Keys(p, v, headDim) && Keys(p', v', headDim) && d < headDim && k <= |p| && k <= |p'|
    requires p[..k] == p'[..k] && v[..k] == v'[..k]
    ensures Ctx(p, v, d, k) == Ctx(p', v', d, k)
  {
    if k > 0 {
      assert p[..k - 1] == p[..k][..k - 1] && v[..k - 1] == v[..k][..k - 1];
      assert p'[..k - 1] == p'[..k][..k - 1] && v'[..k - 1] == v'[..k][..k - 1];
      CtxSame(p, v, p', v', headDim, d, k - 1);
      assert p[k - 1] == p[..k][k - 1] && p'[k - 1] == p'[..k][k - 1];
      assert v[k - 1] == v[..k][k - 1] && v'[k - 1] == v'[..k][k - 1];
    }
  }

  // ----- The shipped loop

  method AccumulateScalar(probs: seq<I64>, values: seq<seq<Int8>>, ctx: array<I64>)
    requires Keys(probs, values, ctx.Length) && Fits(ctx[..], probs, values)
    modifies ctx
    ensures forall d :: 0 <= d < ctx.Length ==> ctx[d] == old(ctx[d]) + Ctx(probs, values, d, |probs|)
  {
    for k := 0 to |probs|
      invariant forall d :: 0 <= d < ctx.Length ==> ctx[d] == old(ctx[d]) + Ctx(probs, values, d, k)
    {
      for d := 0 to ctx.Length
        invariant forall c :: 0 <= c < d ==> ctx[c] == old(ctx[c]) + Ctx(probs, values, c, k + 1)
        invariant forall c :: d <= c < ctx.Length ==> ctx[c] == old(ctx[c]) + Ctx(probs, values, c, k)
      {
        assert InI64(old(ctx[..])[d] + Ctx(probs, values, d, k + 1));
        ctx[d] := ctx[d] + Times(probs[k], values[k][d]);
      }
    }
  }

  // ----- Pairs and lanes

  /** A dword holding two probabilities, the first in the low half. */
  function Pair(lo: int, hi: int): int { lo + hi * 0x1_0000 }

  function LowHalf(pair: int): int { var u := pair % 0x1_0000; if u < 0x8000 then u else u - 0x1_0000 }

  function HighHalf(pair: int): int { LowHalf(pair / 0x1_0000) }

  lemma PairSplits(lo: int, hi: int)
    requires 0 <= lo <= MAX_P && 0 <= hi <= MAX_P
    ensures LowHalf(Pair(lo, hi)) == lo && HighHalf(Pair(lo, hi)) == hi
  {}

  /** punpcklbw (h = 0) and punpckhbw (h = 1) on 16 bytes: one half of each, byte by byte. */
  function Unpack(a: seq<Int8>, b: seq<Int8>, h: nat): (r: seq<Int8>)
    requires |a| == |b| == 16 && h < 2
    ensures |r| == 16
  {
    seq(16, j requires 0 <= j < 16 => if j % 2 == 0 then a[8 * h + j / 2] else b[8 * h + j / 2])
  }

  lemma UnpackAt(a: seq<Int8>, b: seq<Int8>, h: nat, i: nat)
    requires |a| == |b| == 16 && h < 2 && i < 8
    ensures Unpack(a, b, h)[2 * i] == a[8 * h + i] && Unpack(a, b, h)[2 * i + 1] == b[8 * h + i]
  {
    assert 2 * i % 2 == 0 && 2 * i / 2 == i && (2 * i + 1) % 2 == 1 && (2 * i + 1) / 2 == i;
  }

  /** One accumulator register: half `h` of a 16-dimension unit (AVX2), half `h` of a 32-dimension unit whose
      unpacks stay inside 128-bit lanes (AVX-512), or the joined 16-dimension tail unit (AVX-512). */
  datatype Shape = Unit16(h: nat) | Unit32(h: nat) | Tail16 {
    predicate Valid() { !Tail16? ==> h < 2 }

    function Span(): nat { if Unit32? then 32 else 16 }

    function Lanes(): nat { if Unit16? then 8 else 16 }

    /** The interleaved bytes the register is multiplied from. */
    function Bytes(a: seq<Int8>, b: seq<Int8>): (r: seq<Int8>)
      requires Valid() && |a| == |b| == Span()
      ensures |r| == 2 * Lanes()
    {
      match this
      case Unit16(h) => Unpack(a, b, h)
      case Unit32(h) => Unpack(a[..16], b[..16], h) + Unpack(a[16..], b[16..], h)
      case Tail16 => Unpack(a, b, 0) + Unpack(a, b, 1)
    }

    /** The dimension, within the unit, that lane `i` is stored to. */
    function DimOf(i: nat): (d: nat)
      requires Valid() && i < Lanes()
      ensures d < Span()
    {
      match this
      case Unit16(h) => 8 * h + i
      case Unit32(h) => if i < 8 then 8 * h + i else 16 + 8 * h + (i - 8)
      case Tail16 => i
    }

    /** The lane stored to dimension `d`, or -1. */
    function LaneFor(d: nat): (i: int)
      requires Valid() && d < Span()
      ensures i == -1 || (0 <= i < Lanes() && DimOf(i) == d)
    {
      match this
      case Unit16(h) => if d / 8 == h then d - 8 * h else -1
      case Unit32(h) =>
        if d / 8 == h then d - 8 * h else if d / 8 == h + 2 then d - 16 - 8 * h + 8 else -1
      case Tail16 => d
    }
  }

  /** Two unpacked registers side by side. */
  lemma JoinedAt(a0: seq<Int8>, b0: seq<Int8>, h0: nat, a1: seq<Int8>, b1: seq<Int8>, h1: nat, i: nat)
    requires |a0| == |b0| == |a1| == |b1| == 16 && h0 < 2 && h1 < 2 && i < 16
    ensures (Unpack(a0, b0, h0) + Unpack(a1, b1, h1))[2 * i] == if i < 8 then a0[8 * h0 + i] else a1[8 * h1 + i - 8]
    ensures (Unpack(a0, b0, h0) + Unpack(a1, b1, h1))[2 * i + 1] == if i < 8 then b0[8 * h0 + i] else b1[8 * h1 + i - 8]
  {
    if i < 8 { UnpackAt(a0, b0, h0, i); } else { UnpackAt(a1, b1, h1, i - 8); }
  }

  /** Lane `i` of the interleaved bytes is the pair of its own dimension: no permute is needed. */
  lemma LaneReads(shape: Shape, a: seq<Int8>, b: seq<Int8>, i: nat)
    requires shape.Valid() && |a| == |b| == shape.Span() && i < shape.Lanes()
    ensures shape.Bytes(a, b)[2 * i] == a[shape.DimOf(i)] && shape.Bytes(a, b)[2 * i + 1] == b[shape.DimOf(i)]
  {
    match shape
    case Unit16(h) => UnpackAt(a, b, h, i);
    case Unit32(h) => JoinedAt(a[..16], b[..16], h, a[16..], b[16..], h, i);
    case Tail16 => JoinedAt(a, b, 0, a, b, 1, i);
  }

  lemma LaneForDim(shape: Shape, i: nat)
    requires shape.Valid() && i < shape.Lanes()
    ensures shape.LaneFor(shape.DimOf(i)) == i
  {}

  /** vpmaddwd of widened bytes with a broadcast pair. */
  function MaddPair(bytes: seq<Int8>, pair: int, lanes: nat): (r: seq<int>)
    requires |bytes| == 2 * lanes
    ensures |r| == lanes
  {
    seq(lanes, i requires 0 <= i < lanes => Madd(bytes[2 * i], bytes[2 * i + 1], LowHalf(pair), HighHalf(pair)))
  }

  /** A register's place: its shape and the first dimension of its unit. */
  datatype Slot = Slot(shape: Shape, at: nat)

  predicate SlotIn(s: Slot, headDim: nat) { s.shape.Valid() && s.at + s.shape.Span() <= headDim }

  /** A register that holds, lane by lane, the sum over the first `k` keys of its own dimensions. */
  ghost predicate Holds(r: seq<int>, s: Slot, probs: seq<int>, values: seq<seq<Int8>>, headDim: nat, k: nat)
    requires Keys(probs, values, headDim) && SlotIn(s, headDim) && k <= |probs|
  {
    |r| == s.shape.Lanes() && forall i :: 0 <= i < |r| ==> r[i] == Ctx(probs, values, s.at + s.shape.DimOf(i), k)
  }

  /** One multiply-add step in lane `i`: the two keys' products for its own dimension. */
  lemma StepLaneAt(r: seq<I32>, s: Slot, row0: seq<Int8>, row1: seq<Int8>, p: int, q: int, i: nat)
    requires SlotIn(s, |row0|) && |row0| == |row1| && i < |r| == s.shape.Lanes() && 0 <= p <= MAX_P && 0 <= q <= MAX_P
    ensures StepLanes(r, s, row0, row1, Pair(p, q))[i]
         == WrapI32(r[i] + (Times(p, row0[s.at + s.shape.DimOf(i)]) + Times(q, row1[s.at + s.shape.DimOf(i)])))
  {
    PairSplits(p, q);
    var a, b := Unit(row0, s), Unit(row1, s);
    LaneReads(s.shape, a, b, i);
    var d := s.shape.DimOf(i);
    MaddIsTwoKeys(a[d], b[d], p, q);
    assert a[d] == row0[s.at + d] && b[d] == row1[s.at + d];
    assert MaddPair(s.shape.Bytes(a, b), Pair(p, q), s.shape.Lanes())[i] == Madd(a[d], b[d], p, q);
  }

  lemma MaddIsTwoKeys(a: int, b: int, p: int, q: int)
    ensures Madd(a, b, p, q) == Times(p, a) + Times(q, b)
  {}

  lemma InRange(x: int)
    requires -LANE_LIMIT <= x <= LANE_LIMIT
    ensures WrapI32(x) == x
  {}

  /** Two keys in one step. */
  lemma PairHolds(r: seq<I32>, s: Slot, probs: seq<int>, values: seq<seq<Int8>>, headDim: nat, k: nat)
    requires Keys(probs, values, headDim) && SlotIn(s, headDim) && k + 2 <= |probs| && Int16Row(probs)
    requires Holds(r, s, probs, values, headDim, k)
    ensures Holds(StepLanes(r, s, values[k], values[k + 1], Pair(probs[k], probs[k + 1])), s, probs, values, headDim,
        k + 2)
  {
    var n := StepLanes(r, s, values[k], values[k + 1], Pair(probs[k], probs[k + 1]));
    forall i | 0 <= i < |r| ensures n[i] == Ctx(probs, values, s.at + s.shape.DimOf(i), k + 2) {
      PairLane(r, s, probs, values, headDim, k, i);
    }
  }

  lemma PairLane(r: seq<I32>, s: Slot, probs: seq<int>, values: seq<seq<Int8>>, headDim: nat, k: nat, i: nat)
    requires Keys(probs, values, headDim) && SlotIn(s, headDim) && k + 2 <= |probs| && Int16Row(probs)
    requires i < |r| == s.shape.Lanes() && r[i] == Ctx(probs, values, s.at + s.shape.DimOf(i), k)
    ensures StepLanes(r, s, values[k], values[k + 1], Pair(probs[k], probs[k + 1]))[i]
         == Ctx(probs, values, s.at + s.shape.DimOf(i), k + 2)
  {
    var d := s.at + s.shape.DimOf(i);
    StepLaneAt(r, s, values[k], values[k + 1], probs[k], probs[k + 1], i);
    AdmittedBound(probs, values, headDim, d, k + 2);
    TwoMore(probs, values, d, k);
    InRange(Ctx(probs, values, d, k + 2));
  }

  lemma TwoMore(probs: seq<int>, values: seq<seq<Int8>>, d: nat, k: nat)
    requires k + 2 <= |probs| == |values| && forall j :: 0 <= j < k + 2 ==> d < |values[j]|
    ensures Ctx(probs, values, d, k + 2)
         == Ctx(probs, values, d, k) + (Times(probs[k], values[k][d]) + Times(probs[k + 1], values[k + 1][d]))
  {
    assert Ctx(probs, values, d, k + 2) == Ctx(probs, values, d, k + 1) + Times(probs[k + 1], values[k + 1][d]);
  }

  /** The odd last key, paired with a zero row and probability zero. */
  lemma LastHolds(r: seq<I32>, s: Slot, probs: seq<int>, values: seq<seq<Int8>>, headDim: nat, k: nat)
    requires Keys(probs, values, headDim) && SlotIn(s, headDim) && k + 1 == |probs| && Int16Row(probs)
    requires Holds(r, s, probs, values, headDim, k)
    ensures Holds(StepLanes(r, s, values[k], ZeroRow(headDim), Pair(probs[k], 0)), s, probs, values, headDim, k + 1)
  {
    var n := StepLanes(r, s, values[k], ZeroRow(headDim), Pair(probs[k], 0));
    forall i | 0 <= i < |r| ensures n[i] == Ctx(probs, values, s.at + s.shape.DimOf(i), k + 1) {
      var d := s.at + s.shape.DimOf(i);
      StepLaneAt(r, s, values[k], ZeroRow(headDim), probs[k], 0, i);
      AdmittedBound(probs, values, headDim, d, k + 1);
      InRange(Ctx(probs, values, d, k + 1));
    }
  }

  function ZeroRow(n: nat): (r: seq<Int8>)
    ensures |r| == n
  {
    seq<Int8>(n, _ => 0)
  }

  /** The unit's bytes of one value row. */
  function Unit(row: seq<Int8>, s: Slot): (r: seq<Int8>)
    requires SlotIn(s, |row|)
    ensures |r| == s.shape.Span()
  {
    row[s.at..s.at + s.shape.Span()]
  }

  function StepLanes(r: seq<I32>, s: Slot, row0: seq<Int8>, row1: seq<Int8>, pair: int): (n: seq<I32>)
    requires SlotIn(s, |row0|) && |row0| == |row1| && |r| == s.shape.Lanes()
    ensures |n| == |r|
  {
    AddLanes(r, MaddPair(s.shape.Bytes(Unit(row0, s), Unit(row1, s)), pair, s.shape.Lanes()))
  }

  // ----- Blocks

  /** The registers of one pass, in the order their results are stored. */
  function AvxPlan(wide: bool, units: nat, d0: nat): (plan: seq<Slot>)
    ensures |plan| == 2 * units
  {
    seq(2 * units, j requires 0 <= j < 2 * units =>
      if wide then Slot(Unit32(j % 2), d0 + 32 * (j / 2)) else Slot(Unit16(j % 2), d0 + 16 * (j / 2)))
  }

  predicate Stores(s: Slot, d: nat) {
    s.shape.Valid() && s.at <= d < s.at + s.shape.Span() && s.shape.LaneFor(d - s.at) >= 0
  }

  /** Every dimension of `[d0, d1)`, and no other, is stored by exactly one register: its owner. */
  ghost predicate Covers(plan: seq<Slot>, d0: nat, d1: nat, owner: nat -> int) {
    && (forall j :: 0 <= j < |plan| ==>
        plan[j].shape.Valid() && d0 <= plan[j].at && plan[j].at + plan[j].shape.Span() <= d1)
    && (forall d: nat :: d0 <= d < d1 ==> 0 <= owner(d) < |plan|)
    && (forall j, d: nat :: 0 <= j < |plan| && d0 <= d < d1 ==> (Stores(plan[j], d) <==> j == owner(d)))
  }

  /** Which register of an AVX plan stores a dimension. */
  function Owner(wide: bool, x: nat): nat { if wide then 2 * (x / 32) + x / 8 % 2 else x / 8 }

  function OwnerFrom(wide: bool, d0: nat): nat -> int {
    (d: nat) => if d < d0 then 0 else Owner(wide, d - d0)
  }

  lemma NarrowOwner(x: nat, u: nat, h: nat)
    requires h < 2
    ensures x / 8 == 2 * u + h <==> 16 * u <= x < 16 * u + 16 && (x - 16 * u) / 8 == h
  {
    assert (x - 16 * u) / 8 == x / 8 - 2 * u;
  }

  lemma WideOwner(x: nat, u: nat, h: nat)
    requires h < 2
    ensures 2 * (x / 32) + x / 8 % 2 == 2 * u + h
      <==> 32 * u <= x < 32 * u + 32 && ((x - 32 * u) / 8 == h || (x - 32 * u) / 8 == h + 2)
  {
    assert (x - 32 * u) / 8 == x / 8 - 4 * u;
    assert x / 8 / 4 == x / 32;
  }

  lemma StoredByOwner(wide: bool, units: nat, d0: nat, j: nat, d: nat)
    requires j < 2 * units && d >= d0
    ensures Stores(AvxPlan(wide, units, d0)[j], d) <==> j == Owner(wide, d - d0)
  {
    if wide { WideOwner(d - d0, j / 2, j % 2); } else { NarrowOwner(d - d0, j / 2, j % 2); }
  }

  /** Where a pass of `units` units ends. */
  function PassEnd(wide: bool, units: nat, d0: nat): nat { if wide then d0 + 32 * units else d0 + 16 * units }

  lemma OwnerBelow(wide: bool, units: nat, x: nat)
    requires if wide then x < 32 * units else x < 16 * units
    ensures Owner(wide, x) < 2 * units
  {
    if wide { WideBelow(x, units); } else { EighthBelow(x, 2 * units); }
  }

  lemma EighthBelow(x: nat, n: nat)
    requires x < 8 * n
    ensures x / 8 < n
  {
    DivBounds(x, 8);
  }

  lemma WideBelow(x: nat, units: nat)
    requires x < 32 * units
    ensures 2 * (x / 32) + x / 8 % 2 < 2 * units
  {
    DivBounds(x, 32);
  }

  lemma PlanCovers(wide: bool, units: nat, d0: nat)
    ensures Covers(AvxPlan(wide, units, d0), d0, PassEnd(wide, units, d0), OwnerFrom(wide, d0))
  {
    var plan, d1 := AvxPlan(wide, units, d0), PassEnd(wide, units, d0);
    forall j | 0 <= j < |plan|
      ensures plan[j].shape.Valid() && d0 <= plan[j].at && plan[j].at + plan[j].shape.Span() <= d1
    {
      assert j / 2 + 1 <= units;
    }
    forall j, d: nat | 0 <= j < |plan| && d0 <= d < d1 ensures Stores(plan[j], d) <==> j == OwnerFrom(wide, d0)(d) {
      StoredByOwner(wide, units, d0, j, d);
    }
    forall d: nat | d0 <= d < d1 ensures 0 <= OwnerFrom(wide, d0)(d) < |plan| {
      OwnerBelow(wide, units, d - d0);
    }
  }

  lemma TailCovers(d0: nat)
    ensures Covers([Slot(Tail16, d0)], d0, d0 + 16, x => 0)
  {}

  ghost predicate AllHold(acc: seq<seq<I32>>, plan: seq<Slot>, probs: seq<int>, values: seq<seq<Int8>>, headDim: nat,
                          k: nat)
    requires Keys(probs, values, headDim) && (forall j :: 0 <= j < |plan| ==> SlotIn(plan[j], headDim)) && k <= |probs|
  {
    |acc| == |plan| && forall j :: 0 <= j < |plan| ==> Holds(acc[j], plan[j], probs, values, headDim, k)
  }

  /** The multiply-add loop of one pass: every register of the plan over every key. */
  method Registers(plan: seq<Slot>, probs: seq<I64>, values: seq<seq<Int8>>, headDim: nat) returns (acc: seq<seq<I32>>)
    requires Keys(probs, values, headDim) && (forall j :: 0 <= j < |plan| ==> SlotIn(plan[j], headDim))
        && Int16Row(probs)
    ensures AllHold(acc, plan, probs, values, headDim, |probs|)
  {
    acc := seq(|plan|, j requires 0 <= j < |plan| => ZeroLanes(plan[j].shape.Lanes()));
    var k := 0;
    while k + 2 <= |probs|
      invariant k <= |probs| && AllHold(acc, plan, probs, values, headDim, k)
    {
      var pair := Pair(probs[k], probs[k + 1]);
      for u := 0 to |plan|
        invariant |acc| == |plan|
        invariant forall j :: 0 <= j < u ==> Holds(acc[j], plan[j], probs, values, headDim, k + 2)
        invariant forall j :: u <= j < |plan| ==> Holds(acc[j], plan[j], probs, values, headDim, k)
      {
        PairHolds(acc[u], plan[u], probs, values, headDim, k);
        acc := acc[u := StepLanes(acc[u], plan[u], values[k], values[k + 1], pair)];
      }
      k := k + 2;
    }
    if k < |probs| {
      var pair, zero := Pair(probs[k], 0), ZeroRow(headDim);
      for u := 0 to |plan|
        invariant |acc| == |plan|
        invariant forall j :: 0 <= j < u ==> Holds(acc[j], plan[j], probs, values, headDim, k + 1)
        invariant forall j :: u <= j < |plan| ==> Holds(acc[j], plan[j], probs, values, headDim, k)
      {
        LastHolds(acc[u], plan[u], probs, values, headDim, k);
        acc := acc[u := StepLanes(acc[u], plan[u], values[k], zero, pair)];
      }
    }
  }

  /** The exact sums over all keys, one per dimension. */
  function ContextSums(probs: seq<int>, values: seq<seq<Int8>>, headDim: nat): (r: seq<int>)
    requires Keys(probs, values, headDim)
    ensures |r| == headDim
  {
    seq(headDim, d requires 0 <= d < headDim => Ctx(probs, values, d, |probs|))
  }

  /** Register `j` holds the sums of the dimensions it stores. */
  ghost predicate LanesAre(r: seq<int>, s: Slot, sums: seq<int>) {
    && SlotIn(s, |sums|) && |r| == s.shape.Lanes()
    && forall d: nat :: Stores(s, d) ==> r[s.shape.LaneFor(d - s.at)] == sums[d]
  }

  lemma HoldsLanes(r: seq<int>, s: Slot, probs: seq<int>, values: seq<seq<Int8>>, headDim: nat)
    requires Keys(probs, values, headDim) && SlotIn(s, headDim) && Holds(r, s, probs, values, headDim, |probs|)
    ensures LanesAre(r, s, ContextSums(probs, values, headDim))
  {}

  /** One pass of a body: the dimensions of its units gain their exact sums, the others keep their values. */
  method Block(plan: seq<Slot>, d0: nat, d1: nat, ghost owner: nat -> int, probs: seq<I64>, values: seq<seq<Int8>>,
               ctx: array<I64>)
    requires Keys(probs, values, ctx.Length) && d0 <= d1 <= ctx.Length && Covers(plan, d0, d1, owner) && Int16Row(probs)
    requires forall d :: d0 <= d < d1 ==> InI64(ctx[d] + ContextSums(probs, values, ctx.Length)[d])
    modifies ctx
    ensures forall d :: 0 <= d < ctx.Length ==>
        ctx[d] == old(ctx[d]) + if d0 <= d < d1 then ContextSums(probs, values, ctx.Length)[d] else 0
  {
    var acc := Registers(plan, probs, values, ctx.Length);
    forall j | 0 <= j < |plan| ensures LanesAre(acc[j], plan[j], ContextSums(probs, values, ctx.Length)) {
      HoldsLanes(acc[j], plan[j], probs, values, ctx.Length);
    }
    StoreRegisters(acc, plan, d0, d1, owner, ContextSums(probs, values, ctx.Length), ctx);
  }

  /** Adds a register's lanes, widened, at their own dimensions. */
  method StoreRegister(r: seq<I32>, s: Slot, ghost sums: seq<int>, ctx: array<I64>)
    requires |sums| == ctx.Length && LanesAre(r, s, sums)
    requires forall d :: 0 <= d < ctx.Length && Stores(s, d) ==> InI64(ctx[d] + sums[d])
    modifies ctx
    ensures forall d :: 0 <= d < ctx.Length ==> ctx[d] == old(ctx[d]) + if Stores(s, d) then sums[d] else 0
  {
    for i := 0 to |r|
      invariant forall d :: 0 <= d < ctx.Length ==>
          ctx[d] == old(ctx[d]) + if Stores(s, d) && s.shape.LaneFor(d - s.at) < i then sums[d] else 0
    {
      var d := s.at + s.shape.DimOf(i);
      LaneForDim(s.shape, i);
      ctx[d] := ctx[d] + r[i];
    }
  }

  method StoreRegisters(acc: seq<seq<I32>>, plan: seq<Slot>, d0: nat, d1: nat, ghost owner: nat -> int,
                        ghost sums: seq<int>, ctx: array<I64>)
    requires |acc| == |plan| && d0 <= d1 <= ctx.Length == |sums| && Covers(plan, d0, d1, owner)
    requires forall j :: 0 <= j < |plan| ==> LanesAre(acc[j], plan[j], sums)
    requires forall d :: d0 <= d < d1 ==> InI64(ctx[d] + sums[d])
    modifies ctx
    ensures forall d :: 0 <= d < ctx.Length ==> ctx[d] == old(ctx[d]) + if d0 <= d < d1 then sums[d] else 0
  {
    for j := 0 to |plan|
      invariant forall d :: 0 <= d < ctx.Length ==>
          ctx[d] == old(ctx[d]) + if d0 <= d < d1 && owner(d) < j then sums[d] else 0
    {
      StoreRegister(acc[j], plan[j], sums, ctx);
    }
  }

  // ----- Bodies and dispatch

  /** The AVX2 body (64 dimensions per pass) or the AVX-512 body (128, with its 16-dimension tail unit). */
  method AccumulateSimd(wide: bool, probs: seq<I64>, values: seq<seq<Int8>>, ctx: array<I64>)
    requires Keys(probs, values, ctx.Length) && ctx.Length % 16 == 0 && Int16Row(probs)
    requires forall d :: 0 <= d < ctx.Length ==> InI64(ctx[d] + ContextSums(probs, values, ctx.Length)[d])
    modifies ctx
    ensures forall d :: 0 <= d < ctx.Length ==> ctx[d] == old(ctx[d]) + ContextSums(probs, values, ctx.Length)[d]
  {
    var d0 := Passes(wide, probs, values, ctx);
    Remainder(wide, d0, probs, values, ctx);
  }

  /** What the full passes leave: one shorter pass and, for AVX-512, at most one half unit. */
  method Remainder(wide: bool, d0: nat, probs: seq<I64>, values: seq<seq<Int8>>, ctx: array<I64>)
    requires Keys(probs, values, ctx.Length) && ctx.Length % 16 == 0 && Int16Row(probs)
    requires d0 <= ctx.Length < PassEnd(wide, 4, d0) && d0 % 64 == 0
    requires forall d :: d0 <= d < ctx.Length ==> InI64(ctx[d] + ContextSums(probs, values, ctx.Length)[d])
    modifies ctx
    ensures forall d :: 0 <= d < ctx.Length ==>
        ctx[d] == old(ctx[d]) + if d0 <= d then ContextSums(probs, values, ctx.Length)[d] else 0
  {
    var units := UnitsLeft(wide, ctx.Length, d0);
    var d1 := PassEnd(wide, units, d0);
    Pass(wide, units, d0, d1, probs, values, ctx);
    if d1 < ctx.Length { Tail(d1, probs, values, ctx); }
  }

  /** The whole units left over; at most one half unit remains beyond them. */
  method UnitsLeft(wide: bool, length: nat, d0: nat) returns (units: nat)
    requires length % 16 == 0 && d0 <= length && d0 % 64 == 0
    ensures var d1 := PassEnd(wide, units, d0); d0 <= d1 <= length && (d1 < length ==> d1 + 16 == length)
  {
    units := if wide then (length - d0) / 32 else (length - d0) / 16;
    Sixteenths(length, d0);
    var n := (length - d0) / 16;
    if wide { HalfUnits(n, units); }
  }

  lemma Sixteenths(length: nat, d0: nat)
    requires length % 16 == 0 && d0 <= length && d0 % 64 == 0
    ensures length - d0 == 16 * ((length - d0) / 16) && (length - d0) / 32 == (length - d0) / 16 / 2
  {
    var m, k := length / 16, d0 / 64;
    DivBounds(length, 16);
    DivBounds(d0, 64);
    assert length - d0 == (m - 4 * k) * 16;
    DivUnique(length - d0, 16, m - 4 * k);
    DivDiv(length - d0, 16, 2);
  }

  lemma HalfUnits(n: int, units: int)
    requires units == n / 2
    ensures 2 * units == n || 2 * units + 1 == n
  {
    DivBounds(n, 2);
  }

  method Tail(d0: nat, probs: seq<I64>, values: seq<seq<Int8>>, ctx: array<I64>)
    requires Keys(probs, values, ctx.Length) && Int16Row(probs) && d0 + 16 == ctx.Length
    requires forall d :: d0 <= d < ctx.Length ==> InI64(ctx[d] + ContextSums(probs, values, ctx.Length)[d])
    modifies ctx
    ensures forall d :: 0 <= d < ctx.Length ==>
        ctx[d] == old(ctx[d]) + if d0 <= d then ContextSums(probs, values, ctx.Length)[d] else 0
  {
    TailCovers(d0);
    Block([Slot(Tail16, d0)], d0, d0 + 16, x => 0, probs, values, ctx);
  }

  method Pass(wide: bool, units: nat, d0: nat, d1: nat, probs: seq<I64>, values: seq<seq<Int8>>, ctx: array<I64>)
    requires Keys(probs, values, ctx.Length) && Int16Row(probs) && PassEnd(wide, units, d0) == d1 <= ctx.Length
    requires forall d :: d0 <= d < ctx.Length ==> InI64(ctx[d] + ContextSums(probs, values, ctx.Length)[d])
    modifies ctx
    ensures forall d :: 0 <= d < ctx.Length ==>
        ctx[d] == old(ctx[d]) + if d0 <= d < d1 then ContextSums(probs, values, ctx.Length)[d] else 0
  {
    PlanCovers(wide, units, d0);
    Block(AvxPlan(wide, units, d0), d0, d1, OwnerFrom(wide, d0), probs, values, ctx);
  }

  /** The full passes of four units. */
  method Passes(wide: bool, probs: seq<I64>, values: seq<seq<Int8>>, ctx: array<I64>) returns (d0: nat)
    requires Keys(probs, values, ctx.Length) && Int16Row(probs)
    requires forall d :: 0 <= d < ctx.Length ==> InI64(ctx[d] + ContextSums(probs, values, ctx.Length)[d])
    modifies ctx
    ensures d0 <= ctx.Length < PassEnd(wide, 4, d0) && d0 % 64 == 0
    ensures forall d :: 0 <= d < ctx.Length ==>
        ctx[d] == old(ctx[d]) + if d < d0 then ContextSums(probs, values, ctx.Length)[d] else 0
  {
    d0 := 0;
    while PassEnd(wide, 4, d0) <= ctx.Length
      invariant d0 <= ctx.Length && d0 % 64 == 0
      invariant forall d :: 0 <= d < ctx.Length ==>
          ctx[d] == old(ctx[d]) + if d < d0 then ContextSums(probs, values, ctx.Length)[d] else 0
    {
      Pass(wide, 4, d0, PassEnd(wide, 4, d0), probs, values, ctx);
      d0 := PassEnd(wide, 4, d0);
    }
  }

  datatype SitesKernel = Avx2 | Avx512 | Shipped

  /** The tiered core: whichever body runs, every dimension gains its exact sum. */
  method AccumulateInto(kernel: SitesKernel, probs: seq<I64>, values: seq<seq<Int8>>, ctx: array<I64>)
    requires |probs| < 0x1_0000_0000_0000 && Keys(probs, values, ctx.Length) && Fits(ctx[..], probs, values)
    modifies ctx
    ensures forall d :: 0 <= d < ctx.Length ==> ctx[d] == old(ctx[d]) + Ctx(probs, values, d, |probs|)
  {
    if !kernel.Shipped? {
      var admits := ctx.Length % 16 == 0;
      if admits { admits := Int16Condition(probs); }
      if admits {
        forall d | 0 <= d < ctx.Length ensures InI64(ctx[d] + ContextSums(probs, values, ctx.Length)[d]) {
          assert InI64(ctx[..][d] + Ctx(probs, values, d, |probs|));
        }
        AccumulateSimd(kernel.Avx512?, probs, values, ctx);
        return;
      }
    }
    AccumulateScalar(probs, values, ctx);
  }

  /** The one-call form zeroes first. */
  method GemmProbQ15Accumulate(kernel: SitesKernel, probs: seq<I64>, values: seq<seq<Int8>>, ctx: array<I64>)
    requires |probs| < 0x1_0000_0000_0000 && Keys(probs, values, ctx.Length)
        && Fits(seq(ctx.Length, _ => 0), probs, values)
    modifies ctx
    ensures forall d :: 0 <= d < ctx.Length ==> ctx[d] == Ctx(probs, values, d, |probs|)
  {
    for d := 0 to ctx.Length
      invariant forall c :: 0 <= c < d ==> ctx[c] == 0
    {
      ctx[d] := 0;
    }
    assert ctx[..] == seq(ctx.Length, _ => 0);
    AccumulateInto(kernel, probs, values, ctx);
  }

  /** Softmax rows meet the int64 contract from any context 2^22 inside the range. */
  lemma SoftmaxRowsFit(ctx: seq<int>, e: seq<int>, values: seq<seq<Int8>>)
    requires (forall k :: 0 <= k < |e| ==> e[k] >= 0) && Keys(SoftmaxRow.Probabilities(e), values, |ctx|)
    requires forall d :: 0 <= d < |ctx| ==>
        LANE_LIMIT - 0x8000_0000_0000_0000 <= ctx[d] < 0x8000_0000_0000_0000 - LANE_LIMIT
    ensures Fits(ctx, SoftmaxRow.Probabilities(e), values)
  {
    var probs := SoftmaxRow.Probabilities(e);
    SoftmaxRow.OutputsAreBounded(e);
    forall d, k | 0 <= d < |ctx| && 0 <= k <= |probs| ensures InI64(ctx[d] + Ctx(probs, values, d, k)) {
      CtxBound(probs, values, d, k);
      PrefixSum(probs, k);
    }
  }

  /** A context dimension is the dot product of the probabilities with that dimension of the values. */
  lemma {:induction false} CtxIsDot(probs: seq<int>, values: seq<seq<Int8>>, headDim: nat, d: nat, k: nat,
                                    column: seq<int>)
    requires Keys(probs, values, headDim) && d < headDim && k <= |probs| == |column|
    requires forall j :: 0 <= j < |column| ==> column[j] == values[j][d]
    ensures Ctx(probs, values, d, k) == Dot(probs[..k], column[..k])
  {
    if k > 0 {
      CtxIsDot(probs, values, headDim, d, k - 1, column);
      DotStep(probs, column, k - 1);
    }
  }
}
