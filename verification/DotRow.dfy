/** The int8 dot product of src/matmul.cpp lines 117-298: the scalar reference and the SIMD tiers. */
module DotRow {
  import opened Arith
  import opened Sums

  type Int8 = x: int | -128 <= x < 128

  const FLUSH_BLOCKS: nat := 16384
  const LANE_BOUND: int := 0x2000_0000
  const MAX_CHANNELS: int := 0x8000_0000_0000

  /** The exact dot product. */
  function Dot(a: seq<int>, w: seq<int>): int
    requires |a| == |w|
  {
    if a == [] then 0 else Dot(a[..|a| - 1], w[..|w| - 1]) + a[|a| - 1] * w[|w| - 1]
  }

  lemma ProductFits(x: Int8, y: Int8)
    ensures -0x4000 <= x * y <= 0x4000
  {
    ScaledInt8(x, y);
  }

  lemma ScaledInt8(x: int, y: Int8)
    requires -128 <= x <= 128
    ensures -0x4000 <= x * y <= 0x4000
  {
    if x >= 0 { MulMono(-128, y, x); MulMono(y, 128, x); }
    else { MulMono(-128, y, -x); MulMono(y, 128, -x); }
  }

  lemma {:induction false} DotBound(a: seq<Int8>, w: seq<Int8>)
    requires |a| == |w|
    ensures -(|a| * 0x4000) <= Dot(a, w) <= |a| * 0x4000
  {
    if a != [] {
      DotBound(a[..|a| - 1], w[..|w| - 1]);
      ProductFits(a[|a| - 1], w[|w| - 1]);
    }
  }

  lemma DotStep(a: seq<int>, w: seq<int>, k: nat)
    requires k < |a| == |w|
    ensures Dot(a[..k + 1], w[..k + 1]) == Dot(a[..k], w[..k]) + a[k] * w[k]
  {
    assert a[..k + 1][..k] == a[..k] && w[..k + 1][..k] == w[..k];
  }

  lemma PrefixBound(a: seq<Int8>, w: seq<Int8>, k: nat)
    requires k <= |a| == |w| <= MAX_CHANNELS
    ensures -0x4000_0000_0000_0000 <= Dot(a[..k], w[..k]) <= 0x4000_0000_0000_0000
  {
    DotBound(a[..k], w[..k]);
  }

  method DotRowScalar(a: seq<Int8>, w: seq<Int8>) returns (acc: I64)
    requires |a| == |w| <= MAX_CHANNELS
    ensures acc == Dot(a, w)
  {
    acc := 0;
    for k := 0 to |a|
      invariant acc == Dot(a[..k], w[..k])
    {
      DotStep(a, w, k);
      PrefixBound(a, w, k + 1);
      acc := acc + Times(a[k], w[k]);
    }
    assert a[..|a|] == a && w[..|w|] == w;
  }

  // ----- Lanes

  datatype GemmTier = Scalar | Sse2 | Avx2 | Avx512 {
    /** The int32 accumulator lanes of a SIMD tier; a block is twice as many int8 values. */
    function Lanes(): (n: nat)
      ensures n <= 16
    {
      match this
      case Scalar => 1
      case Sse2 => 4
      case Avx2 => 8
      case Avx512 => 16
    }
  }

  /** SSE2's widening: the byte unpacked with itself and shifted right arithmetically by 8. */
  function UnpackShift(x: Int8): int {
    var u := x % 0x100;
    var word := u * 0x100 + u;
    (if word < 0x8000 then word else word - 0x1_0000) / 0x100
  }

  /** An int8 value as the tier's int16 lane: SSE2 unpacks and shifts, the wider tiers sign-extend. */
  function Widen(tier: GemmTier, x: Int8): int {
    if tier.Sse2? then UnpackShift(x) else x
  }

  lemma UnpackShiftWidens(x: Int8)
    ensures UnpackShift(x) == x
  {}

  lemma WidenIsExact(tier: GemmTier, x: Int8)
    ensures Widen(tier, x) == x
  {
    UnpackShiftWidens(x);
  }

  /** One lane of the widening multiply-add: two int16 products, summed in int32. */
  function Madd(a0: int, a1: int, w0: int, w1: int): int { a0 * w0 + a1 * w1 }

  /** One block's products, lane by lane. */
  function Products(a: seq<Int8>, w: seq<Int8>, k: nat, lanes: nat): (r: seq<int>)
    requires |a| == |w| && k + 2 * lanes <= |a|
    ensures |r| == lanes
  {
    seq(lanes, i requires 0 <= i < lanes => Madd(a[k + 2 * i], a[k + 2 * i + 1], w[k + 2 * i], w[k + 2 * i + 1]))
  }

  /** The same products as the tier forms them, each operand widened first. */
  function TierProducts(tier: GemmTier, a: seq<Int8>, w: seq<Int8>, k: nat): (r: seq<int>)
    requires |a| == |w| && k + 2 * tier.Lanes() <= |a|
    ensures |r| == tier.Lanes()
  {
    seq(tier.Lanes(), i requires 0 <= i < tier.Lanes() => TierMadd(tier, a, w, k + 2 * i))
  }

  function TierMadd(tier: GemmTier, a: seq<Int8>, w: seq<Int8>, j: nat): int
    requires |a| == |w| && j + 1 < |a|
  {
    Madd(Widen(tier, a[j]), Widen(tier, a[j + 1]), Widen(tier, w[j]), Widen(tier, w[j + 1]))
  }

  /** No tier's widening changes a product. */
  lemma TierProductsAreExact(tier: GemmTier, a: seq<Int8>, w: seq<Int8>, k: nat)
    requires |a| == |w| && k + 2 * tier.Lanes() <= |a|
    ensures TierProducts(tier, a, w, k) == Products(a, w, k, tier.Lanes())
  {
    forall i | 0 <= i < tier.Lanes()
      ensures TierProducts(tier, a, w, k)[i] == Products(a, w, k, tier.Lanes())[i]
    {
      WidenIsExact(tier, a[k + 2 * i]);
      WidenIsExact(tier, a[k + 2 * i + 1]);
      WidenIsExact(tier, w[k + 2 * i]);
      WidenIsExact(tier, w[k + 2 * i + 1]);
    }
  }

  function AddLanes(acc: seq<I32>, p: seq<int>): (r: seq<I32>)
    requires |acc| == |p|
    ensures |r| == |acc|
  {
    seq<I32>(|acc|, i requires 0 <= i < |acc| => WrapI32(acc[i] + p[i]))
  }

  predicate LanesWithin(acc: seq<int>, bound: int) { forall i :: 0 <= i < |acc| ==> -bound <= acc[i] <= bound }

  lemma ProductsBounded(a: seq<Int8>, w: seq<Int8>, k: nat, lanes: nat)
    requires |a| == |w| && k + 2 * lanes <= |a|
    ensures LanesWithin(Products(a, w, k, lanes), 0x8000)
  {
    forall i | 0 <= i < lanes ensures -0x8000 <= Products(a, w, k, lanes)[i] <= 0x8000 {
      ProductFits(a[k + 2 * i], w[k + 2 * i]);
      ProductFits(a[k + 2 * i + 1], w[k + 2 * i + 1]);
    }
  }

  /** Within a flush window no lane wraps: after `blocks` steps each is at most 2^15 times as many. */
  lemma LanesAddExact(acc: seq<I32>, p: seq<int>, blocks: nat)
    requires |acc| == |p| && blocks < FLUSH_BLOCKS && LanesWithin(acc, blocks * 0x8000) && LanesWithin(p, 0x8000)
    ensures forall i :: 0 <= i < |acc| ==> AddLanes(acc, p)[i] == acc[i] + p[i]
    ensures LanesWithin(AddLanes(acc, p), (blocks + 1) * 0x8000)
  {
    forall i | 0 <= i < |acc|
      ensures AddLanes(acc, p)[i] == acc[i] + p[i] && -((blocks + 1) * 0x8000) <= acc[i] + p[i] <= (blocks + 1) * 0x8000
    {
      assert -(blocks * 0x8000) <= acc[i] <= blocks * 0x8000 && -0x8000 <= p[i] <= 0x8000;
      NoWrap(acc[i], p[i], blocks);
    }
  }

  lemma NoWrap(x: int, y: int, blocks: nat)
    requires -(blocks * 0x8000) <= x <= blocks * 0x8000 && -0x8000 <= y <= 0x8000 && blocks < FLUSH_BLOCKS
    ensures WrapI32(x + y) == x + y && -((blocks + 1) * 0x8000) <= x + y <= (blocks + 1) * 0x8000
  {}

  /** A block's lanes hold exactly its part of the dot product. */
  lemma {:induction false} ProductsSum(a: seq<Int8>, w: seq<Int8>, k: nat, lanes: nat)
    requires |a| == |w| && k + 2 * lanes <= |a|
    ensures Dot(a[..k + 2 * lanes], w[..k + 2 * lanes]) == Dot(a[..k], w[..k]) + Sum(Products(a, w, k, lanes))
  {
    if lanes > 0 {
      ProductsSum(a, w, k, lanes - 1);
      assert Products(a, w, k, lanes)[..lanes - 1] == Products(a, w, k, lanes - 1);
      DotStep(a, w, k + 2 * lanes - 2);
      DotStep(a, w, k + 2 * lanes - 1);
    }
  }

  lemma {:induction false} LanesSumBound(acc: seq<int>, bound: int)
    requires LanesWithin(acc, bound) && bound >= 0
    ensures -(|acc| * bound) <= Sum(acc) <= |acc| * bound
  {
    if acc != [] {
      LanesSumBound(acc[..|acc| - 1], bound);
      assert |acc| * bound == (|acc| - 1) * bound + bound;
    }
  }

  method Flush(acc64: I64, lanes: seq<I32>) returns (total: I64)
    requires |lanes| <= 16 && LanesWithin(lanes, LANE_BOUND)
        && -0x4000_0000_0000_0000 <= acc64 + Sum(lanes) <= 0x4000_0000_0000_0000
    requires -0x4000_0000_0000_0000 - 0x2_0000_0000 <= acc64 <= 0x4000_0000_0000_0000 + 0x2_0000_0000
    ensures total == acc64 + Sum(lanes)
  {
    total := acc64;
    var i := 0;
    while i < |lanes|
      invariant 0 <= i <= |lanes| && total == acc64 + Sum(lanes[..i])
    {
      assert lanes[..i + 1][..i] == lanes[..i];
      LanesSumBound(lanes[..i + 1], LANE_BOUND);
      total := total + lanes[i];
      i := i + 1;
    }
    assert lanes[..i] == lanes;
  }

  function ZeroLanes(n: nat): (r: seq<I32>)
    ensures |r| == n && LanesWithin(r, 0)
  {
    seq<I32>(n, _ => 0)
  }

  lemma {:induction false} ZeroSum(n: nat)
    ensures Sum(ZeroLanes(n)) == 0
  {
    if n > 0 {
      assert ZeroLanes(n)[..n - 1] == ZeroLanes(n - 1);
      ZeroSum(n - 1);
    }
  }

  /** A SIMD tier: widened blocks, a flush every 16384, and the scalar tail. No lane
      ever exceeds 2^29 in magnitude, and the result is the scalar reference's. */
  method DotRowSimd(a: seq<Int8>, w: seq<Int8>, tier: GemmTier) returns (acc64: I64)
    requires |a| == |w| <= MAX_CHANNELS && !tier.Scalar?
    ensures acc64 == Dot(a, w)
  {
    var k;
    acc64, k := SimdBlocks(a, w, tier);
    while k < |a|
      invariant k <= |a| && acc64 == Dot(a[..k], w[..k])
    {
      DotStep(a, w, k);
      PrefixBound(a, w, k + 1);
      acc64 := acc64 + Times(a[k], w[k]);
      k := k + 1;
    }
    assert a[..k] == a && w[..k] == w;
  }

  method SimdBlocks(a: seq<Int8>, w: seq<Int8>, tier: GemmTier) returns (acc64: I64, k: nat)
    requires |a| == |w| <= MAX_CHANNELS && !tier.Scalar?
    ensures k <= |a| < k + 2 * tier.Lanes() && acc64 == Dot(a[..k], w[..k])
  {
    var lanes := tier.Lanes();
    acc64, k := 0, 0;
    var acc32 := ZeroLanes(lanes);
    var blocks := 0;
    ZeroSum(lanes);
    while k + 2 * lanes <= |a|
      invariant k <= |a| && blocks < FLUSH_BLOCKS && |acc32| == lanes && LanesWithin(acc32, blocks * 0x8000)
      invariant acc64 + Sum(acc32) == Dot(a[..k], w[..k])
      invariant -0x4000_0000_0000_0000 - 0x2_0000_0000 <= acc64 <= 0x4000_0000_0000_0000 + 0x2_0000_0000
      decreases |a| - k
    {
      var p := TierProducts(tier, a, w, k);
      TierProductsAreExact(tier, a, w, k);
      ProductsBounded(a, w, k, lanes);
      LanesAddExact(acc32, p, blocks);
      SumPointwise(acc32, p, AddLanes(acc32, p));
      ProductsSum(a, w, k, lanes);
      PrefixBound(a, w, k + 2 * lanes);
      acc32 := AddLanes(acc32, p);
      blocks := blocks + 1;
      k := k + 2 * lanes;
      if blocks == FLUSH_BLOCKS {
        acc64 := Flush(acc64, acc32);
        acc32, blocks := ZeroLanes(lanes), 0;
      }
    }
    PrefixBound(a, w, k);
    acc64 := Flush(acc64, acc32);
  }

  // ----- What the dot product is

  /** It adds in its first operand. */
  lemma {:induction false} DotAdds(a: seq<int>, b: seq<int>, c: seq<int>, w: seq<int>)
    requires |a| == |b| == |c| == |w| && forall k :: 0 <= k < |c| ==> c[k] == a[k] + b[k]
    ensures Dot(c, w) == Dot(a, w) + Dot(b, w)
  {
    if c != [] {
      var n := |c| - 1;
      DotAdds(a[..n], b[..n], c[..n], w[..n]);
      Distributes(a[n], b[n], w[n]);
    }
  }

  /** A row with one nonzero channel gives that channel's product. */
  lemma {:induction false} DotOfOne(a: seq<int>, w: seq<int>, k: nat)
    requires k < |a| == |w| && forall j :: 0 <= j < |a| && j != k ==> a[j] == 0
    ensures Dot(a, w) == a[k] * w[k]
  {
    var n := |a| - 1;
    if k == n { DotOfNone(a[..n], w[..n]); } else { DotOfOne(a[..n], w[..n], k); }
  }

  lemma {:induction false} DotOfNone(a: seq<int>, w: seq<int>)
    requires |a| == |w| && forall j :: 0 <= j < |a| ==> a[j] == 0
    ensures Dot(a, w) == 0
  {
    if a != [] { DotOfNone(a[..|a| - 1], w[..|a| - 1]); }
  }
}
