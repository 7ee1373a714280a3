/** The integer exponential of the softmax row (src/intmath.cpp lines 722-850) and its vector forms (lines 1019-1057,
1070-1088 and 1162-1175): one 64-bit lane of the AVX2 and AVX-512 bodies, with the estimated quotient and its
corrections, equals the exact definition on every row the guard admits. */
module SoftmaxExp {
  import opened Arith
  import opened Wide128
  import opened Lanes
  import opened Requant

  const CLIP_N: int := 30
  const MAX_Q_LN2: int := (0x8000_0000_0000_0000 - 1) / 30

  datatype Domain = Ok | BadQ | BadQLn2 | BadQB | NotRepresentable

  datatype Construction = Construction(z: nat, base: I64, qC: I64)

  datatype Constructed = Constructed(domain: Domain, c: Construction)

  const NOTHING: Construction := Construction(0, 0, 0)

  /** The clipped distance below the row maximum. */
  function Clipped(a: int, qLn2: int): int { Min(a, CLIP_N * qLn2) }

  /** The exponential's exact definition at distance `a` below the maximum. */
  function ExpOf(a: int, qLn2: int, qB: int, qC: int): int
    requires a >= 0 && qLn2 >= 1
  {
    var c := Clipped(a, qLn2);
    var base := qB - c % qLn2;
    DivBounds(c, qLn2);
    ClipQuotient(a, qLn2);
    (base * base + qC) / Pow2(c / qLn2)
  }

  lemma ClipQuotient(a: int, qLn2: int)
    requires a >= 0 && qLn2 >= 1
    ensures var c := Clipped(a, qLn2);
            0 <= c / qLn2 <= CLIP_N && 0 <= c % qLn2 < qLn2 && c == c / qLn2 * qLn2 + c % qLn2
  {
    var c := Clipped(a, qLn2);
    DivBounds(c, qLn2);
    MulMono(1, qLn2, CLIP_N);
    assert 0 <= c;
    DivMono(c, CLIP_N * qLn2, qLn2);
    DivMono(0, c, qLn2);
    DivUnique(CLIP_N * qLn2, qLn2, CLIP_N);
    DivUnique(0, qLn2, 0);
  }

  /** Nearer than 30 times ln 2 the exponential is the quadratic of the remainder, halved once per whole ln 2. */
  lemma ExpNear(a: int, z: nat, r: int, qLn2: int, qB: int, qC: int)
    requires qLn2 >= 1 && 0 <= r < qLn2 && a == z * qLn2 + r && a < 30 * qLn2
    ensures a >= 0 && z < 30 && ExpOf(a, qLn2, qB, qC) == ((qB - r) * (qB - r) + qC) / Pow2(z)
  {
    MulMono(0, z, qLn2);
    if z >= 30 { MulMono(30, z, qLn2); }
    DivUnique(a, qLn2, z);
  }

  /** From 30 times ln 2 on it stays at its value there. */
  lemma ExpFar(a: int, qLn2: int, qB: int, qC: int)
    requires qLn2 >= 1 && a >= 30 * qLn2
    ensures a >= 0 && ExpOf(a, qLn2, qB, qC) == ExpOf(30 * qLn2, qLn2, qB, qC) == (qB * qB + qC) / 0x4000_0000
  {
    DivUnique(30 * qLn2, qLn2, 30);
    Pow2Thirty();
  }

  lemma Pow2Thirty()
    ensures Pow2(30) == 0x4000_0000
  {
    Pow2Values();
    assert Pow2(31) == 2 * Pow2(30);
  }

  /** One ln 2 farther the exponential is half, rounded down, as far as 30 of them. */
  lemma ExpHalves(a: int, qLn2: int, qB: int, qC: int)
    requires qLn2 >= 1 && a >= 0 && a + qLn2 <= 30 * qLn2
    ensures ExpOf(a + qLn2, qLn2, qB, qC) == ExpOf(a, qLn2, qB, qC) / 2
  {
    var z, r := a / qLn2, a % qLn2;
    DivBounds(a, qLn2);
    DivMono(0, a, qLn2);
    DivUnique(0, qLn2, 0);
    ExpNear(a, z, r, qLn2, qB, qC);
    DivDiv((qB - r) * (qB - r) + qC, Pow2(z), 2);
    assert (z + 1) * qLn2 == z * qLn2 + qLn2;
    if a + qLn2 < 30 * qLn2 { ExpNear(a + qLn2, z + 1, r, qLn2, qB, qC); }
    else { LastHalf(a, z, r, qLn2, qB, qC); }
  }

  lemma LastHalf(a: int, z: nat, r: int, qLn2: int, qB: int, qC: int)
    requires qLn2 >= 1 && 0 <= r < qLn2 && a == z * qLn2 + r == 29 * qLn2
    ensures z == 29 && r == 0 && ExpOf(a + qLn2, qLn2, qB, qC) == (qB * qB + qC) / Pow2(30)
  {
    if z < 29 { MulMono(z + 1, 29, qLn2); }
    if z > 29 { MulMono(30, z, qLn2); }
    ExpFar(a + qLn2, qLn2, qB, qC);
    Pow2Thirty();
  }

  /** Which inputs have a decomposition, and which decompositions evaluate within int64. */
  function ConstructionOf(q: I64, qLn2: I64, qB: I64, qC: I64): Constructed {
    if q > 0 then Constructed(BadQ, NOTHING)
    else if qLn2 < 1 || qLn2 > MAX_Q_LN2 then Constructed(BadQLn2, NOTHING)
    else
      var c := Clipped(-(q as int), qLn2);
      ClipQuotient(-(q as int), qLn2);
      var base: int := qB - c % qLn2;
      if base < -0x8000_0000_0000_0000 then Constructed(BadQB, NOTHING)
      else
        var e := ExpOf(-(q as int), qLn2, qB, qC);
        Constructed(if -0x8000_0000_0000_0000 <= e < 0x8000_0000_0000_0000 then Ok
            else NotRepresentable, Construction(c / qLn2, base, qC))
  }

  /** The checks in dependency order, each making the next line's int64 arithmetic well defined. */
  method IExpConstruct(q: I64, qLn2: I64, qB: I64, qC: I64) returns (d: Domain, out: Construction)
    ensures Constructed(d, out) == ConstructionOf(q, qLn2, qB, qC)
    ensures d == BadQ <==> q > 0
    ensures d == BadQLn2 <==> q <= 0 && !(1 <= qLn2 <= 307_445_734_561_825_860)
    ensures (d == Ok || d == NotRepresentable) && q <= -30 * qLn2 ==> out == Construction(30, qB, qC)
    ensures (d == Ok || d == NotRepresentable) && q > -30 * qLn2 ==>
              out.z * qLn2 <= -(q as int) < out.z * qLn2 + qLn2
              && out == Construction(out.z, qB + q + out.z * qLn2, qC)
  {
    ConstructionIs(q, qLn2, qB, qC);
    if q > 0 { return BadQ, NOTHING; }
    if qLn2 < 1 || qLn2 > MAX_Q_LN2 { return BadQLn2, NOTHING; }
    var z, qP := ClipAndDivide(q, qLn2);
    if qB < -0x8000_0000_0000_0000 - qP { return BadQB, NOTHING; }
    var base: I64 := qP + qB;
    out := Construction(z, base, qC);
    var fits := Representable(base, qC, z);
    d := if fits then Ok else NotRepresentable;
  }

  /** What the construction is, without the clip: at most 30 halvings, and the remainder of the distance taken off. */
  lemma ConstructionIs(q: I64, qLn2: I64, qB: I64, qC: I64)
    ensures var r := ConstructionOf(q, qLn2, qB, qC);
            && (r.domain == BadQ <==> q > 0)
            && (r.domain == BadQLn2 <==> q <= 0 && !(1 <= qLn2 <= 307_445_734_561_825_860))
            && (r.domain == Ok || r.domain == NotRepresentable ==>
                  r.c.qC == qC && 0 <= r.c.z <= 30
                  && (q <= -30 * qLn2 ==> r.c.z == 30 && r.c.base == qB)
                  && (q > -30 * qLn2 ==>
                        r.c.z * qLn2 <= -(q as int) < r.c.z * qLn2 + qLn2
                        && r.c.base == qB + q + r.c.z * qLn2))
  {
    assert 307_445_734_561_825_860 == MAX_Q_LN2;
    if q <= 0 && 1 <= qLn2 <= MAX_Q_LN2 {
      var a: int := -(q as int);
      ClipQuotient(a, qLn2);
      if a >= 30 * qLn2 { DivUnique(30 * qLn2, qLn2, 30); }
    }
  }

  /** The clipped distance as whole multiples of ln 2 and what is left, negated. */
  method ClipAndDivide(q: I64, qLn2: I64) returns (z: I64, qP: I64)
    requires q <= 0 && 1 <= qLn2 <= MAX_Q_LN2
    ensures 0 <= z == Clipped(-(q as int), qLn2) / qLn2 <= 30 && -qLn2 < qP <= 0
    ensures qP == -(Clipped(-(q as int), qLn2) % qLn2)
  {
    MulMono(qLn2, MAX_Q_LN2, CLIP_N);
    var clipLo: I64 := -CLIP_N * qLn2;
    var clipped: I64 := if q < clipLo then clipLo else q;
    ClipQuotient(-(q as int), qLn2);
    DivBounds(-clipped, qLn2);
    z := (-clipped) / qLn2;
    qP := clipped + z * qLn2;
  }

  /** Whether the evaluation fits in int64: the limits are built by doubling on 128-bit words. */
  method Representable(base: I64, qC: I64, z: nat) returns (fits: bool)
    requires z <= 30
    ensures fits <==> FitsShifted(base, qC, z)
  {
    var v := Unshifted(base, qC);
    var limit := DoubledLimit(z);
    var one := Widened(1);
    var zero := Widened(0);
    ShiftDecides(limit, one, zero, v, base, qC, z);
    fits := WithinLimits(limit, one, zero, v);
  }

  /** The limit 2^(63 + z), built by doubling. */
  method DoubledLimit(z: nat) returns (limit: Words)
    requires z <= 30
    ensures SVal(limit) == 0x8000_0000_0000_0000 * Pow2(z)
  {
    limit := STwice(SFromI64(0x4000_0000_0000_0000));
    SFromI64Exact(0x4000_0000_0000_0000);
    LimitDoubles(SFromI64(0x4000_0000_0000_0000), 0x4000_0000_0000_0000);
    assert Pow2(0) == 1;
    for i := 0 to z
      invariant SVal(limit) == 0x8000_0000_0000_0000 * Pow2(i)
    {
      Pow2AtMost(i, 29);
      LimitDoubles(limit, 0x8000_0000_0000_0000 * Pow2(i));
      limit := STwice(limit);
    }
  }

  method Widened(x: I64) returns (w: Words)
    ensures SVal(w) == x
  {
    w := SFromI64(x);
    SFromI64Exact(x);
  }

  method Unshifted(base: I64, qC: I64) returns (v: Words)
    ensures SVal(v) == base * base + qC
  {
    v := SAdd(SMul(base, base), SFromI64(qC));
    SquarePlus(base, qC);
  }

  lemma ShiftDecides(limit: Words, one: Words, zero: Words, v: Words, base: I64, qC: I64, z: nat)
    requires SVal(limit) == 0x8000_0000_0000_0000 * Pow2(z) && z <= 30 && SVal(one) == 1 && SVal(zero) == 0
        && SVal(v) == base * base + qC
    ensures WithinLimits(limit, one, zero, v) <==> FitsShifted(base, qC, z)
  {
    Pow2AtMost(z, 30);
    LimitsDecide(limit, one, zero, v, 0x8000_0000_0000_0000 * Pow2(z), base * base + qC);
    ShiftedFits(base * base + qC, Pow2(z));
  }

  predicate FitsShifted(base: I64, qC: I64, z: nat) {
    -0x8000_0000_0000_0000 <= (base * base + qC) / Pow2(z) < 0x8000_0000_0000_0000
  }

  predicate WithinLimits(limit: Words, one: Words, zero: Words, v: Words) {
    SGe(SSub(limit, one), v) && SGe(v, SSub(zero, limit))
  }

  lemma LimitsDecide(limit: Words, one: Words, zero: Words, v: Words, l: int, x: int)
    requires SVal(limit) == l && SVal(v) == x && 0 <= l <= 0x8000_0000_0000_0000 * 0x4000_0000 && SVal(one) == 1
        && SVal(zero) == 0
    ensures WithinLimits(limit, one, zero, v) <==> -l <= x <= l - 1
  {
    Difference(limit, one, l, 1);
    Difference(zero, limit, 0, l);
    BetweenWords(SSub(limit, one), SSub(zero, limit), v);
  }

  lemma Difference(a: Words, b: Words, x: int, y: int)
    requires SVal(a) == x && SVal(b) == y
        && -0x8000_0000_0000_0000 * 0x8000_0000 <= x - y <= 0x8000_0000_0000_0000 * 0x8000_0000
    ensures SVal(SSub(a, b)) == x - y
  {
    SSubExact(a, b);
  }

  lemma BetweenWords(upper: Words, lower: Words, v: Words)
    ensures SGe(upper, v) && SGe(v, lower) <==> SVal(lower) <= SVal(v) <= SVal(upper)
  {
    SGeExact(upper, v);
    SGeExact(v, lower);
  }

  lemma Pow2AtMost(i: nat, k: nat)
    requires i <= k <= 30
    ensures 1 <= Pow2(i) <= 0x4000_0000 && (k <= 29 ==> Pow2(i) <= 0x2000_0000)
  {
    Pow2Values();
    assert Pow2(31) == 4 * Pow2(29);
    if k <= 29 { Pow2Mono(i, 29); } else { Pow2Mono(i, 30); }
  }

  lemma SquarePlus(base: I64, qC: I64)
    ensures SVal(SAdd(SMul(base, base), SFromI64(qC))) == base * base + qC
  {
    SMulExact(base, base);
    SFromI64Exact(qC);
    SAddExact(SMul(base, base), SFromI64(qC));
  }

  lemma LimitDoubles(w: Words, x: int)
    requires SVal(w) == x && 0 <= x <= 0x8000_0000_0000_0000 * 0x2000_0000
    ensures SVal(STwice(w)) == 2 * x
  {
    SAddExact(w, w);
  }

  /** A floor shift fits in int64 exactly when the unshifted value lies between the scaled limits. */
  lemma ShiftedFits(v: int, p: int)
    requires p >= 1
    ensures -0x8000_0000_0000_0000 <= v / p < 0x8000_0000_0000_0000
        <==> -(0x8000_0000_0000_0000 * p) <= v <= 0x8000_0000_0000_0000 * p - 1
  {
    DivBounds(v, p);
    var t := v / p;
    if t >= 0x8000_0000_0000_0000 { MulMono(0x8000_0000_0000_0000, t, p); }
    if t < -0x8000_0000_0000_0000 { MulMono(t + 1, -0x8000_0000_0000_0000, p); assert (t + 1) * p == t * p + p; }
    if -0x8000_0000_0000_0000 <= t < 0x8000_0000_0000_0000 {
      MulMono(-0x8000_0000_0000_0000, t, p);
      MulMono(t + 1, 0x8000_0000_0000_0000, p);
      assert (t + 1) * p == t * p + p;
    }
  }

  function IExpEvaluate(c: Construction): I64
    requires c.z < 64
  {
    SShrToI64(SAdd(SMul(c.base, c.base), SFromI64(c.qC)), c.z)
  }

  /** What a validated construction evaluates to: the exact exponential, or its low 64 bits where the outcome said
      it is not representable. */
  lemma EvaluateConstruction(q: I64, qLn2: I64, qB: I64, qC: I64)
    requires ConstructionOf(q, qLn2, qB, qC).domain == Ok || ConstructionOf(q, qLn2, qB, qC).domain == NotRepresentable
    ensures var r := ConstructionOf(q, qLn2, qB, qC);
            q <= 0 && qLn2 >= 1 && r.c.z <= 30 && IExpEvaluate(r.c) == WrapI64(ExpOf(-(q as int), qLn2, qB, qC))
            && (r.domain == Ok ==> IExpEvaluate(r.c) == ExpOf(-(q as int), qLn2, qB, qC))
  {
    var a: int := -(q as int);
    ClipQuotient(a, qLn2);
    var c := Clipped(a, qLn2);
    EvaluateParts(c / qLn2, qB - c % qLn2, qC);
    WrapI64Fits(ExpOf(a, qLn2, qB, qC));
  }

  lemma EvaluateParts(z: nat, base: I64, qC: I64)
    requires z <= 30
    ensures IExpEvaluate(Construction(z, base, qC)) == WrapI64((base * base + qC) / Pow2(z))
  {
    var v := SAdd(SMul(base, base), SFromI64(qC));
    SquarePlus(base, qC);
    SShrExact(v, z);
  }

  // ----- The guard's constants

  const MAX_PEAK: int := 0x8000_0000_0000

  /** Steps 2-5 of the row guard. */
  predicate ConstantsAdmitted(qLn2: int, qB: int, qC: int) {
    qLn2 >= 1 && qC >= 0 && 1 <= qB * qB + qC <= MAX_PEAK && qLn2 <= 2 * qB + 1
  }

  /** Admitted constants: the coefficients are small, every base is within `qB` of 0, and every exponential is
      between 0 and the peak, which the maximum attains. */
  lemma AdmittedBounds(a: int, qLn2: int, qB: int, qC: int)
    requires ConstantsAdmitted(qLn2, qB, qC) && a >= 0
    ensures 0 <= qB < 0x100_0000 && 1 <= qLn2 < 0x200_0000 && 0 <= qC <= 0x8000_0000_0000
    ensures var r := Clipped(a, qLn2) % qLn2; 0 <= r < qLn2 && -qB <= qB - r <= qB && (qB - r) * (qB - r) <= qB * qB
    ensures 0 <= ExpOf(a, qLn2, qB, qC) <= qB * qB + qC
    ensures ExpOf(0, qLn2, qB, qC) == qB * qB + qC
  {
    if qB >= 0x100_0000 { ProductAtLeast(qB, 0x100_0000); assert false; }
    var c := Clipped(a, qLn2);
    DivBounds(c, qLn2);
    var r := c % qLn2;
    SquareBound(qB - r, qB);
    ClipQuotient(a, qLn2);
    ShiftShrinks((qB - r) * (qB - r) + qC, Pow2(c / qLn2));
    assert Clipped(0, qLn2) == 0 by { MulMono(1, qLn2, CLIP_N); }
    DivUnique(0, qLn2, 0);
    assert Pow2(0) == 1;
  }

  lemma ProductAtLeast(a: int, m: int)
    requires a >= m >= 0
    ensures a * a >= m * m
  {
    MulMono(m, a, a);
    MulMono(m, a, m);
  }

  lemma ShiftShrinks(v: int, p: int)
    requires v >= 0 && p >= 1
    ensures 0 <= v / p <= v
  {
    DivBounds(v, p);
    if v / p < 0 { MulMono(v / p, -1, p); assert false; }
    MulMono(1, p, v / p);
  }

  // ----- The estimated quotient

  /** The lane kernels' shift: the position of the leading one, plus 31. */
  function InverseShift(qLn2: int): nat
    requires qLn2 >= 1
  {
    31 + Log2(qLn2)
  }

  function Inverse(qLn2: int): int
    requires qLn2 >= 1
  {
    Pow2(InverseShift(qLn2)) / qLn2
  }

  /** The floored reciprocal never overestimates and is at most one low; nothing wraps in the lane product. */
  lemma EstimateBelow(a: int, qLn2: int)
    requires 1 <= qLn2 < 0x200_0000 && 0 <= a <= CLIP_N * qLn2
    ensures var inv := Inverse(qLn2); var p := Pow2(InverseShift(qLn2));
            0 <= inv <= 0x8000_0000 && 0 <= a * inv < 0x2000_0000_0000_0000 && p > a
            && (var z := a * inv / p; 0 <= z <= 30 && 0 <= a - z * qLn2 < 2 * qLn2)
  {
    var p, inv := Pow2(InverseShift(qLn2)), Inverse(qLn2);
    InverseBounds(qLn2);
    ProductBound(a, inv, 30 * 0x1FF_FFFF, 0x8000_0000);
    var z := a * inv / p;
    DivBounds(a * inv, p);
    EstimateClose(a, qLn2, inv, p, z);
    if z < 0 { MulMono(z, -1, p); assert false; }
    if z > 30 { MulMono(31, z, qLn2); assert false; }
  }

  lemma InverseBounds(qLn2: int)
    requires 1 <= qLn2 < 0x200_0000
    ensures var inv, p := Inverse(qLn2), Pow2(InverseShift(qLn2));
            0 <= inv <= 0x8000_0000 && p >= 0x8000_0000 && inv * qLn2 <= p < inv * qLn2 + qLn2
  {
    var low := Pow2(Log2(qLn2));
    Log2Bounds(qLn2);
    Pow2Add(Log2(qLn2), 31);
    Pow2Values();
    InverseRange(low, qLn2, low * 0x8000_0000);
  }

  lemma InverseRange(low: int, q: int, p: int)
    requires 1 <= low <= q && p == low * 0x8000_0000
    ensures 0 <= p / q <= 0x8000_0000 && p >= 0x8000_0000 && p / q * q <= p < p / q * q + q
  {
    var inv := p / q;
    DivBounds(p, q);
    if inv > 0x8000_0000 { MulMono(0x8000_0000 + 1, inv, q); MulMono(low, q, 0x8000_0000 + 1); assert false; }
    if inv < 0 { MulMono(inv, -1, q); assert false; }
  }

  lemma EstimateClose(a: int, q: int, inv: int, p: int, z: int)
    requires q >= 1 && 0 <= a < p && inv * q <= p < inv * q + q && z * p <= a * inv < z * p + p
    ensures 0 <= a - z * q < 2 * q
  {
    var zq, iq := z * q, inv * q;
    ScaledEstimate(a, q, inv, p, z);
    MulMono(iq, p, a);
    MulMono(p, iq + q, a);
    assert a * (iq + q) == a * iq + a * q;
    MulMono(a + 1, p, q);
    assert (a + 1) * q == a * q + q && p * q == q * p;
    if zq > a { MulMono(a + 1, zq, p); AddOne(a, p); assert false; }
    if a - zq >= 2 * q {
      MulMono(zq + 2 * q, a, p);
      AddTwice(zq, q, p);
      assert false;
    }
  }

  lemma AddOne(a: int, p: int)
    ensures (a + 1) * p == a * p + p
  {}

  lemma AddTwice(x: int, q: int, p: int)
    ensures (x + 2 * q) * p == x * p + 2 * (q * p)
  {}

  lemma ScaledEstimate(a: int, q: int, inv: int, p: int, z: int)
    requires q >= 1 && z * p <= a * inv < z * p + p
    ensures (z * q) * p <= a * (inv * q) && a * (inv * q) + q <= (z * q) * p + q * p
  {
    var ai, zp := a * inv, z * p;
    MulMono(zp, ai, q);
    MulMono(ai + 1, zp + p, q);
    assert ai * q == a * (inv * q) && zp * q == (z * q) * p;
    assert (ai + 1) * q == ai * q + q && (zp + p) * q == zp * q + p * q;
  }

  // ----- One lane of each vector body

  /** min(a, clip) by unsigned 32-bit minima, the high dword folded into bit 31 of both halves. */
  function ClipAvx2(a: U64, clip: U64): int {
    var lo, hi := a % 0x1_0000_0000, a / 0x1_0000_0000;
    var lo' := Min(if hi != 0 then OrBit(lo, 31) else lo, clip % 0x1_0000_0000);
    var hi' := Min(if hi != 0 then OrBit(hi, 31) else hi, clip / 0x1_0000_0000);
    hi' * 0x1_0000_0000 + lo'
  }

  lemma ClipAvx2Exact(a: U64, clip: U64)
    requires clip < 0x8000_0000
    ensures ClipAvx2(a, clip) == Min(a, clip)
  {
    assert Pow2(31) == 0x8000_0000 by { Pow2Values(); }
    var lo := a % 0x1_0000_0000;
    assert lo / 0x8000_0000 % 2 == if lo < 0x8000_0000 then 0 else 1;
  }

  datatype Reduced = Reduced(z: U64, r: U64)

  /** Both corrections of an estimate `z` with remainder `r`, by the AVX2 signed compares. */
  function CorrectAvx2(z: U64, r: U64, qLn2: U64): Reduced {
    var up := CmpgtEpi64(r, SubEpi64(qLn2, 1));
    var z1, r1 := SubEpi64(z, up), SubEpi64(r, Masked(up, qLn2));
    var down := CmpgtEpi64(0, r1);
    Reduced(AddEpi64(z1, down), AddEpi64(r1, Masked(down, qLn2)))
  }

  /** The same, deciding by the sign of exact differences. */
  function CorrectAvx512(z: U64, r: U64, qLn2: U64): Reduced {
    var up := SignEpi64(SubEpi64(SubEpi64(qLn2, 1), r));
    var z1, r1 := SubEpi64(z, up), SubEpi64(r, Masked(up, qLn2));
    var down := SignEpi64(r1);
    Reduced(AddEpi64(z1, down), AddEpi64(r1, Masked(down, qLn2)))
  }

  function Estimate(a: U64, inv: U64, kz: nat): U64 { WrapU64(SrlEpi64(MulEpu32(a, inv), kz)) }

  function Remainder(a: U64, z: U64, qLn2: U64): U64 { SubEpi64(a, WrapU64(MulEpu32(z, qLn2))) }

  function ReduceAvx2(a: U64, qLn2: U64, inv: U64, kz: nat): Reduced {
    var z := Estimate(a, inv, kz);
    CorrectAvx2(z, Remainder(a, z, qLn2), qLn2)
  }

  function ReduceAvx512(a: U64, qLn2: U64, inv: U64, kz: nat): Reduced {
    var z := Estimate(a, inv, kz);
    CorrectAvx512(z, Remainder(a, z, qLn2), qLn2)
  }

  /** Both forms find the floor quotient and remainder. */
  lemma ReduceExact(a: U64, qLn2: U64, inv: U64, kz: nat)
    requires 1 <= qLn2 < 0x200_0000 && a <= CLIP_N * qLn2 && inv == Inverse(qLn2) && kz == InverseShift(qLn2)
    ensures 0 <= a / qLn2 <= 30 && 0 <= a % qLn2 < qLn2
    ensures ReduceAvx2(a, qLn2, inv, kz) == ReduceAvx512(a, qLn2, inv, kz) == Reduced(a / qLn2, a % qLn2)
  {
    EstimateBelow(a, qLn2);
    var z := a * inv / Pow2(kz);
    FirstEstimate(a, inv, kz, z);
    QuotientFrom(a, qLn2, z);
    MulMono(z, 30, qLn2);
    MulMono(0, z, qLn2);
    RemainderIs(a, z, qLn2, z * qLn2);
    CorrectedOnce(z, a - z * qLn2, qLn2);
  }

  lemma RemainderIs(a: U64, z: U64, qLn2: U64, t: int)
    requires qLn2 < 0x200_0000 && z <= 30 && t == z * qLn2 && 0 <= t <= a
    ensures Remainder(a, z, qLn2) == a - t
  {
    assert MulEpu32(z, qLn2) == t;
  }

  lemma QuotientFrom(a: int, q: int, z: int)
    requires q >= 1 && 0 <= z <= 30 && 0 <= a - z * q < 2 * q && a <= 30 * q
    ensures var up := a - z * q >= q;
            a / q == (if up then z + 1 else z) && a % q == (if up then a - z * q - q else a - z * q)
    ensures 0 <= a / q <= 30 && 0 <= a % q < q
  {
    var r := a - z * q;
    assert (z + 1) * q == z * q + q;
    if r < q { DivUnique(a, q, z); } else { DivUnique(a, q, z + 1); }
    if r >= q && z >= 30 { assert false; }
  }

  lemma FirstEstimate(a: U64, inv: int, kz: nat, z: int)
    requires a < 0x1_0000_0000 && 0 <= inv < 0x1_0000_0000 && z == a * inv / Pow2(kz) && 0 <= z <= 30
    ensures Estimate(a, inv, kz) == z
  {}

  lemma CorrectedOnce(z: U64, r: U64, qLn2: U64)
    requires 1 <= qLn2 < 0x200_0000 && r < 2 * qLn2 && z <= 30
    ensures CorrectAvx2(z, r, qLn2) == CorrectAvx512(z, r, qLn2) == if r >= qLn2 then Reduced(z + 1, r - qLn2)
        else Reduced(z, r)
  {
    if r >= qLn2 { StepUp(z, r, qLn2); } else { StayPut(z, r, qLn2); }
  }

  lemma StepUp(z: U64, r: U64, qLn2: U64)
    requires 1 <= qLn2 <= r < 2 * qLn2 && qLn2 < 0x200_0000 && z <= 30
    ensures CmpgtEpi64(r, SubEpi64(qLn2, 1)) == SignEpi64(SubEpi64(SubEpi64(qLn2, 1), r)) == ALL_ONES
    ensures SubEpi64(z, ALL_ONES) == z + 1 && SubEpi64(r, qLn2) == r - qLn2
    ensures CmpgtEpi64(0, r - qLn2) == SignEpi64(r - qLn2) == 0 && AddEpi64(z + 1, 0) == z + 1
        && AddEpi64(r - qLn2, 0) == r - qLn2
  {}

  lemma StayPut(z: U64, r: U64, qLn2: U64)
    requires 0 <= r < qLn2 < 0x200_0000 && z <= 30
    ensures CmpgtEpi64(r, SubEpi64(qLn2, 1)) == SignEpi64(SubEpi64(SubEpi64(qLn2, 1), r)) == 0
    ensures SubEpi64(z, 0) == z && SubEpi64(r, 0) == r && CmpgtEpi64(0, r) == SignEpi64(r) == 0 && AddEpi64(z, 0) == z
        && AddEpi64(r, 0) == r
  {}

  function SrlvEpi64(v: U64, z: U64): U64 {
    if z >= 64 then 0 else ShiftedDown(v, z)
  }

  function ShiftedDown(v: U64, z: nat): U64 {
    ShiftShrinks(v, Pow2(z));
    v / Pow2(z)
  }

  function Evaluate(red: Reduced, qB: U64, qC: U64): U64 {
    var base := SubEpi64(qB, red.r);
    SrlvEpi64(AddEpi64(MulEpi32(base, base), qC), red.z)
  }

  /** The row constants every lane holds. */
  datatype LaneConsts = LaneConsts(peak: U64, clip: U64, inv: U64, qLn2: U64, qB: U64, qC: U64, kz: nat)

  function Broadcast(peak: I64, qLn2: I64, qB: I64, qC: I64): LaneConsts
    requires qLn2 >= 1
  {
    LaneConsts(ToLane(peak), ToLane(CLIP_N * qLn2), ToLane(Inverse(qLn2)), ToLane(qLn2), ToLane(qB), ToLane(qC),
        InverseShift(qLn2))
  }

  function ExpLaneAvx2(s: U64, c: LaneConsts): U64 {
    var a := ClipAvx2(SubEpi64(c.peak, s), c.clip);
    Evaluate(ReduceAvx2(WrapU64(a), c.qLn2, c.inv, c.kz), c.qB, c.qC)
  }

  function ExpLaneAvx512(s: U64, c: LaneConsts): U64 {
    var a := Min(SubEpi64(c.peak, s), c.clip);
    Evaluate(ReduceAvx512(a, c.qLn2, c.inv, c.kz), c.qB, c.qC)
  }

  lemma EvaluateExact(a: int, qLn2: int, qB: int, qC: int)
    requires ConstantsAdmitted(qLn2, qB, qC) && 0 <= a
    ensures var c := Clipped(a, qLn2);
            0 <= c / qLn2 <= 30 && 0 <= c % qLn2 < 0x1_0000_0000_0000_0000 && 0 <= qB < 0x1_0000_0000_0000_0000
                && 0 <= qC < 0x1_0000_0000_0000_0000
            && Evaluate(Reduced(c / qLn2, c % qLn2), qB, qC) == ExpOf(a, qLn2, qB, qC)
  {
    AdmittedBounds(a, qLn2, qB, qC);
    ClipQuotient(a, qLn2);
    var c := Clipped(a, qLn2);
    EvaluateLane(c / qLn2, c % qLn2, qB, qC, qB - c % qLn2);
  }

  lemma EvaluateLane(z: U64, r: U64, qB: U64, qC: U64, base: int)
    requires z <= 30 && base == qB - r && -0x100_0000 < base < 0x100_0000 && qB < 0x100_0000 && qC <= 0x8000_0000_0000
    ensures Evaluate(Reduced(z, r), qB, qC) == (base * base + qC) / Pow2(z)
  {
    SquareLane(base);
    SquareBound(base, 0x100_0000);
    BaseLane(qB, r, base);
    FinishLane(MulEpi32(ToLane(base), ToLane(base)), qC, z);
  }

  lemma FinishLane(square: U64, qC: U64, z: U64)
    requires square <= 0x1_0000_0000_0000 && qC <= 0x8000_0000_0000 && z <= 30
    ensures SrlvEpi64(AddEpi64(square, qC), z) == (square + qC) / Pow2(z)
  {
    assert AddEpi64(square, qC) == square + qC;
  }

  lemma BaseLane(qB: U64, r: U64, base: int)
    requires base == qB - r
    ensures SubEpi64(qB, r) == ToLane(base)
  {}

  lemma SquareLane(base: int)
    requires -0x100_0000 < base < 0x100_0000
    ensures MulEpi32(ToLane(base), ToLane(base)) == base * base
  {
    LowDword(base);
    SquareBound(base, 0x100_0000);
    SmallResidue(base * base);
  }

  lemma LowDword(base: int)
    requires -0x100_0000 < base < 0x100_0000
    ensures WrapI32(ToLane(base)) == base
  {
    LaneOf(base);
    if base < 0 { DivAddMultiple(base, 0x1_0000_0000, 0x1_0000_0000); }
  }

  lemma SmallResidue(x: int)
    requires 0 <= x < 0x1_0000_0000_0000_0000
    ensures x % 0x1_0000_0000_0000_0000 == x
  {}

  /** Every lane of both vector bodies is the exact exponential. */
  lemma ExpLanesExact(s: I64, peak: I64, qLn2: I64, qB: I64, qC: I64)
    requires ConstantsAdmitted(qLn2, qB, qC) && -0x2000_0000_0000_0000 <= s <= peak <= 0x2000_0000_0000_0000
    ensures var c, e := Broadcast(peak, qLn2, qB, qC), ExpOf(peak - s, qLn2, qB, qC);
            ExpLaneAvx2(ToLane(s), c) == ExpLaneAvx512(ToLane(s), c) == e && 0 <= e <= qB * qB + qC
  {
    AdmittedBounds(peak - s, qLn2, qB, qC);
    AdmittedBroadcast(peak, qLn2, qB, qC);
    DistanceLane(s, peak);
    ConstantLanes(ToLane(s), Broadcast(peak, qLn2, qB, qC), peak - s, qLn2, qB, qC);
  }

  lemma ConstantLanes(s: U64, c: LaneConsts, a: int, qLn2: int, qB: int, qC: int)
    requires ConstantsAdmitted(qLn2, qB, qC) && 0 <= a && SubEpi64(c.peak, s) == a
    requires 1 <= qLn2 < 0x200_0000 && 0 <= qB < 0x100_0000 && 0 <= qC <= 0x8000_0000_0000
    requires c == LaneConsts(c.peak, CLIP_N * qLn2, c.inv, qLn2, qB, qC, c.kz) && c.inv == Inverse(qLn2)
        && c.kz == InverseShift(qLn2)
    ensures ExpLaneAvx2(s, c) == ExpLaneAvx512(s, c) == ExpOf(a, qLn2, qB, qC)
  {
    ClipAvx2Exact(a, c.clip);
    var clipped: U64 := Clipped(a, qLn2);
    assert WrapU64(ClipAvx2(a, c.clip)) == clipped;
    ClippedLanes(a, qLn2, qB, qC, c.inv, c.kz);
  }

  lemma DistanceLane(s: I64, peak: I64)
    requires -0x2000_0000_0000_0000 <= s <= peak <= 0x2000_0000_0000_0000
    ensures SubEpi64(ToLane(peak), ToLane(s)) == peak - s
  {}

  lemma AdmittedBroadcast(peak: I64, qLn2: I64, qB: I64, qC: I64)
    requires ConstantsAdmitted(qLn2, qB, qC)
    ensures 0 <= Inverse(qLn2) < 0x1_0000_0000 && CLIP_N * qLn2 < 0x8000_0000
    ensures Broadcast(peak, qLn2, qB, qC)
            == LaneConsts(ToLane(peak), CLIP_N * qLn2, Inverse(qLn2), qLn2, qB, qC, InverseShift(qLn2))
  {
    AdmittedBounds(0, qLn2, qB, qC);
    InverseFits(qLn2);
    SmallLanes(qLn2, Inverse(qLn2), qB, qC);
  }

  lemma InverseFits(qLn2: int)
    requires 1 <= qLn2 < 0x200_0000
    ensures 0 <= Inverse(qLn2) < 0x1_0000_0000
  {
    EstimateBelow(0, qLn2);
  }

  lemma SmallLanes(qLn2: int, inv: int, qB: int, qC: int)
    requires 1 <= qLn2 < 0x200_0000 && 0 <= inv < 0x1_0000_0000 && 0 <= qB < 0x100_0000 && 0 <= qC <= 0x8000_0000_0000
    ensures ToLane(CLIP_N * qLn2) == CLIP_N * qLn2 && ToLane(qLn2) == qLn2 && ToLane(inv) == inv && ToLane(qB) == qB
        && ToLane(qC) == qC
  {}

  lemma ClippedLanes(a: int, qLn2: int, qB: int, qC: int, inv: U64, kz: nat)
    requires ConstantsAdmitted(qLn2, qB, qC) && 0 <= a && inv == Inverse(qLn2) && kz == InverseShift(qLn2)
    requires 1 <= qLn2 < 0x200_0000 && 0 <= qB < 0x100_0000 && 0 <= qC <= 0x8000_0000_0000
    ensures var c: U64 := Clipped(a, qLn2);
            Evaluate(ReduceAvx2(c, qLn2, inv, kz), qB, qC) == Evaluate(ReduceAvx512(c, qLn2, inv, kz), qB, qC)
            == ExpOf(a, qLn2, qB, qC)
  {
    ReduceExact(Clipped(a, qLn2), qLn2, inv, kz);
    EvaluateExact(a, qLn2, qB, qC);
  }
}
