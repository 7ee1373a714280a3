/** The per-token requantisation chain of src/intmath.cpp lines 323-328 and 485-672:
max-abs, normalise, reciprocal, and one int8 code per element. */
module Requant {
  import opened Arith
  import opened Wide128
  import opened Reciprocal
  import opened Lanes

  const LIMIT: int := 0x8000_0000

  function MaxAbs(x: seq<I64>): int {
    if x == [] then 0 else Max(MaxAbs(x[..|x| - 1]), Abs(x[|x| - 1]))
  }

  /** The all-zero guard below, the saturation of a magnitude of 2^63 above. */
  function MaxAbsPrime(x: seq<I64>): I64 { Max(1, Min(MaxAbs(x), 0x8000_0000_0000_0000 - 1)) }

  /** The row's largest magnitude: an upper bound of every one and, in a nonzero row, one of them. An all-zero row
      gives 1, and a magnitude of 2^63 saturates. */
  method MaxAbsReduceWide(x: seq<I64>) returns (dPrime: I64)
    ensures dPrime == MaxAbsPrime(x)
    ensures forall v :: v in x && Abs(v) < 0x8000_0000_0000_0000 ==> Abs(v) <= dPrime
    ensures (exists v :: v in x && v != 0) && -0x8000_0000_0000_0000 !in x ==> exists v :: v in x && Abs(v) == dPrime
    ensures (forall v :: v in x ==> v == 0) ==> dPrime == 1
    ensures -0x8000_0000_0000_0000 in x ==> dPrime == 0x8000_0000_0000_0000 - 1
  {
    PrimeIsLargest(x);
    var d: U64 := 0;
    for i := 0 to |x|
      invariant d == MaxAbs(x[..i]) <= 0x8000_0000_0000_0000
    {
      MagnitudeWord(x[i]);
      assert x[..i + 1][..i] == x[..i];
      var a := if x[i] < 0 then WrapU64(Complement(WrapU64(x[i])) + 1) else x[i];
      if a > d { d := a; }
    }
    assert x[..|x|] == x;
    if d < 1 { d := 1; }
    dPrime := if d > 0x8000_0000_0000_0000 - 1 then 0x8000_0000_0000_0000 - 1 else d;
  }

  lemma {:induction false} MaxAbsIsMaximum(x: seq<I64>)
    ensures forall v :: v in x ==> Abs(v) <= MaxAbs(x)
    ensures MaxAbs(x) > 0 ==> exists v :: v in x && Abs(v) == MaxAbs(x)
    ensures 0 <= MaxAbs(x) <= 0x8000_0000_0000_0000
  {
    if x != [] {
      var front, last := x[..|x| - 1], x[|x| - 1];
      MaxAbsIsMaximum(front);
      assert forall v :: v in x <==> v in front || v == last by { assert x == front + [last]; }
    }
  }

  lemma PrimeIsLargest(x: seq<I64>)
    ensures forall v :: v in x && Abs(v) < 0x8000_0000_0000_0000 ==> Abs(v) <= MaxAbsPrime(x)
    ensures (exists v :: v in x && v != 0) && -0x8000_0000_0000_0000 !in x ==>
        exists v :: v in x && Abs(v) == MaxAbsPrime(x)
    ensures (forall v :: v in x ==> v == 0) ==> MaxAbsPrime(x) == 1
    ensures -0x8000_0000_0000_0000 in x ==> MaxAbsPrime(x) == 0x8000_0000_0000_0000 - 1
  {
    MaxAbsIsMaximum(x);
    if MaxAbs(x) > 0 { var v :| v in x && Abs(v) == MaxAbs(x); }
    if (exists v :: v in x && v != 0) && -0x8000_0000_0000_0000 !in x {
      var u :| u in x && u != 0;
      assert MaxAbs(x) >= Abs(u) > 0;
      var v :| v in x && Abs(v) == MaxAbs(x);
      assert v != -0x8000_0000_0000_0000;
    }
  }

  /** The position of the leading one: what 63 - countl_zero computes. */
  function Log2(n: int): nat
    requires n >= 1
  {
    if n == 1 then 0 else 1 + Log2(n / 2)
  }

  lemma {:induction false} Log2Bounds(n: int)
    requires n >= 1
    ensures Pow2(Log2(n)) <= n < 2 * Pow2(Log2(n))
  {
    if n > 1 { Log2Bounds(n / 2); }
  }

  datatype Normalized = Normalized(dn: int, s: int)

  function NormalizeScale(dPrime: int): Normalized
    requires 1 <= dPrime <= LIMIT
  {
    var s := 30 - Log2(dPrime);
    Normalized(if s >= 0 then dPrime * Pow2(s) else dPrime / 2, s)
  }

  /** Normalisation is exact: `dn / 2^s` is the input, and `dn` is canonical. */
  lemma NormalizeExact(dPrime: int)
    requires 1 <= dPrime <= LIMIT
    ensures var n := NormalizeScale(dPrime);
            Canonical(n.dn) && -1 <= n.s <= 30 && dPrime * 0x4000_0000_0000_0000 == n.dn * Pow2(62 - n.s)
  {
    var p := Log2(dPrime);
    Log2Bounds(dPrime);
    LogAtMost31(dPrime, p);
    if p <= 30 {
      ShiftedUp(dPrime, p, Pow2(30 - p));
    } else {
      ShiftedDown(dPrime);
    }
  }

  lemma LogAtMost31(d: int, p: nat)
    requires d <= LIMIT && Pow2(p) <= d
    ensures p <= 31 && (p == 31 ==> d == 0x8000_0000)
  {
    Pow2Values();
    if p >= 32 { Pow2Mono(32, p); }
  }

  lemma ShiftedUp(d: int, p: nat, k: int)
    requires p <= 30 && Pow2(p) <= d < 2 * Pow2(p) && k == Pow2(30 - p)
    ensures 0x4000_0000 <= d * k < 0x8000_0000 && d * 0x4000_0000_0000_0000 == (d * k) * Pow2(32 + p)
  {
    Pow2Add(p, 30 - p);
    Pow2Add(30 - p, 32 + p);
    Pow2Values();
    assert Pow2(31) == 2 * Pow2(30);
    ShiftedRange(d, Pow2(p), k);
    MulAssoc(d, k, Pow2(32 + p));
  }

  lemma ShiftedDown(d: int)
    requires d == 0x8000_0000
    ensures d / 2 == 0x4000_0000 && d * 0x4000_0000_0000_0000 == d / 2 * Pow2(63)
  {
    Pow2Values();
  }

  lemma ShiftedRange(d: int, low: int, k: int)
    requires low <= d < 2 * low && k > 0 && low * k == 0x4000_0000
    ensures 0x4000_0000 <= d * k < 0x8000_0000
  {
    MulMono(low, d, k);
    MulMono(d + 1, 2 * low, k);
    MulAssoc(2, low, k);
  }

  /** round_half_away_from_zero of a non-negative value over 2^e. */
  function RoundShift(a: int, e: nat): int { (2 * a + Pow2(e)) / Pow2(e + 1) }

  function Sign(x: int, magnitude: int): int { if x < 0 then -magnitude else magnitude }

  /** What C22 promises: the rounded, clamped, signed composite. */
  function Code(x: int, r: int, s: int): int
    requires s <= 30
  {
    Sign(x, Min(127, RoundShift(127 * (Abs(x) * r), 62 - s)))
  }

  /** The element form, on 128-bit words. */
  function RequantTokenCodeWide(x: I64, r: U64, s: int): int
    requires -1 <= s <= 30
  {
    var e := 62 - s;
    var absX := if x < 0 then WrapU64(Complement(WrapU64(x)) + 1) else x;
    var prod := UMulWide(UMul(absX, r), 127);
    var numerator := UAdd64(UTwice(prod), WrapU64(Pow2(e)));
    var magnitude := UShrToU64(numerator, e + 1);
    Sign(x, if magnitude > 127 then 127 else magnitude)
  }

  /** The words lose nothing up to the last narrowing. */
  lemma ElementNumerator(a: U64, r: U64, p: U64)
    requires a <= 0x8000_0000_0000_0000 && r <= 0x1_0000_0000 && p <= 0x8000_0000_0000_0000
    ensures UVal(UAdd64(UTwice(UMulWide(UMul(a, r), 127)), p)) == 254 * (a * r) + p
    ensures 0 <= a * r <= 0x8000_0000_0000_0000 * 0x1_0000_0000
  {
    ProductBound(a, r, 0x8000_0000_0000_0000, 0x1_0000_0000);
    UMulExact(a, r);
    DoubledProduct(UMul(a, r), p);
  }

  lemma DoubledProduct(w: Words, p: U64)
    requires UVal(w) <= 0x8000_0000_0000_0000 * 0x1_0000_0000 && p <= 0x8000_0000_0000_0000
    ensures UVal(UAdd64(UTwice(UMulWide(w, 127)), p)) == 254 * UVal(w) + p
  {
    UMulWideExact(w, 127);
    var v := UMulWide(w, 127);
    UTwiceExact(v);
    UAdd64Exact(UTwice(v), p);
  }

  /** The narrowing shift keeps the low 64 bits of the rounded magnitude, and the clamp reads those. */
  lemma ElementMagnitude(x: I64, r: U64, s: int)
    requires r <= 0x1_0000_0000 && -1 <= s <= 30
    ensures RequantTokenCodeWide(x, r, s)
        == Sign(x, Min(127, RoundShift(127 * (Abs(x) * r), 62 - s) % 0x1_0000_0000_0000_0000))
    ensures RoundShift(127 * (Abs(x) * r), 62 - s) >= 0
  {
    var e := 62 - s;
    var a := Abs(x);
    MagnitudeWord(x);
    Pow2Mono(e, 63); Pow2Values();
    Wrap(Pow2(e));
    ElementNumerator(a, r, Pow2(e));
    var numerator := UAdd64(UTwice(UMulWide(UMul(a, r), 127)), WrapU64(Pow2(e)));
    NarrowedMagnitude(numerator, a * r, e);
    assert RequantTokenCodeWide(x, r, s)
        == Sign(x, if UShrToU64(numerator, e + 1) > 127 then 127 else UShrToU64(numerator, e + 1));
  }

  lemma NarrowedMagnitude(numerator: Words, ar: int, e: nat)
    requires e <= 63 && ar >= 0 && UVal(numerator) == 254 * ar + Pow2(e)
    ensures UShrToU64(numerator, e + 1) == RoundShift(127 * ar, e) % 0x1_0000_0000_0000_0000
        && RoundShift(127 * ar, e) >= 0
  {
    UShrLow64(numerator, e + 1);
    DivMono(0, 254 * ar + Pow2(e), Pow2(e + 1));
    DivUnique(0, Pow2(e + 1), 0);
  }

  /** The header's claim for every int64 element holds exactly when the rounded magnitude either fits the
      narrowing shift's 64 bits or its low 64 bits still reach the clamp. */
  lemma ElementCodeExactly(x: I64, r: U64, s: int)
    requires r <= 0x1_0000_0000 && -1 <= s <= 30
    ensures RequantTokenCodeWide(x, r, s) == Code(x, r, s)
        <==> RoundShift(127 * (Abs(x) * r), 62 - s) < 0x1_0000_0000_0000_0000
             || RoundShift(127 * (Abs(x) * r), 62 - s) % 0x1_0000_0000_0000_0000 >= 127
  {
    ElementMagnitude(x, r, s);
    ClampAfterNarrowing(x, RoundShift(127 * (Abs(x) * r), 62 - s));
  }

  lemma ClampAfterNarrowing(x: int, m: int)
    requires m >= 0
    ensures Sign(x, Min(127, m % 0x1_0000_0000_0000_0000)) == Sign(x, Min(127, m))
        <==> m < 0x1_0000_0000_0000_0000 || m % 0x1_0000_0000_0000_0000 >= 127
  {}

  /** A family on which it fails: when r = 2^(62-s), which for a reciprocal means a row whose largest
      magnitude is 1, the code of a non-negative x is 127 x mod 2^64, clamped, where min(127, 127 x) is
      promised. */
  lemma UnitRowCode(x: I64, r: U64, s: int)
    requires -1 <= s <= 30 && r == Pow2(62 - s) <= 0x1_0000_0000 && x >= 0
    ensures RequantTokenCodeWide(x, r, s) == Min(127, 127 * x % 0x1_0000_0000_0000_0000)
        && Code(x, r, s) == Min(127, 127 * x)
  {
    var m := RoundShift(127 * (Abs(x) * r), 62 - s);
    assert m == 127 * x by {
      MulAssoc(127, x, r);
      RoundExactShift(127 * x, 62 - s);
    }
    ElementMagnitude(x, r, s);
  }

  /** So the claim fails on a concrete element: 127 * 145249953336295683 is 2^64 + 125. */
  lemma ElementCodeWitness(r: U64, s: int)
    requires -1 <= s <= 30 && r == Pow2(62 - s) <= 0x1_0000_0000
    ensures exists x: I64 :: RequantTokenCodeWide(x, r, s) == 125 && Code(x, r, s) == 127
  {
    var x := WitnessElement();
    UnitRowCode(x, r, s);
  }

  lemma WitnessElement() returns (x: I64)
    ensures x >= 0 && 127 * x >= 127 && 127 * x % 0x1_0000_0000_0000_0000 == 125
  {
    x := 145249953336295683;
  }

  lemma RoundExactShift(a: int, e: nat)
    ensures RoundShift(a * Pow2(e), e) == a
  {
    var p := Pow2(e);
    assert Pow2(e + 1) == 2 * p;
    assert 2 * (a * p) + p - a * (2 * p) == p;
    DivUnique(2 * (a * p) + p, 2 * p, a);
  }

  /** Inside the chain's contract the element form is the promised code. */
  lemma ElementCode(x: I64, r: U64, s: int)
    requires Abs(x) <= LIMIT && r <= 0x1_0000_0000 && -1 <= s <= 30
    ensures RequantTokenCodeWide(x, r, s) == Code(x, r, s)
  {
    var e := 62 - s;
    ProductBound(Abs(x), r, LIMIT, 0x1_0000_0000);
    Pow2Mono(32, e); Pow2Values();
    ElementMagnitude(x, r, s);
    MagnitudeFits(Abs(x) * r, e);
    ClampAfterNarrowing(x, RoundShift(127 * (Abs(x) * r), e));
  }

  lemma MagnitudeFits(ar: int, e: nat)
    requires 0 <= ar <= 0x8000_0000_0000_0000 && Pow2(e) >= 0x1_0000_0000
    ensures 0 <= RoundShift(127 * ar, e) < 0x1_0000_0000_0000_0000
  {
    var n := 254 * ar + Pow2(e);
    DivMono(0, n, Pow2(e + 1));
    DivUnique(0, Pow2(e + 1), 0);
    DivBounds(n, Pow2(e + 1));
    var m := n / Pow2(e + 1);
    if m >= 0x1_0000_0000_0000_0000 { MulMono(0x1_0000_0000_0000_0000, m, Pow2(e + 1)); assert false; }
  }

  // ----- How good the codes are

  /** The promised code is within 1/2 + 127 * 2^-32 of 127 x / D'. */
  lemma PromisedError(x: int, dPrime: int)
    requires 1 <= dPrime <= LIMIT && Abs(x) <= dPrime
    ensures var n := NormalizeScale(dPrime);
            Canonical(n.dn) && n.s <= 30
            && CloseTo(Code(x, RoundedReciprocal(n.dn), n.s), x, dPrime)
  {
    NormalizeExact(dPrime);
    var n := NormalizeScale(dPrime);
    var r, e := RoundedReciprocal(n.dn), 62 - n.s;
    RoundedByResidual(n.dn, r);
    ReciprocalRange(n.dn);
    RoundShiftError(Abs(x) * r, e);
    var q := RoundShift(127 * (Abs(x) * r), e);
    MagnitudeError(Abs(x), dPrime, n.dn, r, Pow2(e), q);
    ClampCloser(x, q, dPrime);
  }

  /** Within 1/2 + 127 * 2^-32 of 127 x / D', written without division. */
  predicate CloseTo(code: int, x: int, dPrime: int) {
    0x8000_0000_0000_0000 * Abs(code * dPrime - 127 * x) <= dPrime * (0x4000_0000_0000_0000 + 127 * 0x8000_0000)
  }

  /** The reciprocal and shift of a row maximum are those the element form is defined for. */
  lemma ChainConstants(dPrime: int)
    requires 1 <= dPrime <= LIMIT
    ensures var n := NormalizeScale(dPrime);
            Canonical(n.dn) && 0 <= RoundedReciprocal(n.dn) <= 0x1_0000_0000 && -1 <= n.s <= 30
  {
    NormalizeExact(dPrime);
    ReciprocalRange(NormalizeScale(dPrime).dn);
  }

  /** Every code the element form computes in the chain is within 1/2 + 127 * 2^-32 of 127 x / D'. */
  lemma CodeError(x: I64, dPrime: int)
    requires 1 <= dPrime <= LIMIT && Abs(x) <= dPrime
    ensures var n := NormalizeScale(dPrime);
            Canonical(n.dn) && 0 <= RoundedReciprocal(n.dn) <= 0x1_0000_0000 && -1 <= n.s <= 30
            && CloseTo(RequantTokenCodeWide(x, RoundedReciprocal(n.dn), n.s), x, dPrime)
  {
    ChainConstants(dPrime);
    var n := NormalizeScale(dPrime);
    PromisedError(x, dPrime);
    ElementCode(x, RoundedReciprocal(n.dn), n.s);
  }

  lemma RoundShiftError(ar: int, e: nat)
    ensures -Pow2(e) <= RoundShift(127 * ar, e) * (2 * Pow2(e)) - 254 * ar <= Pow2(e)
  {
    DivBounds(254 * ar + Pow2(e), Pow2(e + 1));
  }

  lemma ClampCloser(x: int, q: int, dPrime: int)
    requires Abs(x) <= dPrime
    ensures Abs(Sign(x, Min(127, q)) * dPrime - 127 * x) <= Abs(q * dPrime - 127 * Abs(x))
  {
    var m := Min(127, q);
    assert Sign(x, m) * dPrime == Sign(x, m * dPrime);
    if q > 127 { MulMono(127, q, dPrime); }
  }

  lemma MagnitudeError(a: int, dPrime: int, dn: int, r: int, p: int, q: int)
    requires 0 <= a <= dPrime && 0 < dn < 0x8000_0000 && p > 0 && dPrime * 0x4000_0000_0000_0000 == dn * p
    requires -dn <= 2 * (0x4000_0000_0000_0000 - dn * r) <= dn
    requires -p <= q * (2 * p) - 254 * (a * r) <= p
    ensures 0x8000_0000_0000_0000 * Abs(q * dPrime - 127 * a) <= dPrime * (0x4000_0000_0000_0000 + 127 * 0x8000_0000)
  {
    var t := q * (2 * p) - 254 * (a * r);
    var u := 0x4000_0000_0000_0000 - dn * r;
    ErrorIdentity(a, dPrime, dn, r, p, q);
    ScaledBound(t, p, dn);
    ScaledBound(2 * u, dn, a);
    assert a * (2 * u) == 2 * (a * u);
    ProductBound(a, dn, dPrime, 0x8000_0000);
    ErrorSum(dn * t, a * u, dn * p, a * dn, dPrime, q * dPrime - 127 * a);
  }

  /** The code's error as the rounding's remainder less the reciprocal's residual. */
  lemma ErrorIdentity(a: int, dPrime: int, dn: int, r: int, p: int, q: int)
    requires dPrime * 0x4000_0000_0000_0000 == dn * p
    ensures 0x8000_0000_0000_0000 * (q * dPrime - 127 * a)
         == dn * (q * (2 * p) - 254 * (a * r)) - 254 * (a * (0x4000_0000_0000_0000 - dn * r))
  {
    assert q * (dPrime * 0x4000_0000_0000_0000) == q * (dn * p);
    assert dn * (q * (2 * p)) == 2 * (q * (dn * p)) by { Rearrange(dn, q, p); }
    assert dn * (a * r) == a * (dn * r);
  }

  lemma Rearrange(dn: int, q: int, p: int)
    ensures dn * (q * (2 * p)) == 2 * (q * (dn * p))
  {}

  lemma ScaledBound(t: int, p: int, k: int)
    requires -p <= t <= p && k >= 0
    ensures -(k * p) <= k * t <= k * p
  {
    MulMono(t, p, k);
    MulMono(-p, t, k);
  }

  lemma ErrorSum(dt: int, au: int, dnp: int, adn: int, dPrime: int, w: int)
    requires 0x8000_0000_0000_0000 * w == dt - 254 * au && -dnp <= dt <= dnp && -adn <= 2 * au <= adn
    requires dnp == dPrime * 0x4000_0000_0000_0000 && 0 <= adn <= dPrime * 0x8000_0000
    ensures 0x8000_0000_0000_0000 * Abs(w) <= dPrime * (0x4000_0000_0000_0000 + 127 * 0x8000_0000)
  {}

  /** A nonzero element of the row's largest magnitude gets exactly 127 or -127. */
  lemma MaximumGetsFullScale(x: I64, dPrime: int)
    requires 1 <= dPrime <= LIMIT && Abs(x) == dPrime
    ensures var n := NormalizeScale(dPrime);
            Canonical(n.dn) && 0 <= RoundedReciprocal(n.dn) <= 0x1_0000_0000 && -1 <= n.s <= 30
            && RequantTokenCodeWide(x, RoundedReciprocal(n.dn), n.s) == (if x < 0 then -127 else 127)
  {
    CodeError(x, dPrime);
    var n := NormalizeScale(dPrime);
    var r := RoundedReciprocal(n.dn);
    ElementCode(x, r, n.s);
    FullScale(x, dPrime, RequantTokenCodeWide(x, r, n.s));
  }

  lemma FullScale(x: int, dPrime: int, c: int)
    requires dPrime >= 1 && Abs(x) == dPrime && CloseTo(c, x, dPrime) && Sign(x, c) <= 127
    ensures c == if x < 0 then -127 else 127
  {
    if x < 0 {
      assert (-c) * dPrime == -(c * dPrime);
      NothingBelowFullScale(-c, dPrime);
    } else {
      NothingBelowFullScale(c, dPrime);
    }
  }

  lemma NothingBelowFullScale(m: int, dPrime: int)
    requires dPrime >= 1 && m <= 127
    requires 0x8000_0000_0000_0000 * Abs(m * dPrime - 127 * dPrime)
        <= dPrime * (0x4000_0000_0000_0000 + 127 * 0x8000_0000)
    ensures m == 127
  {
    if m < 127 { MulMono(m, 126, dPrime); assert false; }
  }

  // ----- The lane forms

  /** |x| * r from the 32-bit halves of r, in one 64-bit lane. */
  function LaneProduct(ax: U64, r: U64): U64 {
    AddEpi64(MulEpu32(ax, r % 0x1_0000_0000), ShiftUp32(MulEpu32(ax, r / 0x1_0000_0000)))
  }

  /** The rounded magnitude from the two dwords of the product. */
  function LaneRound(p: U64, e: nat): int
    requires 32 <= e <= 63
  {
    LaneSum127(p, WrapU64(Pow2(e - 1))) / Pow2(e - 32)
  }

  /** 127 times the high dword, plus the carry out of 127 times the low dword and the rounding constant. */
  function LaneSum127(p: U64, half: U64): U64 {
    var h, l := p / 0x1_0000_0000, p % 0x1_0000_0000;
    var carry := AddEpi64(MulEpu32(l, 127), half) / 0x1_0000_0000;
    AddEpi64(MulEpu32(h, 127), carry)
  }

  /** One 64-bit lane of the AVX2 body: 32-bit absolute value, clamp and sign. */
  function RequantLaneAvx2(x: I64, r: U64, e: nat): int
    requires 32 <= e <= 63
  {
    var xv := ToLane(x);
    var mag := LaneRound(LaneProduct(AbsEpi32(xv % 0x1_0000_0000), r), e);
    var low := if mag / 0x1_0000_0000 != 0 then OrBit(mag % 0x1_0000_0000, 7) else mag % 0x1_0000_0000;
    Sign(if xv / 0x1_0000_0000 == 0 then 1 else -1, Min(low, 127))
  }

  /** One lane of the AVX-512 body: 64-bit absolute value, minimum and two's-complement sign. */
  function RequantLaneAvx512(x: I64, r: U64, e: nat): int
    requires 32 <= e <= 63
  {
    var xv := ToLane(x);
    var neg := SignEpi64(xv);
    var mag := WrapU64(Min(LaneRound(LaneProduct(AbsEpi64(xv), r), e), 127));
    WrapI64(SubEpi64(if neg == 0 then mag else Complement(mag), neg))
  }

  /** The split product wraps nowhere: its exact value is the lane. */
  lemma SplitProduct(a: U64, r: U64)
    requires a <= LIMIT && r <= 0x1_0000_0000
    ensures LaneProduct(a, r) == a * r <= 0x8000_0000_0000_0000
  {
    ProductBound(a, r, LIMIT, 0x1_0000_0000);
    SplitHalves(a, r % 0x1_0000_0000, r / 0x1_0000_0000, a * r);
  }

  lemma SplitHalves(a: U64, lo: int, hi: int, p: int)
    requires a <= LIMIT && 0 <= lo < 0x1_0000_0000 && 0 <= hi < 0x1_0000_0000
        && p == a * (hi * 0x1_0000_0000 + lo) <= 0x8000_0000_0000_0000
    ensures AddEpi64(MulEpu32(a, lo), ShiftUp32(MulEpu32(a, hi))) == p
  {
    SplitFactor(a, hi, lo);
    LaneHalves(a, lo, hi);
    LaneSum(a * lo, a * hi, p);
  }

  lemma LaneHalves(a: U64, lo: int, hi: int)
    requires a < 0x1_0000_0000 && 0 <= lo < 0x1_0000_0000 && 0 <= hi < 0x1_0000_0000
    ensures MulEpu32(a, lo) == a * lo && MulEpu32(a, hi) == a * hi
  {}

  lemma SplitFactor(a: int, hi: int, lo: int)
    requires a >= 0 && hi >= 0 && lo >= 0
    ensures a * (hi * 0x1_0000_0000 + lo) == (a * hi) * 0x1_0000_0000 + a * lo && a * hi >= 0 && a * lo >= 0
  {}

  lemma LaneSum(lo: int, hi: int, p: int)
    requires 0 <= lo && 0 <= hi && hi * 0x1_0000_0000 + lo == p <= 0x8000_0000_0000_0000
    ensures AddEpi64(WrapU64(lo), ShiftUp32(hi)) == p
  {
    Wrap(lo); Wrap(hi * 0x1_0000_0000); Wrap(p);
  }

  /** The two-stage rounding equals the wide one. */
  lemma LaneRounds(p: U64, e: nat)
    requires p <= 0x8000_0000_0000_0000 && 32 <= e <= 63
    ensures LaneRound(p, e) == RoundShift(127 * p, e)
  {
    var half, rest := Pow2(e - 1), Pow2(e - 32);
    HalfAndRest(e);
    Wrap(half);
    LaneSumWords(p, half);
    TwoStageShift(127 * p, half, rest);
    RoundShiftIs(127 * p, e, half);
  }

  lemma HalfAndRest(e: nat)
    requires 32 <= e <= 63
    ensures Pow2(e - 1) <= 0x4000_0000_0000_0000 && 0x1_0000_0000 * Pow2(e - 32) == 2 * Pow2(e - 1)
  {
    Pow2Mono(e - 1, 62);
    Pow2Values();
    Pow2Add(32, e - 32);
  }

  lemma RoundShiftIs(n: int, e: nat, half: int)
    requires e > 0 && half == Pow2(e - 1)
    ensures RoundShift(n, e) == (2 * n + 2 * half) / (2 * (2 * half))
  {
    assert Pow2(e + 1) == 2 * Pow2(e) && Pow2(e) == 2 * half;
  }

  /** Shifting by a dword and then the rest is the rounding shift, when the rest times a dword is 2^e. */
  lemma TwoStageShift(n: int, half: int, rest: int)
    requires rest > 0 && 0x1_0000_0000 * rest == 2 * half
    ensures (n + half) / 0x1_0000_0000 / rest == (2 * n + 2 * half) / (2 * (2 * half))
  {
    DivDiv(n + half, 0x1_0000_0000, rest);
    DivScale(n + half, 2 * half, 2);
  }

  /** Neither sum of the rounding reaches 2^64, so the lane holds the exact value. */
  lemma LaneSumWords(p: U64, half: U64)
    requires p <= 0x8000_0000_0000_0000 && half <= 0x4000_0000_0000_0000
    ensures LaneSum127(p, half) == (127 * p + half) / 0x1_0000_0000
    ensures 127 * (p % 0x1_0000_0000) + half < 0x1_0000_0000_0000_0000
    ensures 127 * (p / 0x1_0000_0000) + (127 * (p % 0x1_0000_0000) + half) / 0x1_0000_0000 < 0x1_0000_0000_0000_0000
  {
    var h, l := p / 0x1_0000_0000, p % 0x1_0000_0000;
    var x := 127 * l + half;
    Times127(l);
    Times127(h);
    LaneAdds(127 * l, half, x);
    LaneAdds(127 * h, x / 0x1_0000_0000, 127 * h + x / 0x1_0000_0000);
    DivAddMultiple(x, 127 * h, 0x1_0000_0000);
  }

  lemma Times127(d: int)
    requires 0 <= d < 0x1_0000_0000
    ensures MulEpu32(d, 127) == 127 * d < 0x1_0000_0000_0000_0000
  {}

  lemma LaneAdds(a: int, b: int, sum: int)
    requires 0 <= a && 0 <= b && a + b == sum < 0x1_0000_0000_0000_0000
    ensures AddEpi64(a, b) == sum
  {}

  lemma MagnitudeOfLane(x: I64)
    requires Abs(x) <= LIMIT
    ensures AbsEpi32(ToLane(x) % 0x1_0000_0000) == Abs(x) == AbsEpi64(ToLane(x))
    ensures ToLane(x) / 0x1_0000_0000 == 0 <==> x >= 0
    ensures SignEpi64(ToLane(x)) == if x < 0 then ALL_ONES else 0
  {
    LaneOf(x);
  }

  /** Both lane forms give the element form's code on the chain's domain. */
  lemma LaneCodes(x: I64, r: U64, s: int)
    requires Abs(x) <= LIMIT && r <= 0x1_0000_0000 && -1 <= s <= 30
    ensures RequantLaneAvx2(x, r, 62 - s) == RequantTokenCodeWide(x, r, s)
    ensures RequantLaneAvx512(x, r, 62 - s) == RequantTokenCodeWide(x, r, s)
  {
    ElementCode(x, r, s);
    MagnitudeOfLane(x);
    SplitProduct(Abs(x), r);
    LaneRounds(Abs(x) * r, 62 - s);
    ClampLanes(x, LaneRound(Abs(x) * r, 62 - s));
  }

  /** The two clamps and sign restores, on a magnitude of any size. */
  lemma ClampLanes(x: int, mag: int)
    requires mag >= 0
    ensures Min(if mag / 0x1_0000_0000 != 0 then OrBit(mag % 0x1_0000_0000, 7) else mag % 0x1_0000_0000, 127)
        == Min(mag, 127)
    ensures var m := WrapU64(Min(mag, 127));
            WrapI64(SubEpi64(if x >= 0 then m else Complement(m), if x < 0 then ALL_ONES else 0))
                == Sign(x, Min(mag, 127))
  {
    assert Pow2(7) == 128;
    var m := Min(mag, 127);
    Wrap(m);
    if x < 0 { Wrap(Complement(m) - ALL_ONES); }
  }

  // ----- The row and the chain

  datatype Kernel = Shipped | Avx2 | Avx512

  /** Elements per vector step; none on the tiers that run the element loop. */
  function Step(kernel: Kernel): nat {
    match kernel case Shipped => 0 case Avx2 => 4 case Avx512 => 8
  }

  /** One element in the kernel's own lane form. */
  method RequantLane(kernel: Kernel, x: I64, r: U64, s: int) returns (code: int)
    requires kernel != Shipped && Abs(x) <= LIMIT && r <= 0x1_0000_0000 && -1 <= s <= 30
    ensures code == RequantTokenCodeWide(x, r, s)
  {
    LaneCodes(x, r, s);
    code := if kernel == Avx2 then RequantLaneAvx2(x, r, 62 - s) else RequantLaneAvx512(x, r, 62 - s);
  }

  /** The row leaf: whole vector steps in lanes, the tail element by element. */
  method RequantRowWide(kernel: Kernel, x: seq<I64>, r: U64, s: int, out: array<int>)
    requires out.Length == |x| && r <= 0x1_0000_0000 && -1 <= s <= 30
    requires forall v :: v in x ==> Abs(v) <= LIMIT
    modifies out
    ensures forall i :: 0 <= i < |x| ==> out[i] == RequantTokenCodeWide(x[i], r, s)
  {
    var i := 0;
    if kernel != Shipped {
      while i + Step(kernel) <= |x|
        invariant 0 <= i <= |x|
        invariant forall j :: 0 <= j < i ==> out[j] == RequantTokenCodeWide(x[j], r, s)
      {
        for lane := 0 to Step(kernel)
          invariant forall j :: 0 <= j < i + lane ==> out[j] == RequantTokenCodeWide(x[j], r, s)
        {
          out[i + lane] := RequantLane(kernel, x[i + lane], r, s);
        }
        i := i + Step(kernel);
      }
    }
    while i < |x|
      invariant 0 <= i <= |x|
      invariant forall j :: 0 <= j < i ==> out[j] == RequantTokenCodeWide(x[j], r, s)
    {
      out[i] := RequantTokenCodeWide(x[i], r, s);
      i := i + 1;
    }
  }

  /** The funnel's steps 1-4 and 6: a row past the domain is refused and nothing is written. In every other row each
      code is within 1/2 + 127 * 2^-32 of 127 times its element over the row's largest magnitude, an element of that
      magnitude gets exactly 127 or -127, and a zero gets 0. */
  method RequantChain(kernel: Kernel, x: seq<I64>, out: array<int>) returns (accepted: bool)
    requires out.Length == |x|
    modifies out
    ensures accepted <==> forall v :: v in x ==> -0x8000_0000 <= v <= 0x8000_0000
    ensures !accepted ==> out[..] == old(out[..])
    ensures accepted ==> forall i :: 0 <= i < |x| ==> -127 <= out[i] <= 127
    ensures accepted && MaxAbs(x) > 0 ==> forall i :: 0 <= i < |x| ==>
              0x8000_0000_0000_0000 * Abs(out[i] * MaxAbs(x) - 127 * (x[i] as int))
                  <= MaxAbs(x) * (0x4000_0000_0000_0000 + 127 * 0x8000_0000)
    ensures accepted && MaxAbs(x) > 0 ==> forall i :: 0 <= i < |x| ==>
              (x[i] == MaxAbs(x) ==> out[i] == 127) && (x[i] == -MaxAbs(x) ==> out[i] == -127)
    ensures accepted ==> forall i :: 0 <= i < |x| ==> x[i] == 0 ==> out[i] == 0
  {
    RowAccepted(x);
    accepted := ChainCodes(kernel, x, out);
    if accepted {
      forall i | 0 <= i < |x| ensures Promised(x, i, out[i]) {}
    }
  }

  /** The steps themselves. */
  method ChainCodes(kernel: Kernel, x: seq<I64>, out: array<int>) returns (accepted: bool)
    requires out.Length == |x|
    modifies out
    ensures accepted <==> MaxAbs(x) <= LIMIT
    ensures !accepted ==> out[..] == old(out[..])
    ensures accepted ==> forall i :: 0 <= i < |x| ==> Promised(x, i, out[i])
  {
    var dPrime := MaxAbsReduceWide(x);
    RowAccepted(x);
    if dPrime > LIMIT { return false; }
    NormalizeExact(dPrime);
    var n := NormalizeScale(dPrime);
    var r := DynamicScaleReciprocal(n.dn);
    ReciprocalRange(n.dn);
    RequantRowWide(kernel, x, r, n.s, out);
    forall i | 0 <= i < |x| ensures Promised(x, i, out[i]) { CodePromised(x, i, r, n); }
    return true;
  }

  lemma RowAccepted(x: seq<I64>)
    ensures MaxAbsPrime(x) <= LIMIT <==> MaxAbs(x) <= LIMIT
    ensures MaxAbs(x) <= LIMIT <==> forall v :: v in x ==> -0x8000_0000 <= v <= 0x8000_0000
    ensures MaxAbs(x) <= LIMIT ==> forall v :: v in x ==> Abs(v) <= LIMIT
  {
    MaxAbsIsMaximum(x);
    if MaxAbs(x) > LIMIT { var v :| v in x && Abs(v) == MaxAbs(x); }
  }

  /** What the chain promises of one code. */
  ghost predicate Promised(x: seq<I64>, i: nat, code: int)
    requires i < |x|
  {
    && -127 <= code <= 127 && (x[i] == 0 ==> code == 0)
    && (MaxAbs(x) > 0 ==>
          0x8000_0000_0000_0000 * Abs(code * MaxAbs(x) - 127 * (x[i] as int))
              <= MaxAbs(x) * (0x4000_0000_0000_0000 + 127 * 0x8000_0000)
          && (x[i] == MaxAbs(x) ==> code == 127) && (x[i] == -MaxAbs(x) ==> code == -127))
  }

  lemma CodePromised(x: seq<I64>, i: nat, r: U64, n: Normalized)
    requires i < |x| && MaxAbs(x) <= LIMIT && MaxAbsPrime(x) <= LIMIT && n == NormalizeScale(MaxAbsPrime(x))
    requires Canonical(n.dn) && r == RoundedReciprocal(n.dn) <= 0x1_0000_0000 && -1 <= n.s <= 30
    ensures Promised(x, i, RequantTokenCodeWide(x[i], r, n.s))
  {
    var dPrime, code := MaxAbsPrime(x), RequantTokenCodeWide(x[i], r, n.s);
    MaxAbsIsMaximum(x);
    assert x[i] in x;
    CodeError(x[i], dPrime);
    CodeRange(x[i], r, n.s);
    if x[i] == 0 { ZeroCode(code, dPrime); }
    if Abs(x[i]) == dPrime { MaximumGetsFullScale(x[i], dPrime); }
  }

  /** The error bound leaves a zero element only the code 0. */
  lemma ZeroCode(code: int, dPrime: int)
    requires dPrime >= 1 && CloseTo(code, 0, dPrime)
    ensures code == 0
  {
    var c: int := Abs(code);
    assert Abs(code * dPrime) == c * dPrime;
    if c >= 1 {
      MulMono(1, c, dPrime);
      assert false;
    }
  }

  lemma CodeRange(x: I64, r: U64, s: int)
    requires Abs(x) <= LIMIT && r <= 0x1_0000_0000 && -1 <= s <= 30
    ensures -127 <= RequantTokenCodeWide(x, r, s) <= 127
  {
    ElementCode(x, r, s);
    ProductBound(Abs(x), r, LIMIT, 0x1_0000_0000);
    Pow2Mono(32, 62 - s);
    Pow2Values();
    MagnitudeFits(Abs(x) * r, 62 - s);
  }
}
