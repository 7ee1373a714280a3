/** The softmax row of src/intmath.cpp: the shipped body (lines 1249-1378), the row guard (lines 1019-1057) and the
AVX2 and AVX-512 bodies (lines 1059-1246). Every body writes the same integers on every row. */
module SoftmaxRow {
  import opened Arith
  import opened Wide128
  import opened Lanes
  import opened SoftmaxExp
  import opened Sums

  const MAX_WIDTH: int := 32767

  // ----- The row's definition

  function RowMax(s: seq<int>): int
    requires s != []
  {
    if |s| == 1 then s[0] else Max(RowMax(s[..|s| - 1]), s[|s| - 1])
  }

  lemma {:induction false} RowMaxIsMaximum(s: seq<int>)
    requires s != []
    ensures RowMax(s) in s && forall k :: 0 <= k < |s| ==> s[k] <= RowMax(s)
  {
    if |s| > 1 { RowMaxIsMaximum(s[..|s| - 1]); }
  }

  /** One element's numerator and whether it was well formed. */
  datatype Element = Element(value: int, ok: bool)

  /** The most a numerator may be, when the constants define such a bound. */
  function UsablePeak(qB: int, qC: int): int {
    var m := qB * qB + qC;
    if 1 <= m <= MAX_PEAK then m else 0
  }

  function SlowElement(q: I64, qLn2: I64, qB: I64, qC: I64): (r: Element)
    ensures 0 <= r.value <= UsablePeak(qB, qC)
  {
    var r := ConstructionOf(q, qLn2, qB, qC);
    if !(r.domain == Domain.Ok || r.domain == NotRepresentable) then Element(0, false)
    else
      EvaluateConstruction(q, qLn2, qB, qC);
      var value := IExpEvaluate(r.c);
      var m := UsablePeak(qB, qC);
      if m == 0 || value < 0 || value > m then Element(0, false) else Element(value, true)
  }

  /** Every difference from the maximum is an int64. */
  predicate Shiftable(s: seq<I64>) {
    s != [] ==> forall k :: 0 <= k < |s| ==> s[k] - RowMax(s) >= -0x8000_0000_0000_0000
  }

  function Distance(s: seq<I64>, k: nat): I64
    requires k < |s| && Shiftable(s)
  {
    RowMaxIsMaximum(s);
    s[k] - RowMax(s)
  }

  function Numerators(s: seq<I64>, qLn2: I64, qB: I64, qC: I64): (r: seq<int>)
    requires Shiftable(s)
    ensures |r| == |s| && forall k :: 0 <= k < |r| ==> 0 <= r[k] <= UsablePeak(qB, qC)
  {
    seq(|s|, k requires 0 <= k < |s| => SlowElement(Distance(s, k), qLn2, qB, qC).value)
  }

  predicate WellFormedRow(s: seq<I64>, qLn2: I64, qB: I64, qC: I64)
    requires Shiftable(s)
  {
    forall k :: 0 <= k < |s| ==> SlowElement(Distance(s, k), qLn2, qB, qC).ok
  }

  function Denominator(e: seq<int>): int { Max(Sum(e), 1) }

  function Probabilities(e: seq<int>): (p: seq<int>)
    ensures |p| == |e|
  {
    seq(|e|, k requires 0 <= k < |e| => e[k] * ONE_Q15 / Denominator(e))
  }

  // ----- What the outputs are worth

  /** Floors of shares of a total never sum past the scaled total. */
  lemma {:induction false} FlooredShares(e: seq<int>, d: int)
    requires d >= 1 && forall k :: 0 <= k < |e| ==> e[k] >= 0
    ensures Sum(Shares(e, d)) * d <= Sum(e) * ONE_Q15
  {
    if e != [] {
      var n := |e| - 1;
      FlooredShares(e[..n], d);
      assert Shares(e, d)[..n] == Shares(e[..n], d);
      DivBounds(e[n] * ONE_Q15, d);
      assert (Sum(Shares(e[..n], d)) + e[n] * ONE_Q15 / d) * d == Sum(Shares(e[..n], d)) * d + e[n] * ONE_Q15 / d * d;
    }
  }

  function Shares(e: seq<int>, d: int): (p: seq<int>)
    requires d >= 1
    ensures |p| == |e|
  {
    seq(|e|, k requires 0 <= k < |e| => e[k] * ONE_Q15 / d)
  }

  /** Every output is in [0, 2^15] and a row's outputs sum to at most 2^15. */
  lemma OutputsAreBounded(e: seq<int>)
    requires forall k :: 0 <= k < |e| ==> e[k] >= 0
    ensures forall k :: 0 <= k < |e| ==> 0 <= Probabilities(e)[k] <= ONE_Q15
    ensures Sum(Probabilities(e)) <= ONE_Q15
  {
    var d := Denominator(e);
    SumAtLeast(e);
    forall k | 0 <= k < |e| ensures 0 <= Probabilities(e)[k] <= ONE_Q15 { ShareBounds(e[k], d); }
    FlooredShares(e, d);
    assert Shares(e, d) == Probabilities(e);
    var total := Sum(Probabilities(e));
    if total > ONE_Q15 { MulMono(ONE_Q15 + 1, total, d); assert false; }
  }

  lemma {:induction false} SumAtLeast(e: seq<int>)
    requires forall k :: 0 <= k < |e| ==> e[k] >= 0
    ensures Sum(e) >= 0 && forall k :: 0 <= k < |e| ==> e[k] <= Sum(e)
  {
    if e != [] { SumAtLeast(e[..|e| - 1]); }
  }

  lemma ShareBounds(e: int, d: int)
    requires 0 <= e <= d && d >= 1
    ensures 0 <= e * ONE_Q15 / d <= ONE_Q15
  {
    DivMono(0, e * ONE_Q15, d);
    DivMono(e * ONE_Q15, d * ONE_Q15, d);
    DivUnique(0, d, 0);
    DivUnique(d * ONE_Q15, d, ONE_Q15);
  }

  // ----- The shipped body

  /** The gate every caller applies first: the row's numerators sum within int64. */
  predicate SumFits(s: seq<I64>, qB: int, qC: int) { |s| * UsablePeak(qB, qC) < 0x8000_0000_0000_0000 }

  method ShiftByMax(logits: array<I64>) returns (shifted: seq<I64>)
    requires logits.Length > 0 && Shiftable(logits[..])
    ensures |shifted| == logits.Length && forall k :: 0 <= k < |shifted| ==> shifted[k] == Distance(logits[..], k)
  {
    var peak := logits[0];
    var i := 1;
    while i < logits.Length
      invariant 1 <= i <= logits.Length && peak == RowMax(logits[..i])
    {
      assert logits[..i + 1][..i] == logits[..i];
      if logits[i] > peak { peak := logits[i]; }
      i := i + 1;
    }
    assert logits[..i] == logits[..];
    shifted := [];
    i := 0;
    while i < logits.Length
      invariant 0 <= i == |shifted| <= logits.Length
      invariant forall k :: 0 <= k < i ==> shifted[k] == Distance(logits[..], k)
    {
      RowMaxIsMaximum(logits[..]);
      var difference: I64 := logits[i] - peak;
      shifted := shifted + [difference];
      i := i + 1;
    }
  }

  method SoftmaxRowShipped(scores: array<I64>, qLn2: I64, qB: I64, qC: I64, out: array<I64>)
                           returns (allWellFormed: bool)
    requires scores.Length == out.Length && scores.Length > 0 && Shiftable(scores[..]) && SumFits(scores[..], qB, qC)
    modifies out
    ensures out[..] == Probabilities(Numerators(old(scores[..]), qLn2, qB, qC))
    ensures allWellFormed <==> WellFormedRow(old(scores[..]), qLn2, qB, qC)
  {
    var m := PeakOf(qB, qC);
    var shifted := ShiftByMax(scores);
    var exps, total;
    exps, total, allWellFormed := NumeratorPass(scores[..], shifted, qLn2, qB, qC, m);
    var denom: I64 := if total > 1 then total else 1;
    Divide(exps, denom, out);
  }

  predicate WellFormedBefore(s: seq<I64>, qLn2: I64, qB: I64, qC: I64, k: nat)
    requires Shiftable(s) && k <= |s|
  {
    forall j :: 0 <= j < k ==> SlowElement(Distance(s, j), qLn2, qB, qC).ok
  }

  lemma WellFormedOneMore(s: seq<I64>, qLn2: I64, qB: I64, qC: I64, k: nat)
    requires Shiftable(s) && k < |s|
    ensures WellFormedBefore(s, qLn2, qB, qC, k + 1)
            <==> WellFormedBefore(s, qLn2, qB, qC, k) && SlowElement(Distance(s, k), qLn2, qB, qC).ok
  {}

  method NumeratorPass(ghost s: seq<I64>, shifted: seq<I64>, qLn2: I64, qB: I64, qC: I64, m: I64)
    returns (exps: seq<I64>, total: I64, allWellFormed: bool)
    requires Shiftable(s) && SumFits(s, qB, qC) && m == UsablePeak(qB, qC)
    requires |shifted| == |s| && forall k :: 0 <= k < |s| ==> shifted[k] == Distance(s, k)
    ensures exps == Numerators(s, qLn2, qB, qC) && total == Sum(exps)
    ensures allWellFormed <==> WellFormedRow(s, qLn2, qB, qC)
  {
    ghost var all := Numerators(s, qLn2, qB, qC);
    SumBounds(all, UsablePeak(qB, qC));
    exps, total, allWellFormed := [], 0, true;
    var k := 0;
    while k < |shifted|
      invariant 0 <= k <= |shifted| && exps == all[..k] && total == Sum(all[..k])
      invariant allWellFormed <==> WellFormedBefore(s, qLn2, qB, qC, k)
    {
      var value, ok := NumeratorAt(s, k, shifted[k], qLn2, qB, qC, m, all, total);
      allWellFormed := allWellFormed && ok;
      exps, total := exps + [value], total + value;
      k := k + 1;
    }
    assert all[..k] == all;
  }

  /** One element of the pass, and the room its numerator leaves in the total. */
  method NumeratorAt(ghost s: seq<I64>, ghost k: nat, q: I64, qLn2: I64, qB: I64, qC: I64, m: I64, ghost all: seq<int>,
                     ghost total: int)
    returns (value: I64, ok: bool)
    requires Shiftable(s) && k < |s| && q == Distance(s, k) && m == UsablePeak(qB, qC)
    requires all == Numerators(s, qLn2, qB, qC) && total == Sum(all[..k]) && Sum(all) < 0x8000_0000_0000_0000
    ensures all[..k] + [value] == all[..k + 1] && total + value == Sum(all[..k + 1]) <= Sum(all)
    ensures 0 <= total + value < 0x8000_0000_0000_0000
    ensures WellFormedBefore(s, qLn2, qB, qC, k + 1) <==> WellFormedBefore(s, qLn2, qB, qC, k) && ok
  {
    SumStep(all, k);
    WellFormedOneMore(s, qLn2, qB, qC, k);
    value, ok := EvaluateElement(q, qLn2, qB, qC, m);
  }

  lemma SumStep(s: seq<int>, k: nat)
    requires k < |s| && forall j :: 0 <= j < |s| ==> s[j] >= 0
    ensures 0 <= Sum(s[..k]) && Sum(s[..k]) + s[k] == Sum(s[..k + 1]) <= Sum(s)
  {
    assert s[..k + 1][..k] == s[..k];
    SumPrefix(s, k);
    SumPrefix(s, k + 1);
  }

  /** A refused construction, or a value outside [0, m], counts for 0 and marks the row. */
  method EvaluateElement(q: I64, qLn2: I64, qB: I64, qC: I64, m: I64) returns (value: I64, ok: bool)
    requires m == UsablePeak(qB, qC)
    ensures Element(value, ok) == SlowElement(q, qLn2, qB, qC)
  {
    EvaluateAny(q, qLn2, qB, qC);
    var d, construction := IExpConstruct(q, qLn2, qB, qC);
    if d == BadQ || d == BadQLn2 || d == BadQB { return 0, false; }
    value := IExpEvaluate(construction);
    if m == 0 || value < 0 || value > m { return 0, false; }
    ok := true;
  }

  /** The division pass; numerators are at most 2^47, so the shifted ones stay within int64. */
  method Divide(exps: seq<I64>, denom: I64, out: array<I64>)
    requires |exps| == out.Length && denom == Denominator(exps)
        && forall k :: 0 <= k < |exps| ==> 0 <= exps[k] <= MAX_PEAK
    modifies out
    ensures out[..] == Probabilities(exps)
  {
    var k := 0;
    while k < out.Length
      invariant 0 <= k <= out.Length && forall j :: 0 <= j < k ==> out[j] == Probabilities(exps)[j]
    {
      var shifted: I64 := exps[k] * ONE_Q15;
      ShareNonNegative(exps[k], denom);
      out[k] := shifted / denom;
      k := k + 1;
    }
  }

  lemma ShareNonNegative(e: int, d: int)
    requires 0 <= e <= MAX_PEAK && d >= 1
    ensures 0 <= e * ONE_Q15 / d < 0x8000_0000_0000_0000
  {
    ShiftShrinks(e * ONE_Q15, d);
  }

  lemma EvaluateAny(q: I64, qLn2: I64, qB: I64, qC: I64)
    ensures ConstructionOf(q, qLn2, qB, qC).c.z < 64
  {
    if q <= 0 && 1 <= qLn2 <= MAX_Q_LN2 { ClipQuotient(-(q as int), qLn2); }
  }

  lemma SumPrefix(s: seq<int>, k: nat)
    requires k <= |s| && forall j :: 0 <= j < |s| ==> s[j] >= 0
    ensures 0 <= Sum(s[..k]) <= Sum(s)
  {
    assert s == s[..k] + s[k..];
    SumAppend(s[..k], s[k..]);
    SumAtLeast(s[..k]);
    SumAtLeast(s[k..]);
  }

  method PeakOf(qB: I64, qC: I64) returns (m: I64)
    ensures m == UsablePeak(qB, qC)
  {
    var m128 := Unshifted(qB, qC);
    var top := Widened(0x8000_0000_0000_0000 - 1);
    var one := Widened(1);
    var ceiling := Widened(MAX_PEAK);
    SGeExact(top, m128);
    SGeExact(m128, one);
    SGeExact(ceiling, m128);
    var usable := SGe(top, m128) && SGe(m128, one) && SGe(ceiling, m128);
    SShrExact(m128, 0);
    assert Pow2(0) == 1;
    m := if usable then SShrToI64(m128, 0) else 0;
  }

  // ----- The guard

  predicate Admitted(s: seq<int>, qLn2: int, qB: int, qC: int) {
    1 <= |s| <= MAX_WIDTH && ConstantsAdmitted(qLn2, qB, qC)
        && forall k :: 0 <= k < |s| ==> -0x2000_0000_0000_0000 <= s[k] <= 0x2000_0000_0000_0000
  }

  lemma SmallRoot(qB: int, qC: int)
    requires qC >= 0 && UsablePeak(qB, qC) != 0
    ensures -0x100_0000 < qB < 0x100_0000
  {
    ProductAtLeast(Abs(qB), Min(Abs(qB), 0x100_0000));
    assert qB * qB == Abs(qB) * Abs(qB);
  }

  method SoftmaxFastGuard(scores: array<I64>, qLn2: I64, qB: I64, qC: I64) returns (admitted: bool, peak: I64)
    requires scores.Length > 0
    ensures admitted <==> Admitted(scores[..], qLn2, qB, qC)
    ensures admitted ==> peak == RowMax(scores[..])
  {
    peak := 0;
    if scores.Length > MAX_WIDTH || qLn2 < 1 || qC < 0 { return false, peak; }
    var m := PeakOf(qB, qC);
    if m == 0 { return false, peak; }
    SmallRoot(qB, qC);
    var ratio: I64 := 2 * qB + 1;
    if qLn2 > ratio { return false, peak; }
    peak := scores[0];
    var k := 0;
    while k < scores.Length
      invariant 0 <= k <= scores.Length && peak == RowMax(scores[..Max(k, 1)])
      invariant forall j :: 0 <= j < k ==> -0x2000_0000_0000_0000 <= scores[j] <= 0x2000_0000_0000_0000
    {
      var v := scores[k];
      if v > 0x2000_0000_0000_0000 || v < -0x2000_0000_0000_0000 { return false, peak; }
      if k > 0 { assert scores[..k + 1][..k] == scores[..k]; }
      if v > peak { peak := v; }
      k := k + 1;
    }
    assert scores[..k] == scores[..];
    admitted := true;
  }

  function Exponentials(s: seq<int>, qLn2: int, qB: int, qC: int): (r: seq<int>)
    requires s != [] && qLn2 >= 1
    ensures |r| == |s|
  {
    RowMaxIsMaximum(s);
    seq(|s|, k requires 0 <= k < |s| => ExpOf(RowMax(s) - s[k], qLn2, qB, qC))
  }

  /** On an admitted row the shipped body computes the exact exponentials, with every element well formed and every
      caller's condition met. */
  lemma AdmittedRow(s: seq<I64>, qLn2: I64, qB: I64, qC: I64)
    requires Admitted(s, qLn2, qB, qC)
    ensures Shiftable(s) && SumFits(s, qB, qC)
    ensures Numerators(s, qLn2, qB, qC) == Exponentials(s, qLn2, qB, qC) && WellFormedRow(s, qLn2, qB, qC)
    ensures forall k :: 0 <= k < |s| ==> 0 <= Exponentials(s, qLn2, qB, qC)[k] <= MAX_PEAK
    ensures 1 <= Sum(Exponentials(s, qLn2, qB, qC)) <= MAX_WIDTH * MAX_PEAK
  {
    RowMaxIsMaximum(s);
    ProductBound(|s|, UsablePeak(qB, qC), MAX_WIDTH, MAX_PEAK);
    var e := Exponentials(s, qLn2, qB, qC);
    forall k | 0 <= k < |s|
      ensures SlowElement(Distance(s, k), qLn2, qB, qC) == Element(e[k], true) && 0 <= e[k] <= UsablePeak(qB, qC)
    {
      AdmittedElement(RowMax(s) - s[k], qLn2, qB, qC);
    }
    SumBounds(e, UsablePeak(qB, qC));
    AdmittedPeak(s, qLn2, qB, qC);
  }

  lemma AdmittedPeak(s: seq<I64>, qLn2: I64, qB: I64, qC: I64)
    requires Admitted(s, qLn2, qB, qC)
    ensures exists k :: 0 <= k < |s| && Exponentials(s, qLn2, qB, qC)[k] >= 1
  {
    RowMaxIsMaximum(s);
    var top :| 0 <= top < |s| && s[top] == RowMax(s);
    AdmittedBounds(0, qLn2, qB, qC);
    assert Exponentials(s, qLn2, qB, qC)[top] >= 1;
  }

  lemma AdmittedElement(a: int, qLn2: I64, qB: I64, qC: I64)
    requires ConstantsAdmitted(qLn2, qB, qC) && 0 <= a <= 0x4000_0000_0000_0000
    ensures SlowElement(-a, qLn2, qB, qC) == Element(ExpOf(a, qLn2, qB, qC), true)
    ensures 0 <= ExpOf(a, qLn2, qB, qC) <= qB * qB + qC == UsablePeak(qB, qC)
  {
    AdmittedBounds(a, qLn2, qB, qC);
    EvaluateConstruction(-a, qLn2, qB, qC);
  }

  // ----- The rounded-reciprocal quotient, one lane

  /** The row's reciprocal: 2^62 over the denominator, rounded. */
  function ProbReciprocal(d: int): int
    requires d >= 1
  {
    (0x4000_0000_0000_0000 + d / 2) / d
  }

  /** The low 64 bits of a product from 32-bit parts; the highest partial product falls outside the lane. */
  function LowProduct(e: U64, rLo: U64, rHi: U64): U64 {
    var cross := AddEpi64(WrapU64(MulEpu32(e, rHi)), WrapU64(MulEpu32(SrlWord(e), rLo)));
    AddEpi64(WrapU64(MulEpu32(e, rLo)), ShiftUp32(cross))
  }

  function SrlWord(e: U64): U64 { e / 0x1_0000_0000 }

  function NarrowProduct(p: U64, dLo: U64, dHi: U64): U64 {
    AddEpi64(WrapU64(MulEpu32(p, dLo)), ShiftUp32(WrapU64(MulEpu32(p, dHi))))
  }

  function ProbLaneAvx2(e: U64, d: U64, rLo: U64, rHi: U64): U64 {
    var num := SllEpi64(e, 15);
    var p := WrapU64(SrlEpi64(LowProduct(e, rLo, rHi), 47));
    var prod := NarrowProduct(p, d % 0x1_0000_0000, d / 0x1_0000_0000);
    var down := CmpgtEpi64(prod, num);
    var p1, prod1 := AddEpi64(p, down), SubEpi64(prod, Masked(down, d));
    var noUp := CmpgtEpi64(AddEpi64(prod1, d), num);
    AddEpi64(p1, AddEpi64(noUp, 1))
  }

  function ProbLaneAvx512(e: U64, d: U64, rLo: U64, rHi: U64): U64 {
    var num := SllEpi64(e, 15);
    var p := WrapU64(SrlEpi64(LowProduct(e, rLo, rHi), 47));
    var prod := NarrowProduct(p, d % 0x1_0000_0000, d / 0x1_0000_0000);
    var down := SignEpi64(SubEpi64(num, prod));
    var p1, prod1 := AddEpi64(p, down), SubEpi64(prod, Masked(down, d));
    var noUp := SignEpi64(SubEpi64(num, AddEpi64(prod1, d)));
    AddEpi64(p1, AddEpi64(noUp, 1))
  }

  /** Residues of a two-part product. */
  lemma PartsSum(x: int, c: int, h: int, whole: int)
    requires whole == x + c * 0x1_0000_0000 + h * 0x1_0000_0000_0000_0000 && 0 <= whole < 0x1_0000_0000_0000_0000
    ensures (x % 0x1_0000_0000_0000_0000
        + (c % 0x1_0000_0000_0000_0000) * 0x1_0000_0000 % 0x1_0000_0000_0000_0000) % 0x1_0000_0000_0000_0000 == whole
  {
    DivBounds(c, 0x1_0000_0000_0000_0000);
    var kc, kx := c / 0x1_0000_0000_0000_0000, x / 0x1_0000_0000_0000_0000;
    DivBounds(x, 0x1_0000_0000_0000_0000);
    assert (c % 0x1_0000_0000_0000_0000) * 0x1_0000_0000
        == c * 0x1_0000_0000 + (-kc * 0x1_0000_0000) * 0x1_0000_0000_0000_0000;
    DivAddMultiple(c * 0x1_0000_0000, -kc * 0x1_0000_0000, 0x1_0000_0000_0000_0000);
    DivBounds(c * 0x1_0000_0000, 0x1_0000_0000_0000_0000);
    var k2 := c * 0x1_0000_0000 / 0x1_0000_0000_0000_0000;
    assert x % 0x1_0000_0000_0000_0000 + c * 0x1_0000_0000 % 0x1_0000_0000_0000_0000
        == whole + (-kx - k2 - h) * 0x1_0000_0000_0000_0000;
    DivAddMultiple(whole, -kx - k2 - h, 0x1_0000_0000_0000_0000);
  }

  lemma LowProductExact(e: U64, r: U64)
    requires 0 <= e * r < 0x1_0000_0000_0000_0000
    ensures LowProduct(e, r % 0x1_0000_0000, r / 0x1_0000_0000) == e * r
  {
    var e0, e1, r0, r1 := e % 0x1_0000_0000, e / 0x1_0000_0000, r % 0x1_0000_0000, r / 0x1_0000_0000;
    Expand(e0, e1, r0, r1);
    LowParts(e0, e1, r0, r1, e * r);
    LowProductParts(e, r0, r1);
  }

  lemma LowParts(e0: int, e1: int, r0: int, r1: int, whole: int)
    requires 0 <= whole < 0x1_0000_0000_0000_0000
        && whole == e0 * r0 + (e0 * r1 + e1 * r0) * 0x1_0000_0000 + e1 * r1 * 0x1_0000_0000_0000_0000
    ensures var cross := (e0 * r1 % 0x1_0000_0000_0000_0000
            + e1 * r0 % 0x1_0000_0000_0000_0000) % 0x1_0000_0000_0000_0000;
            (e0 * r0 % 0x1_0000_0000_0000_0000
                + cross * 0x1_0000_0000 % 0x1_0000_0000_0000_0000) % 0x1_0000_0000_0000_0000 == whole
  {
    CrossResidue(e0 * r1, e1 * r0);
    PartsSum(e0 * r0, e0 * r1 + e1 * r0, e1 * r1, whole);
  }

  /** The lane operations on those parts. */
  lemma LowProductParts(e: U64, rLo: U64, rHi: U64)
    requires rLo < 0x1_0000_0000 && rHi < 0x1_0000_0000
    ensures var e0, e1 := e % 0x1_0000_0000, e / 0x1_0000_0000;
            var cross := (e0 * rHi % 0x1_0000_0000_0000_0000
                + e1 * rLo % 0x1_0000_0000_0000_0000) % 0x1_0000_0000_0000_0000;
            LowProduct(e, rLo, rHi)
                == (e0 * rLo % 0x1_0000_0000_0000_0000
                + cross * 0x1_0000_0000 % 0x1_0000_0000_0000_0000) % 0x1_0000_0000_0000_0000
  {
    LowDwords(e, rLo);
    LowDwords(e, rHi);
    LowDwords(e / 0x1_0000_0000, rLo);
  }

  lemma LowDwords(a: U64, b: U64)
    requires b < 0x1_0000_0000
    ensures MulEpu32(a, b) == (a % 0x1_0000_0000) * b && (a < 0x1_0000_0000 ==> MulEpu32(a, b) == a * b)
  {}

  lemma CrossResidue(a: int, b: int)
    ensures (a % 0x1_0000_0000_0000_0000 + b % 0x1_0000_0000_0000_0000) % 0x1_0000_0000_0000_0000
        == (a + b) % 0x1_0000_0000_0000_0000
  {}

  lemma NarrowProductExact(p: U64, d: U64)
    requires p < 0x1_0000_0000 && 0 <= p * d < 0x1_0000_0000_0000_0000
    ensures NarrowProduct(p, d % 0x1_0000_0000, d / 0x1_0000_0000) == p * d
  {
    var d0, d1 := d % 0x1_0000_0000, d / 0x1_0000_0000;
    assert d == d1 * 0x1_0000_0000 + d0;
    SplitRight(p, d0, d1);
    PartsSum(p * d0, p * d1, 0, p * d);
    NarrowProductParts(p, d0, d1);
  }

  lemma SplitRight(p: int, d0: int, d1: int)
    ensures p * (d1 * 0x1_0000_0000 + d0) == p * d0 + (p * d1) * 0x1_0000_0000 + 0 * 0x1_0000_0000_0000_0000
  {}

  lemma NarrowProductParts(p: U64, dLo: U64, dHi: U64)
    requires p < 0x1_0000_0000 && dLo < 0x1_0000_0000 && dHi < 0x1_0000_0000
    ensures NarrowProduct(p, dLo, dHi)
        == (p * dLo % 0x1_0000_0000_0000_0000
        + (p * dHi % 0x1_0000_0000_0000_0000) * 0x1_0000_0000 % 0x1_0000_0000_0000_0000) % 0x1_0000_0000_0000_0000
  {
    LowDwords(p, dLo);
    LowDwords(p, dHi);
  }

  /** The estimate is within one of the floor: exactly, it is at most half a denominator high and less than one and a
      half low. */
  lemma ReciprocalEstimate(e: int, d: int)
    requires 0 <= e <= d && e <= MAX_PEAK && 1 <= d <= MAX_WIDTH * MAX_PEAK
    ensures var r := ProbReciprocal(d);
            1 <= r <= 0x4000_0000_0000_0000 && 0 <= e * r < 0x8000_0000_0000_0000
            && (var p := e * r / 0x8000_0000_0000;
                0 <= p <= ONE_Q15 && 2 * (p * d) <= 2 * (e * ONE_Q15) + d && 2 * (e * ONE_Q15) < 2 * (p * d) + 3 * d)
  {
    var r := ProbReciprocal(d);
    var n := 0x4000_0000_0000_0000 + d / 2;
    DivBounds(n, d);
    if r < 1 { MulMono(r, 0, d); assert false; }
    RoundedTop(d);
    if r > 0x4000_0000_0000_0000 { MulMono(0x4000_0000_0000_0000 + 1, r, d); assert false; }
    ScaledReciprocal(e, d, r, r * d);
    DivBounds(e * r, 0x8000_0000_0000);
    ScaledQuotient(e * r / 0x8000_0000_0000, e * r, d);
    EstimateLinear(e, d, e * d, (e * r) * d, e * r, e * r / 0x8000_0000_0000, (e * r / 0x8000_0000_0000) * d);
  }

  lemma RoundedTop(d: int)
    requires d >= 1
    ensures 0x4000_0000_0000_0000 + d / 2 < (0x4000_0000_0000_0000 + 1) * d
  {}

  /** The reciprocal's error, carried to one numerator. */
  lemma ScaledReciprocal(e: int, d: int, r: int, x: int)
    requires 0 <= e && d >= 1 && r >= 1 && x == r * d && x <= 0x4000_0000_0000_0000 + d / 2 < x + d
    ensures e * 0x8000_0000_0000_0000 - e * d <= 2 * ((e * r) * d) <= e * 0x8000_0000_0000_0000 + e * d && e * r >= 0
  {
    MulAssoc(e, r, d);
    MulMono(2 * x, 0x8000_0000_0000_0000 + d, e);
    MulMono(0x8000_0000_0000_0000 - d, 2 * x, e);
    ThreeTerms(e, d, x);
    MulMono(0, e, r);
  }

  lemma ThreeTerms(e: int, d: int, x: int)
    ensures e * (0x8000_0000_0000_0000 + d) == e * 0x8000_0000_0000_0000 + e * d
        && e * (0x8000_0000_0000_0000 - d) == e * 0x8000_0000_0000_0000 - e * d && e * (2 * x) == 2 * (e * x)
  {}

  lemma ScaledQuotient(p: int, a: int, d: int)
    requires p * 0x8000_0000_0000 <= a < p * 0x8000_0000_0000 + 0x8000_0000_0000 && d >= 1
    ensures (p * d) * 0x8000_0000_0000 <= a * d && a * d + d <= (p * d) * 0x8000_0000_0000 + 0x8000_0000_0000 * d
  {
    MulMono(p * 0x8000_0000_0000, a, d);
    MulMono(a + 1, p * 0x8000_0000_0000 + 0x8000_0000_0000, d);
    assert (p * 0x8000_0000_0000) * d == (p * d) * 0x8000_0000_0000
        && (p * 0x8000_0000_0000 + 0x8000_0000_0000) * d == (p * d) * 0x8000_0000_0000 + 0x8000_0000_0000 * d;
    assert (a + 1) * d == a * d + d;
  }

  lemma EstimateLinear(e: int, d: int, ed: int, y: int, a: int, p: int, pd: int)
    requires 0 <= e <= d && e <= MAX_PEAK && d >= 1 && ed == e * d && y == a * d && pd == p * d && a >= 0
        && p == a / 0x8000_0000_0000
    requires e * 0x8000_0000_0000_0000 - ed <= 2 * y <= e * 0x8000_0000_0000_0000 + ed
    requires pd * 0x8000_0000_0000 <= y && y + d <= pd * 0x8000_0000_0000 + 0x8000_0000_0000 * d
    ensures a < 0x8000_0000_0000_0000 && 0 <= p <= ONE_Q15 && 2 * pd <= 2 * (e * ONE_Q15) + d
        && 2 * (e * ONE_Q15) < 2 * pd + 3 * d
  {
    MulMono(e, MAX_PEAK, d);
    if a >= 0x8000_0000_0000_0000 {
      MulMono(0x8000_0000_0000_0000, a, d);
      MulMono(e, d, 0x8000_0000_0000_0000);
      assert false;
    }
    if p > ONE_Q15 { MulMono(ONE_Q15 + 1, p, d); assert false; }
  }

  /** Both vector forms give the floor of the share. */
  lemma ProbLanesExact(e: U64, d: U64)
    requires 0 <= e <= d && e <= MAX_PEAK && 1 <= d <= MAX_WIDTH * MAX_PEAK
    ensures var r := ProbReciprocal(d);
            0 <= r < 0x1_0000_0000_0000_0000 && 0 <= e * ONE_Q15 / d <= ONE_Q15
            && ProbLaneAvx2(e, d, r % 0x1_0000_0000, r / 0x1_0000_0000)
                == ProbLaneAvx512(e, d, r % 0x1_0000_0000, r / 0x1_0000_0000) == e * ONE_Q15 / d
  {
    var r := ProbReciprocal(d);
    var p := e * r / 0x8000_0000_0000;
    EstimateFacts(e, d, r, p, p * d);
    ProbLanesWith(e, d, r, e * r, p, p * d, e * ONE_Q15);
  }

  lemma ProbLanesWith(e: U64, d: U64, r: U64, a: int, p: U64, prod: U64, num: U64)
    requires a == e * r && 0 <= a < 0x8000_0000_0000_0000 && p == a / 0x8000_0000_0000 && prod == p * d
        && num == e * ONE_Q15
    requires num <= 0x4000_0000_0000_0000 && 1 <= d <= MAX_WIDTH * MAX_PEAK && p <= ONE_Q15
    requires 2 * prod <= 2 * num + d && 2 * num < 2 * prod + 3 * d && (prod > num ==> p >= 1 && prod >= d)
    ensures ProbLaneAvx2(e, d, r % 0x1_0000_0000, r / 0x1_0000_0000)
        == ProbLaneAvx512(e, d, r % 0x1_0000_0000, r / 0x1_0000_0000)
            == if prod > num then p - 1 else if prod + d > num then p else p + 1
  {
    LowProductExact(e, r);
    NarrowProductExact(p, d);
    Shift15(e);
    ProbLanesFrom(e, d, r % 0x1_0000_0000, r / 0x1_0000_0000, a, p, prod, num);
  }

  lemma Shift15(e: U64)
    requires e * ONE_Q15 < 0x1_0000_0000_0000_0000
    ensures SllEpi64(e, 15) == e * ONE_Q15
  {
    Pow2Values();
  }

  lemma ProbLanesFrom(e: U64, d: U64, rLo: U64, rHi: U64, a: int, p: U64, prod: U64, num: U64)
    requires LowProduct(e, rLo, rHi) == a && p == a / 0x8000_0000_0000
        && NarrowProduct(p, d % 0x1_0000_0000, d / 0x1_0000_0000) == prod
    requires SllEpi64(e, 15) == num && num <= 0x4000_0000_0000_0000 && 1 <= d <= MAX_WIDTH * MAX_PEAK && p <= ONE_Q15
    requires 2 * prod <= 2 * num + d && 2 * num < 2 * prod + 3 * d && (prod > num ==> p >= 1 && prod >= d)
    ensures ProbLaneAvx2(e, d, rLo, rHi) == ProbLaneAvx512(e, d, rLo, rHi)
            == if prod > num then p - 1 else if prod + d > num then p else p + 1
  {
    FirstQuotient(a, p);
    CorrectedLanes(e, d, rLo, rHi, p, prod, num);
  }

  lemma EstimateFacts(e: int, d: int, r: int, p: int, prod: int)
    requires 0 <= e <= d && e <= MAX_PEAK && 1 <= d <= MAX_WIDTH * MAX_PEAK
    requires r == ProbReciprocal(d) && p == e * r / 0x8000_0000_0000 && prod == p * d
    ensures 0 <= r <= 0x4000_0000_0000_0000 && 0 <= e * r < 0x8000_0000_0000_0000 && 0 <= p <= ONE_Q15
        && 0 <= prod < 0x8000_0000_0000_0000
    ensures var num := e * ONE_Q15;
            2 * prod <= 2 * num + d && 2 * num < 2 * prod + 3 * d && (prod > num ==> p >= 1 && prod >= d)
            && num / d == (if prod > num then p - 1 else if prod + d > num then p else p + 1) && 0 <= num / d <= ONE_Q15
  {
    ReciprocalEstimate(e, d);
    ShareBounds(e, d);
    MulMono(0, p, d);
    if p >= 1 { MulMono(1, p, d); }
    ShareIs(e * ONE_Q15, d, p);
  }

  /** Both lanes, once their estimate, product and numerator are known. */
  lemma CorrectedLanes(e: U64, d: U64, rLo: U64, rHi: U64, p: U64, prod: U64, num: U64)
    requires WrapU64(SrlEpi64(LowProduct(e, rLo, rHi), 47)) == p
        && NarrowProduct(p, d % 0x1_0000_0000, d / 0x1_0000_0000) == prod
    requires SllEpi64(e, 15) == num && num <= 0x4000_0000_0000_0000 && 1 <= d <= MAX_WIDTH * MAX_PEAK && p <= ONE_Q15
    requires 2 * prod <= 2 * num + d && 2 * num < 2 * prod + 3 * d && (prod > num ==> p >= 1 && prod >= d)
    ensures ProbLaneAvx2(e, d, rLo, rHi) == ProbLaneAvx512(e, d, rLo, rHi)
            == if prod > num then p - 1 else if prod + d > num then p else p + 1
  {
    CorrectedShare(p, prod, num, d);
  }

  lemma FirstQuotient(a: U64, p: int)
    requires p == a / 0x8000_0000_0000
    ensures WrapU64(SrlEpi64(a, 47)) == p
  {
    Shift47(a);
  }

  lemma Shift47(a: int)
    requires a >= 0
    ensures SrlEpi64(a, 47) == a / 0x8000_0000_0000
  {
    Pow2Values();
  }

  lemma ShareIs(n: int, d: int, p: int)
    requires d >= 1 && 2 * (p * d) <= 2 * n + d && 2 * n < 2 * (p * d) + 3 * d
    ensures n / d == if p * d > n then p - 1 else if p * d + d > n then p else p + 1
  {
    assert (p - 1) * d == p * d - d && (p + 1) * d == p * d + d;
    DivUnique(n, d, if p * d > n then p - 1 else if p * d + d > n then p else p + 1);
  }

  /** A difference that does not wrap, and the sum that undoes it. */
  lemma SubThenAdd(a: U64, b: U64)
    requires b <= a
    ensures SubEpi64(a, b) == a - b && AddEpi64(SubEpi64(a, b), b) == a
  {}

  /** A sum that does not wrap. */
  lemma PlainAdd(a: U64, b: U64)
    requires a + b < 0x1_0000_0000_0000_0000
    ensures AddEpi64(a, b) == a + b
  {}

  /** The estimate is one too high: taken down, the share is below the numerator. */
  lemma CorrectedDown(p: U64, prod: U64, num: U64, d: U64, down: U64)
    requires num <= 0x4000_0000_0000_0000 && 1 <= d <= prod < 0x8000_0000_0000_0000 && 1 <= p <= ONE_Q15 && prod > num
        && down == ALL_ONES
    ensures AddEpi64(p, down) == p - 1 && SubEpi64(prod, Masked(down, d)) == prod - d
    ensures AddEpi64(prod - d, d) == prod && CmpgtEpi64(prod, num) == SignEpi64(SubEpi64(num, prod)) == ALL_ONES
    ensures AddEpi64(p - 1, AddEpi64(ALL_ONES, 1)) == p - 1
  {
    CompareExact(prod, num);
    SubThenAdd(prod, d);
    MaskAdds(p);
    MaskAdds(p - 1);
  }

  /** The estimate is not too high: it stays, or goes up by one. */
  lemma CorrectedUp(p: U64, prod: U64, num: U64, d: U64, down: U64)
    requires num <= 0x4000_0000_0000_0000 && 1 <= d && prod + d < 0x8000_0000_0000_0000 && p <= ONE_Q15 && prod <= num
        && down == 0
    ensures AddEpi64(p, down) == p && SubEpi64(prod, Masked(down, d)) == prod && AddEpi64(prod, d) == prod + d
    ensures CmpgtEpi64(prod + d, num) == SignEpi64(SubEpi64(num, prod + d)) == if prod + d > num then ALL_ONES else 0
    ensures AddEpi64(p, AddEpi64(if prod + d > num then ALL_ONES else 0, 1)) == if prod + d > num then p else p + 1
  {
    CompareExact(prod + d, num);
    SubThenAdd(prod, 0);
    PlainAdd(prod, d);
    MaskAdds(p);
  }

  /** The corrections, on exact lanes: neither compare and neither difference wraps. */
  lemma CorrectedShare(p: U64, prod: U64, num: U64, d: U64)
    requires num <= 0x4000_0000_0000_0000 && 1 <= d <= MAX_WIDTH * MAX_PEAK && p <= ONE_Q15
    requires 2 * prod <= 2 * num + d && 2 * num < 2 * prod + 3 * d
    requires prod > num ==> p >= 1 && prod >= d
    ensures var down := CmpgtEpi64(prod, num);
            var p1, prod1 := AddEpi64(p, down), SubEpi64(prod, Masked(down, d));
            var noUp := CmpgtEpi64(AddEpi64(prod1, d), num);
            down == SignEpi64(SubEpi64(num, prod)) && noUp == SignEpi64(SubEpi64(num, AddEpi64(prod1, d)))
            && AddEpi64(p1, AddEpi64(noUp, 1)) == if prod > num then p - 1 else if prod + d > num then p else p + 1
  {
    CompareExact(prod, num);
    if prod > num {
      CorrectedDown(p, prod, num, d, CmpgtEpi64(prod, num));
    } else {
      CorrectedUp(p, prod, num, d, CmpgtEpi64(prod, num));
    }
  }

  lemma CompareExact(x: U64, y: U64)
    requires x < 0x8000_0000_0000_0000 && y < 0x8000_0000_0000_0000
    ensures CmpgtEpi64(x, y) == SignEpi64(SubEpi64(y, x)) == if x > y then ALL_ONES else 0
  {}

  lemma MaskAdds(p: U64)
    requires p <= ONE_Q15
    ensures p >= 1 ==> AddEpi64(p, ALL_ONES) == p - 1
    ensures AddEpi64(p, 0) == p && AddEpi64(ALL_ONES, 1) == 0 && AddEpi64(0, 1) == 1 && AddEpi64(p, 1) == p + 1
  {}

  // ----- The vector bodies

  datatype Body = Avx2 | Avx512

  function Width(b: Body): nat { if b == Avx2 then 4 else 8 }

  function ExpLane(b: Body, s: U64, c: LaneConsts): U64 {
    if b == Avx2 then ExpLaneAvx2(s, c) else ExpLaneAvx512(s, c)
  }

  function ProbLane(b: Body, e: U64, d: U64, rLo: U64, rHi: U64): U64 {
    if b == Avx2 then ProbLaneAvx2(e, d, rLo, rHi) else ProbLaneAvx512(e, d, rLo, rHi)
  }

  /** Accumulator lanes plus one step's lanes. */
  function AddWords(acc: seq<U64>, e: seq<U64>): (r: seq<U64>)
    requires |acc| == |e|
    ensures |r| == |acc|
  {
    seq(|acc|, i requires 0 <= i < |acc| => AddEpi64(acc[i], e[i]))
  }

  lemma {:induction false} LanesAdd(acc: seq<U64>, e: seq<U64>)
    requires |acc| == |e| && Sum(acc) + Sum(e) < 0x8000_0000_0000_0000
    ensures Sum(AddWords(acc, e)) == Sum(acc) + Sum(e)
  {
    if acc != [] {
      var k := |acc| - 1;
      SumAtLeast(acc[..k]);
      SumAtLeast(e[..k]);
      LanesAdd(acc[..k], e[..k]);
      assert AddWords(acc, e)[..k] == AddWords(acc[..k], e[..k]);
    }
  }

  /** The lanes of one step: the elements that are left, padded. */
  function Padded(s: seq<I64>, width: nat, pad: I64): (r: seq<I64>)
    requires |s| <= width
    ensures |r| == width && forall i :: 0 <= i < |s| ==> r[i] == s[i]
  {
    s + seq(width - |s|, _ => pad)
  }

  /** One step: every lane of the register computes the same thing. */
  function Lanewise(lane: U64 -> U64, buf: seq<I64>): (r: seq<U64>)
    ensures |r| == |buf|
  {
    seq<U64>(|buf|, i requires 0 <= i < |buf| => lane(ToLane(buf[i])))
  }

  method Store(out: array<I64>, k: nat, n: nat, lanes: seq<U64>)
    requires k + n <= out.Length && n <= |lanes|
    modifies out
    ensures forall i :: 0 <= i < out.Length ==> out[i] == if k <= i < k + n then WrapI64(lanes[i - k]) else old(out[i])
  {
    forall i | 0 <= i < n { out[k + i] := WrapI64(lanes[i]); }
  }

  /** The lanes give `f` on the row `s`. */
  predicate LanesGive(lane: U64 -> U64, s: seq<I64>, f: seq<int>) {
    |f| == |s| && forall j :: 0 <= j < |s| ==> 0 <= f[j] <= MAX_PEAK && lane(ToLane(s[j])) == f[j]
  }

  /** One step over `n` elements, padded to the body's lanes; the results are written over `out`, which may be the row
      that is read. */
  method RowStep(lane: U64 -> U64, w: nat, row: array<I64>, k: nat, n: nat, pad: I64, out: array<I64>,
                 ghost s: seq<I64>,
                 ghost f: seq<int>) returns (e: seq<U64>)
    requires row.Length == out.Length == |s| && n <= w && k + n <= |s| && LanesGive(lane, s, f)
    requires forall i :: k <= i < |s| ==> row[i] == s[i]
    modifies out
    ensures |e| == w && forall i :: 0 <= i < n ==> e[i] == f[k + i]
    ensures forall i :: 0 <= i < out.Length ==> out[i] == if k <= i < k + n then f[i] else old(out[i])
  {
    var buf := Padded(row[k..k + n], w, pad);
    e := Lanewise(lane, buf);
    forall i | 0 <= i < n ensures e[i] == f[k + i] <= MAX_PEAK { assert buf[i] == s[k + i]; }
    Store(out, k, n, e);
  }

  /** Pass 2: every element's exponential, written over the row, and the total; a row may be rewritten in place. */
  method ExpPass(lane: U64 -> U64, w: nat, scores: array<I64>, peak: I64, out: array<I64>, ghost f: seq<int>)
                 returns (total: I64)
    requires w > 0 && scores.Length == out.Length && LanesGive(lane, scores[..], f) && Sum(f) < 0x8000_0000_0000_0000
    modifies out
    ensures out[..] == f && total == Sum(f)
  {
    ghost var s := scores[..];
    var acc, k := ExpBlocks(lane, w, scores, peak, out, s, f);
    SumPrefix(f, k);
    total := SumLanes(acc, Sum(f));
    var rest := out.Length - k;
    var e := RowStep(lane, w, scores, k, rest, peak, out, s, f);
    total := AddRest(total, e, rest, f, k);
  }

  /** The full steps of pass 2. */
  method ExpBlocks(lane: U64 -> U64, w: nat, scores: array<I64>, peak: I64, out: array<I64>, ghost s: seq<I64>,
                   ghost f: seq<int>)
    returns (acc: seq<U64>, k: nat)
    requires w > 0 && scores.Length == out.Length && s == scores[..] && LanesGive(lane, s, f)
        && Sum(f) < 0x8000_0000_0000_0000
    modifies out
    ensures k <= out.Length < k + w && Sum(acc) == Sum(f[..k])
    ensures forall i :: 0 <= i < k ==> out[i] == f[i]
    ensures forall i :: k <= i < out.Length ==> scores[i] == s[i]
  {
    acc, k := seq(w, _ => 0 as U64), 0;
    SumZeros(w);
    while k + w <= out.Length
      invariant 0 <= k <= out.Length && |acc| == w && Sum(acc) == Sum(f[..k])
      invariant forall i :: 0 <= i < k ==> out[i] == f[i]
      invariant forall i :: k <= i < out.Length ==> scores[i] == s[i]
    {
      acc := ExpBlock(lane, w, scores, k, peak, out, s, f, acc);
      k := k + w;
    }
  }

  method ExpBlock(lane: U64 -> U64, w: nat, scores: array<I64>, k: nat, peak: I64, out: array<I64>, ghost s: seq<I64>,
                  ghost f: seq<int>, acc: seq<U64>) returns (acc': seq<U64>)
    requires scores.Length == out.Length == |s| && k + w <= |s| && LanesGive(lane, s, f)
        && Sum(f) < 0x8000_0000_0000_0000
    requires (forall i :: k <= i < |s| ==> scores[i] == s[i]) && |acc| == w && Sum(acc) == Sum(f[..k])
    modifies out
    ensures |acc'| == w && Sum(acc') == Sum(f[..k + w])
    ensures forall i :: 0 <= i < out.Length ==> out[i] == if k <= i < k + w then f[i] else old(out[i])
  {
    var e := RowStep(lane, w, scores, k, w, peak, out, s, f);
    Accumulates(acc, e, f, k);
    acc' := AddWords(acc, e);
  }

  /** One step of the accumulator lanes: the total grows by the step's elements, and no lane wraps. */
  lemma Accumulates(acc: seq<U64>, e: seq<U64>, f: seq<int>, k: nat)
    requires |acc| == |e| && k + |e| <= |f| && Sum(acc) == Sum(f[..k]) && Sum(f) < 0x8000_0000_0000_0000
    requires (forall i :: 0 <= i < |e| ==> e[i] == f[k + i]) && forall i :: 0 <= i < |f| ==> f[i] >= 0
    ensures Sum(AddWords(acc, e)) == Sum(f[..k + |e|])
  {
    StepTotal(f, k, |e|, e);
    LanesAdd(acc, e);
  }

  lemma {:induction false} SumZeros(n: nat)
    ensures Sum(seq(n, _ => 0)) == 0
  {
    if n > 0 {
      assert seq(n, _ => 0)[..n - 1] == seq(n - 1, _ => 0);
      SumZeros(n - 1);
    }
  }

  lemma StepTotal(f: seq<int>, k: nat, n: nat, e: seq<int>)
    requires k + n <= |f| && |e| == n && forall i :: 0 <= i < n ==> e[i] == f[k + i]
    requires forall i :: 0 <= i < |f| ==> f[i] >= 0
    ensures Sum(f[..k + n]) == Sum(f[..k]) + Sum(e) <= Sum(f)
  {
    assert f[..k + n] == f[..k] + e;
    SumAppend(f[..k], e);
    SumPrefix(f, k + n);
  }

  method SumLanes(acc: seq<U64>, ghost bound: int) returns (total: I64)
    requires Sum(acc) <= bound < 0x8000_0000_0000_0000
    ensures total == Sum(acc)
  {
    total := 0;
    var i := 0;
    while i < |acc|
      invariant 0 <= i <= |acc| && total == Sum(acc[..i])
    {
      assert acc[..i + 1][..i] == acc[..i];
      SumPrefix(acc, i + 1);
      total := total + acc[i];
      i := i + 1;
    }
    assert acc[..i] == acc;
  }

  method AddRest(start: I64, e: seq<U64>, rest: nat, ghost f: seq<int>, ghost k: nat) returns (total: I64)
    requires k + rest == |f| && rest <= |e| && start == Sum(f[..k]) && Sum(f) < 0x8000_0000_0000_0000
    requires forall i :: 0 <= i < |f| ==> f[i] >= 0
    requires forall i :: 0 <= i < rest ==> e[i] == f[k + i]
    ensures total == Sum(f)
  {
    total := start;
    var i := 0;
    while i < rest
      invariant 0 <= i <= rest && total == Sum(f[..k + i])
    {
      assert f[..k + i + 1][..k + i] == f[..k + i];
      SumPrefix(f, k + i + 1);
      total := total + e[i];
      i := i + 1;
    }
    assert f[..k + i] == f;
  }

  /** Pass 3: the shares, in place, the last step padded with zeros. */
  method ProbPass(lane: U64 -> U64, w: nat, out: array<I64>, ghost p: seq<int>)
    requires w > 0 && LanesGive(lane, out[..], p)
    modifies out
    ensures out[..] == p
  {
    ghost var f := out[..];
    var k := 0;
    while k + w <= out.Length
      invariant 0 <= k <= out.Length
      invariant forall i :: 0 <= i < k ==> out[i] == p[i]
      invariant forall i :: k <= i < out.Length ==> out[i] == f[i]
    {
      var _ := RowStep(lane, w, out, k, w, 0, out, f, p);
      k := k + w;
    }
    var _ := RowStep(lane, w, out, k, out.Length - k, 0, out, f, p);
  }

  function ExpLaneOf(b: Body, c: LaneConsts): U64 -> U64 { s => ExpLane(b, s, c) }

  function ProbLaneOf(b: Body, d: U64, r: U64): U64 -> U64 {
    e => ProbLane(b, e, d, r % 0x1_0000_0000, r / 0x1_0000_0000)
  }

  lemma ProbLanesGive(b: Body, f: seq<I64>, d: int, r: int)
    requires d == Sum(f) && 1 <= d <= MAX_WIDTH * MAX_PEAK && forall i :: 0 <= i < |f| ==> 0 <= f[i] <= MAX_PEAK
    requires r == ProbReciprocal(d)
    ensures 0 <= r < 0x1_0000_0000_0000_0000 && LanesGive(ProbLaneOf(b, d, r), f, Probabilities(f))
  {
    SumAtLeast(f);
    OutputsAreBounded(f);
    ReciprocalEstimate(0, d);
    var p := Probabilities(f);
    forall j | 0 <= j < |f| ensures ProbLaneOf(b, d, r)(ToLane(f[j])) == p[j] {
      ShareAt(f, j, d);
      ProbLaneAt(b, f[j], d, r, p[j]);
    }
  }

  lemma ShareAt(f: seq<int>, j: nat, d: int)
    requires j < |f| && d == Sum(f) >= 1
    ensures Probabilities(f)[j] == f[j] * ONE_Q15 / d
  {
    assert Denominator(f) == d;
  }

  lemma ProbLaneAt(b: Body, e: I64, d: int, r: U64, p: int)
    requires 0 <= e <= d && e <= MAX_PEAK && 1 <= d <= MAX_WIDTH * MAX_PEAK && r == ProbReciprocal(d)
        && p == e * ONE_Q15 / d
    ensures ProbLaneOf(b, d, r)(ToLane(e)) == p
  {
    LaneOf(e);
    ProbLanesExact(e, d);
  }

  lemma ExpLanesGive(b: Body, s: seq<I64>, peak: I64, qLn2: I64, qB: I64, qC: I64)
    requires Admitted(s, qLn2, qB, qC) && peak == RowMax(s)
    ensures LanesGive(ExpLaneOf(b, Broadcast(peak, qLn2, qB, qC)), s, Exponentials(s, qLn2, qB, qC))
  {
    RowMaxIsMaximum(s);
    AdmittedRow(s, qLn2, qB, qC);
    var c := Broadcast(peak, qLn2, qB, qC);
    forall x: I64 | -0x2000_0000_0000_0000 <= x <= peak
      ensures ExpLaneOf(b, c)(ToLane(x)) == ExpFrom(qLn2, qB, qC)(peak - x)
    {
      ExpLaneAt(b, x, peak, qLn2, qB, qC, c, ExpOf(peak - x, qLn2, qB, qC));
    }
    LanesFor(ExpLaneOf(b, c), ExpFrom(qLn2, qB, qC), s, peak, Exponentials(s, qLn2, qB, qC));
  }

  function ExpFrom(qLn2: int, qB: int, qC: int): int -> int {
    a => if a >= 0 && qLn2 >= 1 then ExpOf(a, qLn2, qB, qC) else 0
  }

  lemma LanesFor(lane: U64 -> U64, exp: int -> int, s: seq<I64>, peak: I64, e: seq<int>)
    requires |e| == |s|
        && forall j :: 0 <= j < |s| ==>
        -0x2000_0000_0000_0000 <= s[j] <= peak && e[j] == exp(peak - s[j]) && 0 <= e[j] <= MAX_PEAK
    requires forall x: I64 :: -0x2000_0000_0000_0000 <= x <= peak ==> lane(ToLane(x)) == exp(peak - x)
    ensures LanesGive(lane, s, e)
  {}

  lemma ExpLaneAt(b: Body, x: I64, peak: I64, qLn2: I64, qB: I64, qC: I64, c: LaneConsts, e: int)
    requires ConstantsAdmitted(qLn2, qB, qC) && -0x2000_0000_0000_0000 <= x <= peak <= 0x2000_0000_0000_0000
    requires c == Broadcast(peak, qLn2, qB, qC) && e == ExpOf(peak - x, qLn2, qB, qC)
    ensures ExpLaneOf(b, c)(ToLane(x)) == e
  {
    ExpLanesExact(x, peak, qLn2, qB, qC);
  }

  method SoftmaxRowFast(b: Body, scores: array<I64>, qLn2: I64, qB: I64, qC: I64, peak: I64, out: array<I64>)
    requires scores.Length == out.Length && Admitted(scores[..], qLn2, qB, qC) && peak == RowMax(scores[..])
    modifies out
    ensures out[..] == Probabilities(Exponentials(old(scores[..]), qLn2, qB, qC))
  {
    ghost var f := Exponentials(scores[..], qLn2, qB, qC);
    AdmittedRow(scores[..], qLn2, qB, qC);
    ExpLanesGive(b, scores[..], peak, qLn2, qB, qC);
    var total := ExpPass(ExpLaneOf(b, Broadcast(peak, qLn2, qB, qC)), Width(b), scores, peak, out, f);
    var r := ProbReciprocal(total);
    ProbLanesGive(b, f, total, r);
    ProbPass(ProbLaneOf(b, total, r), Width(b), out, Probabilities(f));
  }

  datatype Kernel = Shipped | Vector(body: Body)

  /** The kernel as called: whichever body the processor selects, the same integers are written and the same verdict
      returned. The output may be the input row itself. */
  method SoftmaxRowQ15(kernel: Kernel, scores: array<I64>, qLn2: I64, qB: I64, qC: I64, out: array<I64>)
                       returns (wellFormed: bool)
    requires scores.Length == out.Length && Shiftable(scores[..]) && SumFits(scores[..], qB, qC)
    modifies out
    ensures out[..] == Probabilities(Numerators(old(scores[..]), qLn2, qB, qC))
    ensures wellFormed <==> WellFormedRow(old(scores[..]), qLn2, qB, qC)
  {
    if scores.Length == 0 { return true; }
    if kernel.Vector? {
      var admitted, peak := SoftmaxFastGuard(scores, qLn2, qB, qC);
      if admitted {
        AdmittedRow(scores[..], qLn2, qB, qC);
        SoftmaxRowFast(kernel.body, scores, qLn2, qB, qC, peak, out);
        return true;
      }
    }
    wellFormed := SoftmaxRowShipped(scores, qLn2, qB, qC, out);
  }
}
