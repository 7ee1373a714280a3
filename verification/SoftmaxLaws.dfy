/** What the softmax row's numbers mean, in closed form: every element, every lane and every share, with the numbers
of src/intmath.cpp lines 787-850 and 1309-1378 written out. */
module SoftmaxLaws {
  import opened Arith
  import opened Lanes
  import opened SoftmaxExp
  import opened SoftmaxRow
  import opened Sums

  // ----- Elements

  /** A refused element counts for nothing; a used one has usable constants. */
  lemma ElementUsable(q: I64, qLn2: I64, qB: I64, qC: I64)
    ensures SlowElement(q, qLn2, qB, qC).ok ==>
              q <= 0 && 1 <= qLn2 <= 307_445_734_561_825_860 && 1 <= qB * qB + qC <= 0x8000_0000_0000
    ensures !SlowElement(q, qLn2, qB, qC).ok ==> SlowElement(q, qLn2, qB, qC).value == 0
  {
    ConstructionIs(q, qLn2, qB, qC);
  }

  /** Usable constants keep the base far inside int64, so only the distance and the peak decide. */
  lemma BaseFits(qLn2: I64, qB: I64, qC: I64, r: int)
    requires 1 <= qLn2 <= 307_445_734_561_825_860 && 1 <= qB * qB + qC <= 0x8000_0000_0000 && 0 <= r < qLn2
    ensures qB - r >= -0x8000_0000_0000_0000
  {
    if qB < -0x4000_0000_0000_0000 { NegativeSquare(qB); assert false; }
  }

  lemma NegativeSquare(x: int)
    requires x < -0x4000_0000_0000_0000
    ensures x * x > 0x1_0000_0000_0000_0000
  {
    MulMono(0x4000_0000_0000_0000, -x, -x);
    MulMono(4, -x, 0x4000_0000_0000_0000);
    assert (-x) * (-x) == x * x;
  }

  /** From 30 times ln 2 on, an element is the peak over 2^30. */
  lemma FarElement(q: I64, qLn2: I64, qB: I64, qC: I64)
    requires 1 <= qLn2 <= 307_445_734_561_825_860 && 1 <= qB * qB + qC <= 0x8000_0000_0000 && q <= -30 * qLn2
    ensures SlowElement(q, qLn2, qB, qC) == Element((qB * qB + qC) / 0x4000_0000, true)
  {
    MulMono(1, qLn2, 30);
    ConstructionIs(q, qLn2, qB, qC);
    BaseFits(qLn2, qB, qC, 0);
    Decomposed(q, qLn2, qB, qC);
    ExpFar(-(q as int), qLn2, qB, qC);
    ElementValue(q, qLn2, qB, qC);
    PeakShrinks(qB * qB + qC);
  }

  lemma PeakShrinks(m: int)
    requires 1 <= m <= 0x8000_0000_0000
    ensures 0 <= m / 0x4000_0000 <= m && WrapI64(m / 0x4000_0000) == m / 0x4000_0000
  {}

  /** Nearer, it is the shifted quadratic of the remainder; outside the range from 0 to the peak it is refused. */
  lemma NearElement(q: I64, z: nat, r: int, qLn2: I64, qB: I64, qC: I64)
    requires 1 <= qLn2 <= 307_445_734_561_825_860 && 1 <= qB * qB + qC <= 0x8000_0000_0000
    requires q > -30 * qLn2 && 0 <= r < qLn2 && -(q as int) == z * qLn2 + r
    ensures var v := WrapI64(((qB - r) * (qB - r) + qC) / Pow2(z));
            SlowElement(q, qLn2, qB, qC) == if 0 <= v <= qB * qB + qC then Element(v, true) else Element(0, false)
  {
    MulMono(0, z, qLn2);
    BaseFits(qLn2, qB, qC, r);
    ExpNear(-(q as int), z, r, qLn2, qB, qC);
    Decomposed(q, qLn2, qB, qC);
    ElementValue(q, qLn2, qB, qC);
  }

  /** Usable constants are never refused for their base. */
  lemma Decomposed(q: I64, qLn2: I64, qB: I64, qC: I64)
    requires q <= 0 && 1 <= qLn2 <= 307_445_734_561_825_860 && 1 <= qB * qB + qC <= 0x8000_0000_0000
    ensures var d := ConstructionOf(q, qLn2, qB, qC).domain; d == Domain.Ok || d == NotRepresentable
  {
    ClipQuotient(-(q as int), qLn2);
    BaseFits(qLn2, qB, qC, Clipped(-(q as int), qLn2) % qLn2);
  }

  lemma ElementValue(q: I64, qLn2: I64, qB: I64, qC: I64)
    requires 1 <= qB * qB + qC <= 0x8000_0000_0000 && q <= 0 && qLn2 >= 1
    requires var d := ConstructionOf(q, qLn2, qB, qC).domain; d == Domain.Ok || d == NotRepresentable
    ensures var v := WrapI64(ExpOf(-(q as int), qLn2, qB, qC));
            SlowElement(q, qLn2, qB, qC) == if 0 <= v <= qB * qB + qC then Element(v, true) else Element(0, false)
  {
    EvaluateConstruction(q, qLn2, qB, qC);
  }

  /** One ln 2 farther an element is half, rounded down, whenever its value did not wrap. */
  lemma ElementHalves(q: I64, qLn2: I64, qB: I64, qC: I64)
    requires SlowElement(q, qLn2, qB, qC).ok && -0x8000_0000_0000_0000 <= q - qLn2 && -30 * qLn2 <= q - qLn2
    requires qLn2 >= 1 && q <= 0 && -0x8000_0000_0000_0000 <= ExpOf(-(q as int), qLn2, qB, qC) < 0x8000_0000_0000_0000
    ensures SlowElement(q - qLn2, qLn2, qB, qC) == Element(SlowElement(q, qLn2, qB, qC).value / 2, true)
  {
    var a: int := -(q as int);
    ElementUsable(q, qLn2, qB, qC);
    Decomposed(q, qLn2, qB, qC);
    Decomposed(q - qLn2, qLn2, qB, qC);
    ElementValue(q, qLn2, qB, qC);
    ElementValue(q - qLn2, qLn2, qB, qC);
    ExpHalves(a, qLn2, qB, qC);
    WrapOfFit(ExpOf(a, qLn2, qB, qC));
    WrapOfFit(ExpOf(a, qLn2, qB, qC) / 2);
  }

  lemma WrapOfFit(x: int)
    requires -0x8000_0000_0000_0000 <= x < 0x8000_0000_0000_0000
    ensures WrapI64(x) == x
  {}

  // ----- Lanes

  /** Both lane forms halve with every ln 2, as far as 30 of them. */
  lemma LanesHalve(s: I64, peak: I64, qLn2: I64, qB: I64, qC: I64)
    requires ConstantsAdmitted(qLn2, qB, qC) && -0x2000_0000_0000_0000 <= s <= peak <= 0x2000_0000_0000_0000
        && -0x2000_0000_0000_0000 <= s - qLn2
    requires peak - s + qLn2 <= 30 * qLn2
    ensures var c := Broadcast(peak, qLn2, qB, qC);
            && ExpLaneAvx2(ToLane(s - qLn2), c) == ExpLaneAvx2(ToLane(s), c) / 2
            && ExpLaneAvx512(ToLane(s - qLn2), c) == ExpLaneAvx512(ToLane(s), c) / 2
  {
    var c := Broadcast(peak, qLn2, qB, qC);
    ExpLanesExact(s, peak, qLn2, qB, qC);
    ExpLanesExact(s - qLn2, peak, qLn2, qB, qC);
    HalfBeyond(peak - s, peak - (s - qLn2), qLn2, qB, qC);
  }

  /** From 30 times ln 2 on, both stay at the peak over 2^30. */
  lemma LanesFar(s: I64, peak: I64, qLn2: I64, qB: I64, qC: I64)
    requires ConstantsAdmitted(qLn2, qB, qC) && -0x2000_0000_0000_0000 <= s <= peak <= 0x2000_0000_0000_0000
        && peak - s >= 30 * qLn2
    ensures var c := Broadcast(peak, qLn2, qB, qC);
            ExpLaneAvx2(ToLane(s), c) == ExpLaneAvx512(ToLane(s), c) == (qB * qB + qC) / 0x4000_0000
  {
    ExpLanesExact(s, peak, qLn2, qB, qC);
    ExpFar(peak - s, qLn2, qB, qC);
  }

  // ----- Rows

  lemma NumeratorIs(s: seq<I64>, qLn2: I64, qB: I64, qC: I64, i: nat)
    requires Admitted(s, qLn2, qB, qC) && i < |s|
    ensures Shiftable(s) && s[i] <= RowMax(s) && qLn2 >= 1
    ensures Numerators(s, qLn2, qB, qC)[i] == ExpOf(RowMax(s) - s[i], qLn2, qB, qC)
  {
    AdmittedRow(s, qLn2, qB, qC);
    ExponentialIs(s, qLn2, qB, qC, i);
    SameAt(Numerators(s, qLn2, qB, qC), Exponentials(s, qLn2, qB, qC), i);
  }

  lemma SameAt(a: seq<int>, b: seq<int>, i: nat)
    requires a == b && i < |a|
    ensures a[i] == b[i]
  {}

  lemma ExponentialIs(s: seq<I64>, qLn2: I64, qB: I64, qC: I64, i: nat)
    requires Admitted(s, qLn2, qB, qC) && i < |s|
    ensures s[i] <= RowMax(s) && qLn2 >= 1 && |Exponentials(s, qLn2, qB, qC)| == |s|
    ensures Exponentials(s, qLn2, qB, qC)[i] == ExpOf(RowMax(s) - s[i], qLn2, qB, qC)
  {
    RowMaxIsMaximum(s);
  }

  /** The numerators of an admitted row: the peak at the maximum, and the peak over 2^30 from 30 times ln 2 on. */
  lemma NumeratorsAtEnds(s: seq<I64>, qLn2: I64, qB: I64, qC: I64, i: nat)
    requires Admitted(s, qLn2, qB, qC) && i < |s|
    ensures Shiftable(s)
    ensures s[i] == RowMax(s) ==> Numerators(s, qLn2, qB, qC)[i] == qB * qB + qC
    ensures RowMax(s) - s[i] >= 30 * qLn2 ==> Numerators(s, qLn2, qB, qC)[i] == (qB * qB + qC) / 0x4000_0000
  {
    NumeratorIs(s, qLn2, qB, qC, i);
    AdmittedBounds(RowMax(s) - s[i], qLn2, qB, qC);
    if RowMax(s) - s[i] >= 30 * qLn2 { ExpFar(RowMax(s) - s[i], qLn2, qB, qC); }
  }

  predicate HalfAt(e: seq<int>, i: nat, j: nat) { i < |e| && j < |e| && e[j] == e[i] / 2 }

  /** In between, a score one ln 2 lower has half the numerator. */
  lemma NumeratorsHalve(s: seq<I64>, qLn2: I64, qB: I64, qC: I64, i: nat, j: nat)
    requires Admitted(s, qLn2, qB, qC) && i < |s| && j < |s|
    requires s[j] == s[i] - qLn2 && RowMax(s) - s[j] <= 30 * qLn2
    ensures Shiftable(s) && HalfAt(Numerators(s, qLn2, qB, qC), i, j)
  {
    var exp := RowExp(s, qLn2, qB, qC);
    HalvesWith(exp, s, Numerators(s, qLn2, qB, qC), i, j, qLn2);
  }

  /** Numerators that are one function of the distance, halving with every ln 2. */
  ghost predicate Follows(e: seq<int>, exp: int -> int, s: seq<I64>, qLn2: int) {
    && s != [] && |e| == |s| && (forall k :: 0 <= k < |s| ==> e[k] == exp(RowMax(s) - s[k]))
    && forall a, b :: 0 <= a && b == a + qLn2 <= 30 * qLn2 ==> exp(b) == exp(a) / 2
  }

  /** The one function an admitted row's numerators are of their distances. */
  lemma RowExp(s: seq<I64>, qLn2: I64, qB: I64, qC: I64) returns (exp: int -> int)
    requires Admitted(s, qLn2, qB, qC)
    ensures Shiftable(s)
    ensures Follows(Numerators(s, qLn2, qB, qC), exp, s, qLn2)
  {
    exp := ExpFrom(qLn2, qB, qC);
    NumeratorsAre(s, qLn2, qB, qC);
    forall a, b | 0 <= a && b == a + qLn2 <= 30 * qLn2 ensures exp(b) == exp(a) / 2 {
      ExpFromHalves(qLn2, qB, qC, a, b);
    }
  }

  lemma NumeratorsAre(s: seq<I64>, qLn2: I64, qB: I64, qC: I64)
    requires Admitted(s, qLn2, qB, qC)
    ensures Shiftable(s)
    ensures forall k :: 0 <= k < |s| ==> Numerators(s, qLn2, qB, qC)[k] == ExpFrom(qLn2, qB, qC)(RowMax(s) - s[k])
  {
    AdmittedRow(s, qLn2, qB, qC);
    forall k | 0 <= k < |s|
      ensures Numerators(s, qLn2, qB, qC)[k] == ExpFrom(qLn2, qB, qC)(RowMax(s) - s[k])
    {
      NumeratorIs(s, qLn2, qB, qC, k);
    }
  }

  lemma HalfBeyond(a: int, b: int, qLn2: int, qB: int, qC: int)
    requires qLn2 >= 1 && a >= 0 && b == a + qLn2 <= 30 * qLn2
    ensures ExpOf(b, qLn2, qB, qC) == ExpOf(a, qLn2, qB, qC) / 2
  {
    ExpHalves(a, qLn2, qB, qC);
  }

  lemma ExpFromHalves(qLn2: int, qB: int, qC: int, a: int, b: int)
    requires qLn2 >= 1 && a >= 0 && b == a + qLn2 <= 30 * qLn2
    ensures ExpFrom(qLn2, qB, qC)(b) == ExpFrom(qLn2, qB, qC)(a) / 2
  {
    HalfBeyond(a, b, qLn2, qB, qC);
  }

  lemma HalvesWith(exp: int -> int, s: seq<I64>, e: seq<int>, i: nat, j: nat, qLn2: int)
    requires i < |s| && j < |s| && Follows(e, exp, s, qLn2)
    requires s[j] == s[i] - qLn2 && RowMax(s) - s[j] <= 30 * qLn2
    ensures HalfAt(e, i, j)
  {
    RowMaxIsMaximum(s);
    var a, b := RowMax(s) - s[i], RowMax(s) - s[j];
    assert exp(b) == exp(a) / 2;
  }

  /** A share is the floor of its numerator's part of the row's total in Q15. */
  lemma SharesAreFloors(e: seq<int>, k: nat)
    requires k < |e| && forall j :: 0 <= j < |e| ==> e[j] >= 0
    ensures var d := if Sum(e) < 1 then 1 else Sum(e);
            Probabilities(e)[k] * d <= e[k] * 0x8000 < Probabilities(e)[k] * d + d
  {
    DivBounds(e[k] * 0x8000, Denominator(e));
  }

  /** The caller's gate, for a usable peak: width times peak stays below 2^63. */
  lemma GateIs(s: seq<I64>, qB: int, qC: int)
    requires 1 <= qB * qB + qC <= 0x8000_0000_0000
    ensures SumFits(s, qB, qC) <==> |s| * (qB * qB + qC) < 0x8000_0000_0000_0000
  {}
}
