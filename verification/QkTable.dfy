/** The whole QK channel table: what the converter emits (tools/convert_model.py lines 141-168 and 343-355) is what
the loader's relation check accepts (src/model.cpp lines 1514-1573). A table is a sequence of heads in row order. */
module QkTable {
  import opened Arith
  import opened Wrappers
  import opened ExactScale
  import opened QkScale
  import Reciprocal

  datatype Row = Row(bits: nat, r: int, e: int, ratio: int)

  /** One head: its channel rows and the softmax_khead entry of the composition constants, if present. */
  datatype Head = Head(rows: seq<Row>, carried: Option<Scale>)

  // ----- What every field must be

  predicate Sources(bits: seq<nat>) { |bits| > 0 && forall k :: 0 <= k < |bits| ==> PositiveFinite(bits[k]) }

  function Larger(x: real, y: real): real { if x < y then y else x }

  function MaxValue(bits: seq<nat>): (m: real)
    requires Sources(bits)
    ensures forall k :: 0 <= k < |bits| ==> ValueOf(bits[k]) <= m
    ensures exists k :: 0 <= k < |bits| && ValueOf(bits[k]) == m
  {
    if |bits| == 1 then ValueOf(bits[0]) else Larger(MaxValue(bits[..|bits| - 1]), ValueOf(bits[|bits| - 1]))
  }

  function BitsOf(rows: seq<Row>): (b: seq<nat>)
    ensures |b| == |rows| && forall k :: 0 <= k < |rows| ==> b[k] == rows[k].bits
  {
    seq(|rows|, k requires 0 <= k < |rows| => rows[k].bits)
  }

  /** The row holds the reciprocal and exponent of its source's canonical scale and its rounded ratio to the maximum. */
  ghost predicate RowDerived(row: Row, max: real)
    requires PositiveFinite(row.bits) && max > 0.0
  {
    && row.ratio == HalfUp(RatioOf(ValueOf(row.bits), max))
    && exists m :: IsScaleOf(Scale(m, row.e), ValueOf(row.bits)) && Reciprocates(row.r, m)
  }

  predicate Reciprocates(r: int, m: int) { m > 0 && r == Reciprocal.RoundedReciprocal(m) }

  lemma ValuePositive(bits: nat)
    requires PositiveFinite(bits)
    ensures ValueOf(bits) > 0.0
  {
    var field := bits / 0x10_0000_0000_0000;
    if field == 0 { Positive((bits % 0x10_0000_0000_0000) as real, P2(-1074)); }
    else { Positive((0x10_0000_0000_0000 + bits % 0x10_0000_0000_0000) as real, P2(field - 1075)); }
  }

  lemma MaxPositive(bits: seq<nat>)
    requires Sources(bits)
    ensures MaxValue(bits) > 0.0
  {
    ValuePositive(bits[0]);
  }

  ghost predicate HeadDerived(h: Head)
    requires Sources(BitsOf(h.rows)) && MaxValue(BitsOf(h.rows)) > 0.0
  {
    var max := MaxValue(BitsOf(h.rows));
    && (forall k :: 0 <= k < |h.rows| ==> RowDerived(h.rows[k], max))
    && h.carried.Some? && IsScaleOf(h.carried.value, Carried(max))
  }

  // ----- The loader

  lemma OrderedByFields(a: Binary, b: Binary)
    requires a.Valid() && b.Valid()
    ensures NoLarger(a, b) <==> a.Value() <= b.Value()
  {
    if a.exponent < b.exponent {
      FieldBelow(a, b);
    } else if b.exponent < a.exponent {
      FieldBelow(b, a);
    } else {
      ProdMono(a.significand as real, b.significand as real, P2(a.exponent));
    }
  }

  lemma FieldBelow(a: Binary, b: Binary)
    requires a.Valid() && b.Valid() && a.exponent < b.exponent
    ensures a.Value() < b.Value()
  {
    BinaryIsNormal(a);
    BinaryIsNormal(b);
    P2Mono(a.exponent + 22 + 31, b.exponent + 22 + 30);
  }

  method LoaderMax(rows: seq<Row>) returns (headMax: Binary)
    requires Sources(BitsOf(rows)) && forall k :: 0 <= k < |rows| ==> rows[k].bits < 0x1_0000_0000_0000_0000
    ensures headMax.Valid() && headMax.Value() == MaxValue(BitsOf(rows))
  {
    ghost var bits := BitsOf(rows);
    headMax := Binary(0, 0);
    for d := 0 to |rows|
      invariant d > 0 ==> headMax.Valid() && headMax.Value() == MaxValue(bits[..d])
    {
      assert bits[d] == rows[d].bits;
      var source := DecodeExactPositiveBinary64(rows[d].bits);
      if d > 0 {
        OrderedByFields(source, headMax);
        assert bits[..d + 1][..d] == bits[..d];
      }
      if d == 0 || source.exponent > headMax.exponent
         || (source.exponent == headMax.exponent && source.significand > headMax.significand) {
        headMax := source;
      }
    }
    assert bits[..|rows|] == bits;
  }

  method RowMatches(row: Row, headMax: Binary) returns (ok: bool)
    requires PositiveFinite(row.bits) && headMax.Valid() && 0.0 < headMax.Value()
        && ValueOf(row.bits) <= headMax.Value()
    ensures ok <==> RowDerived(row, headMax.Value())
  {
    var source := DecodeExactPositiveBinary64(row.bits);
    var target := LoaderScale(source);
    BinaryIsNormal(source);
    LoaderAgrees(source, source.exponent + 22);
    CanonicalRange(source.Value(), source.exponent + 22);
    assert IsScaleOf(target, ValueOf(row.bits));
    var expectedR := Reciprocal.DynamicScaleReciprocal(target.m);
    OrderedByFields(source, headMax);
    var expectedRatio := DeriveQ31Ratio(source, headMax);
    ok := row.r == expectedR && row.e == target.e && row.ratio == expectedRatio;
    RowDecided(row, target, headMax.Value());
  }

  lemma RowDecided(row: Row, target: Scale, max: real)
    requires PositiveFinite(row.bits) && max > 0.0 && IsScaleOf(target, ValueOf(row.bits))
    ensures RowDerived(row, max) <==>
            && Reciprocates(row.r, target.m) && row.e == target.e
            && row.ratio == HalfUp(RatioOf(ValueOf(row.bits), max))
  {
    if RowDerived(row, max) {
      var m :| IsScaleOf(Scale(m, row.e), ValueOf(row.bits)) && Reciprocates(row.r, m);
      ScaleUnique(target, Scale(m, row.e), ValueOf(row.bits));
    }
    if row.e == target.e { assert Scale(target.m, row.e) == target; }
  }

  /** The relation check of one head. */
  method HeadMatches(h: Head) returns (ok: bool)
    requires Sources(BitsOf(h.rows)) && MaxValue(BitsOf(h.rows)) > 0.0
    ensures ok <==> HeadDerived(h)
  {
    var headMax := LoaderMax(h.rows);
    ghost var max := MaxValue(BitsOf(h.rows));
    for d := 0 to |h.rows|
      invariant forall k :: 0 <= k < d ==> RowDerived(h.rows[k], max)
    {
      var matches := RowMatches(h.rows[d], headMax);
      if !matches { return false; }
    }
    var expected, e := DeriveHeadCarried(headMax);
    assert IsScaleOf(expected, Carried(max));
    ok := h.carried.Some? && h.carried.value == expected;
    if h.carried.Some? && IsScaleOf(h.carried.value, Carried(max)) {
      ScaleUnique(h.carried.value, expected, Carried(max));
    }
  }

  ghost predicate Loadable(heads: seq<Head>) {
    forall h :: 0 <= h < |heads| ==> Sources(BitsOf(heads[h].rows)) && MaxValue(BitsOf(heads[h].rows)) > 0.0
  }

  /** The loader accepts exactly the tables whose every field is the one derived from its source bits. */
  method ValidateRelations(heads: seq<Head>) returns (ok: bool)
    requires Loadable(heads)
    ensures ok <==> forall h :: 0 <= h < |heads| ==> HeadDerived(heads[h])
  {
    for h := 0 to |heads|
      invariant forall k :: 0 <= k < h ==> HeadDerived(heads[k])
    {
      var matches := HeadMatches(heads[h]);
      if !matches { return false; }
    }
    ok := true;
  }

  // ----- The converter

  /** A Python Fraction, not necessarily reduced: no result below depends on the reduction. */
  datatype Fraction = Fraction(num: int, den: int)

  ghost predicate Denotes(f: Fraction, v: real) { f.den > 0 && Prod(v, f.den as real) == f.num as real }

  function FractionOf(bits: nat): Fraction
    requires PositiveFinite(bits)
  {
    var field, fraction := bits / 0x10_0000_0000_0000, bits % 0x10_0000_0000_0000;
    var s, e := if field == 0 then fraction else 0x10_0000_0000_0000 + fraction, if field == 0 then -1074
        else field - 1075;
    if e >= 0 then Fraction(s * Pow2(e), 1) else Fraction(s, Pow2(-e))
  }

  lemma FractionIsExact(bits: nat)
    requires PositiveFinite(bits)
    ensures Denotes(FractionOf(bits), ValueOf(bits)) && FractionOf(bits).num > 0
  {
    var field, fraction := bits / 0x10_0000_0000_0000, bits % 0x10_0000_0000_0000;
    var s, e := if field == 0 then fraction else 0x10_0000_0000_0000 + fraction, if field == 0 then -1074
        else field - 1075;
    assert ValueOf(bits) == Prod(s as real, P2(e)) && s > 0;
    if e >= 0 { WholeFraction(s, e); } else { PartFraction(s, -e); }
  }

  lemma WholeFraction(s: int, e: nat)
    requires s > 0
    ensures Prod(Prod(s as real, P2(e)), 1.0) == (s * Pow2(e)) as real && s * Pow2(e) > 0
  {
    P2Add(0, e);
    assert P2(0) == 1.0 && Prod(Pow2(e) as real, 1.0) == Pow2(e) as real;
    ProdOfInts(s, Pow2(e));
    MulMono(1, s, Pow2(e));
  }

  lemma PartFraction(s: int, k: int)
    requires k >= 0
    ensures Prod(Prod(s as real, P2(-k)), Pow2(k) as real) == s as real
  {
    P2Add(-k, k);
    assert -k + k == 0 && P2(0) == 1.0;
    ProdAssoc(s as real, P2(-k), Pow2(k) as real);
    ProdSwap(P2(-k), Pow2(k) as real);
  }

  /** Cross-multiplied numerator and denominator round to the exact ratio. */
  lemma FractionRatio(s: Fraction, h: Fraction, source: real, max: real)
    requires Denotes(s, source) && Denotes(h, max) && h.num > 0 && max > 0.0
    ensures s.den * h.num > 0
    ensures RoundNearestAway(s.num * h.den * 0x8000_0000, s.den * h.num) == HalfUp(RatioOf(source, max))
  {
    var n, d, x := s.num * h.den * 0x8000_0000, s.den * h.num, RatioOf(source, max);
    MulMono(1, s.den, h.num);
    CrossProduct(x, source, max, s.num, s.den, h.num, h.den);
    RoundedQuotient(x, n, d);
    RoundNearestAwayIsHalfUp(n, d);
  }

  lemma CrossProduct(x: real, source: real, max: real, sn: int, sd: int, hn: int, hd: int)
    requires Prod(source, sd as real) == sn as real && Prod(max, hd as real) == hn as real
    requires Prod(x, max) == 2147483648.0 * source
    ensures Prod(x, (sd * hn) as real) == (sn * hd * 0x8000_0000) as real
  {
    var a, b, c, e := sd as real, hd as real, sn as real, hn as real;
    assert (sd * hn) as real == a * e && (sn * hd * 0x8000_0000) as real == c * b * 2147483648.0;
    assert x * (a * (max * b)) == (x * max) * (a * b);
    assert (2147483648.0 * source) * (a * b) == 2147483648.0 * (source * a) * b;
  }

  /** The largest source, compared as Fractions. */
  method ConverterMax(bits: seq<nat>) returns (max: nat)
    requires Sources(bits)
    ensures PositiveFinite(max) && ValueOf(max) == MaxValue(bits)
  {
    max := bits[0];
    assert bits[..1] == [bits[0]];
    for k := 1 to |bits|
      invariant PositiveFinite(max) && ValueOf(max) == MaxValue(bits[..k])
    {
      MaxStep(bits, k);
      if ValueOf(bits[k]) > ValueOf(max) { max := bits[k]; }
    }
    assert bits[..|bits|] == bits;
  }

  lemma MaxStep(bits: seq<nat>, k: nat)
    requires Sources(bits) && 0 < k < |bits|
    ensures MaxValue(bits[..k + 1]) == Larger(MaxValue(bits[..k]), ValueOf(bits[k]))
  {
    assert bits[..k + 1][..k] == bits[..k];
  }

  /** The two reasons the converter still has to reject a positive finite source. */
  ghost predicate RowAdmitted(bits: nat, max: real)
    requires PositiveFinite(bits) && max > 0.0
  {
    && HalfUp(RatioOf(ValueOf(bits), max)) != 0
    && exists s :: IsScaleOf(s, ValueOf(bits)) && s.e >= -60
  }

  datatype RowResult = Rejected | Built(row: Row)

  /** One channel: the ratio and landing checks in the converter's order. Its upper checks on the ratio and the
      reciprocal never reject. */
  method BuildRow(bits: nat, max: nat, start: int) returns (result: RowResult)
    requires PositiveFinite(bits) && PositiveFinite(max) && ValueOf(bits) <= ValueOf(max) && ValueOf(max) > 0.0
    ensures result.Built? <==> RowAdmitted(bits, ValueOf(max))
    ensures result.Built? ==> result.row.bits == bits && RowDerived(result.row, ValueOf(max))
  {
    var source, top := FractionOf(bits), FractionOf(max);
    FractionIsExact(bits);
    FractionIsExact(max);
    FractionRatio(source, top, ValueOf(bits), ValueOf(max));
    var ratio := RoundNearestAway(source.num * top.den * 0x8000_0000, source.den * top.num);
    RatioAtMostOne(ValueOf(bits), ValueOf(max));
    if ratio == 0 { return Rejected; }
    if ratio > 0x8000_0000 { return Rejected; }
    ValuePositive(bits);
    var scale, e := CanonicalScale(ValueOf(bits), start);
    assert IsScaleOf(scale, ValueOf(bits));
    CanonicalRange(ValueOf(bits), e);
    var r := (0x8000_0000_0000_0000 + scale.m) / (2 * scale.m);
    Reciprocal.ReciprocalRange(scale.m);
    assert Reciprocates(r, scale.m) && Scale(scale.m, scale.e) == scale;
    if scale.e < -60 || !(0x8000_0000 + 1 <= r <= 0x1_0000_0000) {
      if RowAdmitted(bits, ValueOf(max)) {
        ghost var s :| IsScaleOf(s, ValueOf(bits)) && s.e >= -60;
        ScaleUnique(s, scale, ValueOf(bits));
      }
      return Rejected;
    }
    result := Built(Row(bits, r, scale.e, ratio));
  }

  lemma RatioAtMostOne(source: real, max: real)
    requires 0.0 < max && source <= max
    ensures HalfUp(RatioOf(source, max)) <= 0x8000_0000
  {
    ProdMono(RatioOf(source, max), 2147483648.0, max);
  }

  /** The heads the converter does not reject. */
  ghost predicate Admitted(bits: seq<nat>) {
    Sources(bits) && MaxValue(bits) > 0.0 && forall k :: 0 <= k < |bits| ==> RowAdmitted(bits[k], MaxValue(bits))
  }

  datatype HeadResult = HeadRejected | HeadBuilt(head: Head)

  /** One head of the table and its softmax_khead entry. */
  method BuildHead(bits: seq<nat>, start: int) returns (result: HeadResult)
    requires |bits| > 0
    ensures result.HeadBuilt? <==> Admitted(bits)
    ensures result.HeadBuilt? ==> BitsOf(result.head.rows) == bits && Sources(bits) && MaxValue(bits) > 0.0
    ensures result.HeadBuilt? ==> HeadDerived(result.head)
  {
    for k := 0 to |bits|
      invariant forall j :: 0 <= j < k ==> PositiveFinite(bits[j])
    {
      if !PositiveFinite(bits[k]) { return HeadRejected; }
    }
    MaxPositive(bits);
    var max := ConverterMax(bits);
    var rows := BuildRows(bits, max, start);
    if rows.None? { return HeadRejected; }
    var v := Carried(ValueOf(max));
    CarriedPositive(ValueOf(max));
    var scale, e := CanonicalScale(v, start);
    result := HeadBuilt(Head(rows.value, Some(scale)));
  }

  /** A row of an admitted source, with every field derived from it. */
  ghost predicate RowBuilt(row: Row, bits: nat, max: real)
    requires max > 0.0
  {
    row.bits == bits && PositiveFinite(bits) && RowAdmitted(bits, max) && RowDerived(row, max)
  }

  /** The channel rows, up to the first one out of its domain. */
  method BuildRows(bits: seq<nat>, max: nat, start: int) returns (rows: Option<seq<Row>>)
    requires Sources(bits) && MaxValue(bits) > 0.0 && PositiveFinite(max) && ValueOf(max) == MaxValue(bits)
    ensures rows.Some? <==> forall k :: 0 <= k < |bits| ==> RowAdmitted(bits[k], MaxValue(bits))
    ensures rows.Some? ==> BitsOf(rows.value) == bits
    ensures rows.Some? ==> forall k :: 0 <= k < |bits| ==> RowDerived(rows.value[k], MaxValue(bits))
  {
    var done: seq<Row> := [];
    for k := 0 to |bits|
      invariant |done| == k && forall j :: 0 <= j < k ==> RowBuilt(done[j], bits[j], MaxValue(bits))
    {
      var built := BuildRow(bits[k], max, start);
      if built.Rejected? { return None; }
      done := done + [built.row];
    }
    forall j | 0 <= j < |bits| ensures done[j].bits == bits[j] { assert RowBuilt(done[j], bits[j], MaxValue(bits)); }
    assert BitsOf(done) == bits;
    rows := Some(done);
  }

  lemma CarriedPositive(max: real)
    requires max > 0.0
    ensures Carried(max) > 0.0
  {
    Positive(max, SQRT128_DEN as real);
    ProdMono(0.0, Carried(max), SQRT128_NUM as real);
    assert Prod(0.0, SQRT128_NUM as real) == 0.0;
  }

  /** Converting then loading: the table is complete exactly when every head is admitted, it then carries the source
      bits it was built from, and the loader accepts it. */
  method ConvertThenLoad(sources: seq<seq<nat>>, start: int) returns (built: seq<Head>, complete: bool, accepted: bool)
    requires forall h :: 0 <= h < |sources| ==> |sources[h]| > 0
    ensures complete <==> forall h :: 0 <= h < |sources| ==> Admitted(sources[h])
    ensures complete ==> accepted && |built| == |sources|
    ensures complete ==> forall h :: 0 <= h < |sources| ==> BitsOf(built[h].rows) == sources[h]
  {
    built, complete, accepted := [], true, false;
    for h := 0 to |sources|
      invariant |built| == h && forall k :: 0 <= k < h ==> BuiltFrom(built[k], sources[k])
    {
      var head := BuildHead(sources[h], start);
      if head.HeadRejected? {
        assert !Admitted(sources[h]);
        return built, false, false;
      }
      built := built + [head.head];
    }
    assert forall k :: 0 <= k < |built| ==> BuiltFrom(built[k], sources[k]);
    accepted := ValidateRelations(built);
  }

  /** A head derived from these source bits. */
  ghost predicate BuiltFrom(h: Head, bits: seq<nat>) {
    BitsOf(h.rows) == bits && Admitted(bits) && HeadDerived(h)
  }

  /** A head is determined by its source bits. */
  lemma OneHeadPerSources(a: Head, b: Head)
    requires BitsOf(a.rows) == BitsOf(b.rows) && Sources(BitsOf(a.rows)) && MaxValue(BitsOf(a.rows)) > 0.0
    requires HeadDerived(a) && HeadDerived(b)
    ensures a == b
  {
    var bits := BitsOf(a.rows);
    ScaleUnique(a.carried.value, b.carried.value, Carried(MaxValue(bits)));
    forall k | 0 <= k < |a.rows| ensures a.rows[k] == b.rows[k] {
      assert bits[k] == a.rows[k].bits && BitsOf(b.rows)[k] == b.rows[k].bits;
      OneRowPerSource(a.rows[k], b.rows[k], MaxValue(bits));
    }
  }

  lemma OneRowPerSource(a: Row, b: Row, max: real)
    requires a.bits == b.bits && PositiveFinite(a.bits) && max > 0.0 && RowDerived(a, max) && RowDerived(b, max)
    ensures a == b
  {
    var m :| IsScaleOf(Scale(m, a.e), ValueOf(a.bits)) && Reciprocates(a.r, m);
    var n :| IsScaleOf(Scale(n, b.e), ValueOf(a.bits)) && Reciprocates(b.r, n);
    ScaleUnique(Scale(m, a.e), Scale(n, b.e), ValueOf(a.bits));
  }

  // ----- What an accepted row's numbers are

  /** The ratio is the nearest integer to 2^31 times the source over the maximum; the maximum's own is 2^31. */
  lemma RatioIsNearest(row: Row, max: real)
    requires PositiveFinite(row.bits) && max > 0.0 && RowDerived(row, max)
    ensures -0.5 * max <= Prod(row.ratio as real, max) - 2147483648.0 * ValueOf(row.bits) <= 0.5 * max
    ensures ValueOf(row.bits) == max ==> row.ratio == 0x8000_0000
  {
    var x := RatioOf(ValueOf(row.bits), max);
    HalfUpIsNear(x);
    ScaledGap(row.ratio as real, x, max);
    if ValueOf(row.bits) == max { WholeRatio(x, max); }
  }

  lemma HalfUpIsNear(x: real)
    ensures -0.5 < HalfUp(x) as real - x <= 0.5
  {}

  lemma ScaledGap(r: real, x: real, max: real)
    requires -0.5 <= r - x <= 0.5 && max > 0.0
    ensures -0.5 * max <= Prod(r, max) - Prod(x, max) <= 0.5 * max
  {
    var gap := r - x;
    assert Prod(r, max) - Prod(x, max) == Prod(gap, max);
    ProdMono(-0.5, gap, max);
    ProdMono(gap, 0.5, max);
  }

  lemma WholeRatio(x: real, max: real)
    requires max > 0.0 && Prod(x, max) == 2147483648.0 * max
    ensures x == 2147483648.0
  {
    if x < 2147483648.0 { ProdLess(x, 2147483648.0, max); }
    if x > 2147483648.0 { ProdLess(2147483648.0, x, max); }
  }

  lemma ProdLess(x: real, y: real, p: real)
    requires x < y && p > 0.0
    ensures Prod(x, p) < Prod(y, p)
  {
    Positive(y - x, p);
    assert Prod(y, p) - Prod(x, p) == Prod(y - x, p);
  }

  /** The row's reciprocal is that of a mantissa within half a unit of the source, and the rounded 2^62 over it. */
  lemma ReciprocalIsNearest(row: Row, max: real)
    requires PositiveFinite(row.bits) && max > 0.0 && RowDerived(row, max)
    ensures exists m :: IsScaleOf(Scale(m, row.e), ValueOf(row.bits)) && m > 0
                        && -m <= 2 * (0x4000_0000_0000_0000 - row.r * m) < m
  {
    var m :| IsScaleOf(Scale(m, row.e), ValueOf(row.bits)) && Reciprocates(row.r, m);
    Reciprocal.RoundedByResidual(m, row.r);
  }
}
