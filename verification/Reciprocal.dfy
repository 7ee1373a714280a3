/** The division-free reciprocal of src/intmath.cpp lines 330-391.

`DynamicScaleReciprocal` runs the code's seed, three floored Newton steps and two unit
corrections on the two-word facility of `Wide128`. The proof follows the residual
`e = 2^62 - dn * y`: one Newton step squares it exactly, up to two floor terms. */
module Reciprocal {
  import opened Arith
  import opened Wide128

  /** The canonical denominators: `NormalizeScale` produces no others. */
  predicate Canonical(dn: int) { 0x4000_0000 <= dn < 0x8000_0000 }

  /** round_half_up(2^62 / dn), by division. */
  function RoundedReciprocal(dn: int): int
    requires dn > 0
  {
    (0x8000_0000_0000_0000 + dn) / (2 * dn)
  }

  const SEED_OFFSET: int := 6063483241
  const SEED_SLOPE: int := 4042322161

  /** The seed's product is formed in 64 unsigned bits and read back as signed, as the code forms it. */
  function Seed(dn: I64): int {
    SEED_OFFSET - WrapI64(WrapU64(SEED_SLOPE * WrapU64(dn))) / 0x8000_0000
  }

  function Residual(dn: int, y: int): int { 0x4000_0000_0000_0000 - dn * y }

  /** A bound on the residual's magnitude before Newton step `i`. */
  function ResidualBound(i: nat): int {
    if i == 0 then 0x3c3c3c587878788 else if i == 1 then 0x38b12b5740aa21 else 0x3239764c8922
  }

  method DynamicScaleReciprocal(dn: I64) returns (y: I64)
    requires Canonical(dn)
    ensures y == RoundedReciprocal(dn)
  {
    SeedResidual(dn);
    y := Seed(dn);
    for i := 0 to 3
      invariant -0x8000_0000_0000_0000 <= y < 0x8000_0000_0000_0000
      invariant i < 3 ==> Abs(Residual(dn, y)) <= ResidualBound(i)
      invariant i == 3 ==> -5 * dn <= 2 * Residual(dn, y) < 5 * dn
    {
      y := NewtonIteration(dn, y, i);
    }
    for i := 0 to 2
      invariant -0x8000_0000_0000_0000 <= y < 0x8000_0000_0000_0000
      invariant -(5 - 2 * i) * dn <= 2 * Residual(dn, y) < (5 - 2 * i) * dn
    {
      y := Correction(dn, y);
    }
    RoundedByResidual(dn, y);
  }

  method NewtonIteration(dn: I64, y: I64, ghost i: nat) returns (next: I64)
    requires Canonical(dn) && i < 3 && Abs(Residual(dn, y)) <= ResidualBound(i)
    ensures i < 2 ==> Abs(Residual(dn, next)) <= ResidualBound(i + 1)
    ensures i == 2 ==> -5 * dn <= 2 * Residual(dn, next) < 5 * dn
  {
    NewtonWords(dn, y, ResidualBound(i));
    NewtonStep(dn, y, ResidualBound(i));
    var dnY := SShrToI64(SMul(dn, y), 31);
    var delta := 0x1_0000_0000 - dnY;
    next := SShrToI64(SMul(y, delta), 31);
    BoundShrinks(dn, i, Residual(dn, next));
  }

  method Correction(dn: I64, y: I64) returns (next: I64)
    requires Canonical(dn) && -5 * dn <= 2 * Residual(dn, y) < 5 * dn
    ensures 2 * Residual(dn, y) >= dn ==> Residual(dn, next) == Residual(dn, y) - dn
    ensures 2 * Residual(dn, y) < -dn ==> Residual(dn, next) == Residual(dn, y) + dn
    ensures -dn <= 2 * Residual(dn, y) < dn ==> next == y
  {
    CorrectionWords(dn, y);
    var residual2x := STwice(SSub(SFromI64(0x4000_0000_0000_0000), SMul(y, dn)));
    if SGe(residual2x, SFromI64(dn)) {
      next := y + 1;
    } else if SLt(residual2x, SFromI64(-dn)) {
      next := y - 1;
    } else {
      next := y;
    }
  }

  /** The rounded quotient is the one value whose doubled residual lies in [-dn, dn). */
  lemma RoundedByResidual(dn: int, y: int)
    requires dn > 0
    ensures -dn <= 2 * Residual(dn, y) < dn <==> y == RoundedReciprocal(dn)
  {
    DivBounds(0x8000_0000_0000_0000 + dn, 2 * dn);
    var q := RoundedReciprocal(dn);
    assert q * (2 * dn) == 2 * (dn * q) && y * (2 * dn) == 2 * (dn * y);
    if -dn <= 2 * Residual(dn, y) < dn { DivUnique(0x8000_0000_0000_0000 + dn, 2 * dn, y); }
  }

  /** Every reciprocal of a canonical mantissa lies in [2^31 + 1, 2^32], and both ends are reached. */
  lemma ReciprocalRange(dn: int)
    requires Canonical(dn)
    ensures 0x8000_0000 + 1 <= RoundedReciprocal(dn) <= 0x1_0000_0000
    ensures RoundedReciprocal(0x4000_0000) == 0x1_0000_0000 && RoundedReciprocal(0x8000_0000 - 1) == 0x8000_0000 + 1
  {
    RoundedByResidual(dn, RoundedReciprocal(dn));
    RoundedByResidual(0x4000_0000, 0x1_0000_0000);
    RoundedByResidual(0x8000_0000 - 1, 0x8000_0000 + 1);
    var r := RoundedReciprocal(dn);
    if r <= 0x8000_0000 { MulMono(r, 0x8000_0000, dn); assert false; }
    if r > 0x1_0000_0000 { MulMono(0x1_0000_0000 + 1, r, dn); assert false; }
  }

  // ----- The seed

  /** The minimax line leaves a residual of at most about one seventeenth, because
      17 (2^62) - 48 2^31 dn + 32 dn^2 = 32 (dn - 3 2^29)^2 - 2^62. */
  lemma SeedResidual(dn: I64)
    requires Canonical(dn)
    ensures -0x8000_0000_0000_0000 <= Seed(dn) < 0x8000_0000_0000_0000
    ensures Abs(Residual(dn, Seed(dn))) <= ResidualBound(0)
  {
    var p := SEED_SLOPE * dn;
    Wrap(dn); Wrap(p); WrapI64Fits(p);
    var f, g := p / 0x8000_0000, p % 0x8000_0000;
    var y := SEED_OFFSET - f;
    var c := dn - 0x6000_0000;
    SquareBound(c, 0x2000_0000);
    ProductBound(dn, dn, 0x8000_0000, 0x8000_0000);
    ProductBound(g, dn, 0x8000_0000, 0x8000_0000);
    SeedIdentity(dn, y, f, g);
    SeedBound(dn, c * c, dn * dn, g * dn, 0x4000_0000_0000_0000 - dn * y);
  }

  /** The identity's right side, bounded with its products as given numbers. */
  lemma SeedBound(dn: int, cc: int, dd: int, gd: int, e: int)
    requires 0 < dn < 0x8000_0000 && 0 <= cc <= 0x400_0000_0000_0000 && 0 <= dd <= 0x4000_0000_0000_0000
        && 0 <= gd <= 0x4000_0000_0000_0000
    requires 17 * 0x8000_0000 * e
        == 0x8000_0000 * (32 * cc - 0x4000_0000_0000_0000) + (17 * SEED_SLOPE - 32 * 0x8000_0000) * dd
                               + (48 * 0x8000_0000 - 17 * SEED_OFFSET) * 0x8000_0000 * dn - 17 * gd
    ensures Abs(e) <= ResidualBound(0)
  {}

  lemma SeedIdentity(dn: int, y: int, f: int, g: int)
    requires y == SEED_OFFSET - f && SEED_SLOPE * dn == f * 0x8000_0000 + g
    ensures 17 * 0x8000_0000 * (0x4000_0000_0000_0000 - dn * y)
         == 0x8000_0000 * (32 * ((dn - 0x6000_0000) * (dn - 0x6000_0000)) - 0x4000_0000_0000_0000)
            + (17 * SEED_SLOPE - 32 * 0x8000_0000) * (dn * dn)
                + (48 * 0x8000_0000 - 17 * SEED_OFFSET) * 0x8000_0000 * dn - 17 * (g * dn)
  {
    assert dn * y == SEED_OFFSET * dn - dn * f;
    assert dn * f * 0x8000_0000 == SEED_SLOPE * (dn * dn) - g * dn by {
      assert dn * (f * 0x8000_0000) == dn * (SEED_SLOPE * dn - g);
    }
    assert (dn - 0x6000_0000) * (dn - 0x6000_0000) == dn * dn - 0xC000_0000 * dn + 0x6000_0000 * 0x6000_0000;
  }

  // ----- One Newton step

  /** The words of one step: no narrowing loses a bit. */
  lemma NewtonWords(dn: I64, y: I64, bound: int)
    requires Canonical(dn) && Abs(Residual(dn, y)) <= bound <= 0x4000_0000_0000_0000 / 16
    ensures 0x4000_0000 <= y <= 0x1_1000_0000
    ensures SShrToI64(SMul(dn, y), 31) == dn * y / 0x8000_0000
    ensures 0 <= 0x1_0000_0000 - dn * y / 0x8000_0000 <= 0x1_0000_0000
    ensures SShrToI64(SMul(y, 0x1_0000_0000 - dn * y / 0x8000_0000), 31)
        == y * (0x1_0000_0000 - dn * y / 0x8000_0000) / 0x8000_0000
  {
    if y < 0x4000_0000 { MulMono(y, 0x4000_0000 - 1, dn); assert false; }
    if y > 0x1_1000_0000 { MulMono(0x1_1000_0001, y, dn); assert false; }
    Pow2Values();
    SMulExact(dn, y);
    SShrExact(SMul(dn, y), 31);
    var delta := 0x1_0000_0000 - dn * y / 0x8000_0000;
    ProductBound(y, delta, 0x1_1000_0000, 0x1_0000_0000);
    SMulExact(y, delta);
    SShrExact(SMul(y, delta), 31);
  }

  /** The exact effect of one step: the residual squares, less one floor term and plus another. */
  lemma NewtonStep(dn: int, y: int, bound: int)
    requires Canonical(dn) && Abs(Residual(dn, y)) <= bound <= 0x4000_0000_0000_0000 / 16
    ensures var y' := y * (0x1_0000_0000 - dn * y / 0x8000_0000) / 0x8000_0000;
            -5 * dn <= 2 * Residual(dn, y')
            && 0x4000_0000_0000_0000 * Residual(dn, y') <= bound * bound + dn * 0x4000_0000_0000_0000
  {
    var q := dn * y;
    var f, r1 := q / 0x8000_0000, q % 0x8000_0000;
    var delta := 0x1_0000_0000 - f;
    var w := y * delta;
    var y', r2 := w / 0x8000_0000, w % 0x8000_0000;
    StepIdentity(dn, y, q, f, r1, y', r2);
    SquareBound(0x4000_0000_0000_0000 - q, bound);
    ProductBound(q, r1, 0x4000_0000_0000_0000 + bound, 0x8000_0000);
    ProductBound(dn, r2, dn, 0x8000_0000);
  }

  lemma StepIdentity(dn: int, y: int, q: int, f: int, r1: int, y': int, r2: int)
    requires q == dn * y && q == f * 0x8000_0000 + r1
    requires y * (0x1_0000_0000 - f) == y' * 0x8000_0000 + r2
    ensures 0x4000_0000_0000_0000 * (0x4000_0000_0000_0000 - dn * y')
        == (0x4000_0000_0000_0000 - q) * (0x4000_0000_0000_0000 - q) - q * r1 + dn * r2 * 0x8000_0000
  {
    assert dn * (y' * 0x8000_0000 + r2) == q * (0x1_0000_0000 - f) by { MulAssoc(dn, y, 0x1_0000_0000 - f); }
    assert dn * (y' * 0x8000_0000 + r2) == dn * y' * 0x8000_0000 + dn * r2;
    assert q * (0x1_0000_0000 - f) * 0x8000_0000 == q * (0x8000_0000_0000_0000 - q + r1) by {
      MulAssoc(q, 0x1_0000_0000 - f, 0x8000_0000);
    }
    SquareResidual(q, r1);
  }

  lemma SquareResidual(q: int, r: int)
    ensures q * (0x8000_0000_0000_0000 - q + r)
        == 0x4000_0000_0000_0000 * 0x4000_0000_0000_0000 - (0x4000_0000_0000_0000 - q) * (0x4000_0000_0000_0000 - q)
        + q * r
  {}

  lemma BoundShrinks(dn: int, i: nat, e: int)
    requires Canonical(dn) && i < 3
    requires -5 * dn <= 2 * e
        && 0x4000_0000_0000_0000 * e <= ResidualBound(i) * ResidualBound(i) + dn * 0x4000_0000_0000_0000
    ensures i < 2 ==> Abs(e) <= ResidualBound(i + 1)
    ensures i == 2 ==> 2 * e < 5 * dn
  {}

  // ----- The corrections

  /** The words of a correction hold the doubled residual itself. */
  lemma CorrectionWords(dn: I64, y: I64)
    requires Canonical(dn) && -5 * dn <= 2 * Residual(dn, y) < 5 * dn
    ensures 0x4000_0000 <= y <= 0x1_1000_0000
    ensures var r2x := STwice(SSub(SFromI64(0x4000_0000_0000_0000), SMul(y, dn)));
            (SGe(r2x, SFromI64(dn)) <==> 2 * Residual(dn, y) >= dn)
            && (SLt(r2x, SFromI64(-dn)) <==> 2 * Residual(dn, y) < -dn)
    ensures Residual(dn, y + 1) == Residual(dn, y) - dn && Residual(dn, y - 1) == Residual(dn, y) + dn
  {
    NewtonWords(dn, y, 0x4000_0000_0000_0000 / 16);
    SMulExact(y, dn);
    SFromI64Exact(0x4000_0000_0000_0000); SFromI64Exact(dn); SFromI64Exact(-dn);
    var r := SSub(SFromI64(0x4000_0000_0000_0000), SMul(y, dn));
    assert SVal(SMul(y, dn)) == dn * y;
    SSubExact(SFromI64(0x4000_0000_0000_0000), SMul(y, dn));
    SAddExact(r, r);
    SGeExact(STwice(r), SFromI64(dn));
    SGeExact(STwice(r), SFromI64(-dn));
  }
}
