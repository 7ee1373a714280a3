/** The QK channel table: built by the converter (tools/convert_model.py lines 110-169 and 343-355), rederived and
checked by the loader (src/model.cpp lines 1276-1312 and 1514-1573). */
module QkScale {
  import opened Arith
  import opened Wide128
  import opened ExactScale
  import opened QkDivide

  // ----- The ratio to the head maximum

  /** source / headMax * 2^31, exactly. */
  function RatioOf(source: real, headMax: real): (x: real)
    requires headMax > 0.0
    ensures Prod(x, headMax) == 2147483648.0 * source
  {
    2147483648.0 * source / headMax
  }

  /** The converter rounds the Fraction's numerator and denominator half up. */
  function RoundNearestAway(numerator: int, denominator: int): int
    requires denominator > 0
  {
    (2 * numerator + denominator) / (2 * denominator)
  }

  lemma RoundNearestAwayIsHalfUp(n: int, d: int)
    requires d > 0
    ensures RoundNearestAway(n, d) == HalfUpQuotient(n, d)
  {
    DivBounds(n, d);
    var q, r := n / d, n % d;
    if 2 * r >= d {
      assert 2 * n + d - (q + 1) * (2 * d) == 2 * r - d;
      DivUnique(2 * n + d, 2 * d, q + 1);
    } else {
      assert 2 * n + d - q * (2 * d) == 2 * r + d;
      DivUnique(2 * n + d, 2 * d, q);
    }
  }

  predicate NoLarger(source: Binary, headMax: Binary) {
    source.exponent < headMax.exponent
    || (source.exponent == headMax.exponent && source.significand <= headMax.significand)
  }

  /** Bit `bit` of the significand shifted left by `power`. */
  function ShiftedBit(significand: nat, power: nat, bit: nat): int {
    if bit >= power then significand / Pow2(bit - power) % 2 else 0
  }

  lemma ShiftedBitExact(significand: nat, power: nat, bit: nat)
    ensures ShiftedBit(significand, power, bit) == Times(significand, Pow2(power)) / Pow2(bit) % 2
  {
    if bit >= power {
      PowerSplit(bit - power, power);
      CommonFactor(significand, Pow2(bit - power), Pow2(power));
    } else {
      PowerSplit(power - bit - 1, bit + 1);
      assert Pow2(bit + 1) == 2 * Pow2(bit);
      EvenQuotient(significand, Pow2(power - bit - 1), Pow2(bit));
    }
  }

  lemma CommonFactor(a: int, b: int, k: int)
    requires b > 0 && k > 0
    ensures Times(b, k) > 0 && Times(a, k) / Times(b, k) == a / b
  {
    DivScale(a, b, k);
    Swap(a, k);
    Swap(b, k);
  }

  lemma Swap(a: int, k: int)
    ensures Times(a, k) == k * a
  {}

  lemma EvenQuotient(s: int, k: int, p: int)
    requires p > 0
    ensures Times(s, Times(k, 2 * p)) / p % 2 == 0
  {
    var m := 2 * (s * k);
    assert s * (k * (2 * p)) == m * p;
    DivUnique(m * p, p, m);
  }

  /** The left-shift branch: a bitwise division of the shifted significand. */
  method DivideShifted(significand: nat, divisor: nat, power: nat, ghost n: int) returns (quotient: U64, remainder: U64)
    requires 0x10_0000_0000_0000 <= significand < 0x20_0000_0000_0000
        && 0x10_0000_0000_0000 <= divisor < 0x20_0000_0000_0000 && power <= 31
    requires n == Times(significand, Pow2(power))
    ensures quotient == n / divisor && remainder == n % divisor
  {
    quotient, remainder := 0, 0;
    ghost var q := 0;
    ShiftedStart(significand, power);
    var bit := 52 + power;
    while bit >= 0
      invariant -1 <= bit <= 52 + power && 0 <= q && 0 <= remainder < divisor
      invariant n / Pow2(bit + 1) == q * divisor + remainder
      invariant quotient == Placed(q, bit + 1)
      decreases bit + 1
    {
      var b := ShiftedBit(significand, power, bit);
      ShiftedBitExact(significand, power, bit);
      NextPrefix(n, bit);
      DivisionStep(n / Pow2(bit + 1), n / Pow2(bit), divisor, q, remainder, b);
      PlacedNext(q, 0, bit);
      PlacedNext(q, 1, bit);
      PlacedFits(2 * q, bit);
      PlacedFits(2 * q + 1, bit);
      remainder := remainder * 2 + b;
      if remainder >= divisor {
        remainder := remainder - divisor;
        quotient := if bit < 64 then quotient + Pow2(bit) else quotient;
        q := 2 * q + 1;
      } else {
        q := 2 * q;
      }
      bit := bit - 1;
    }
    Finished(n, divisor, q, remainder);
    QuotientFits(significand, power, divisor, n);
  }

  method RoundHalfUp(quotient: int, remainder: int, divisor: int, ghost n: int) returns (ratio: int)
    requires divisor > 0 && quotient == n / divisor && remainder == n % divisor
    ensures ratio == HalfUpQuotient(n, divisor)
  {
    ratio := if remainder * 2 >= divisor then quotient + 1 else quotient;
  }

  lemma PlacedFits(q: int, b: nat)
    requires q >= 0
    ensures 0 <= Placed(q, b) < 0x1_0000_0000_0000_0000
  {
    if b < 64 {
      WordPower(64 - b, b);
      MulMono(0, q % Pow2(64 - b), Pow2(b));
      StrictMul(q % Pow2(64 - b), Pow2(64 - b), Pow2(b));
    }
  }

  lemma ShiftedStart(significand: nat, power: nat)
    requires significand < 0x20_0000_0000_0000
    ensures Times(significand, Pow2(power)) / Pow2(53 + power) == 0
  {
    Pow2At();
    PowerSplit(53, power);
    StrictMul(significand, 0x20_0000_0000_0000, Pow2(power));
    DivUnique(Times(significand, Pow2(power)), Pow2(53 + power), 0);
  }

  lemma QuotientFits(significand: nat, power: nat, divisor: nat, n: int)
    requires significand < 0x20_0000_0000_0000 && 0x10_0000_0000_0000 <= divisor && power <= 31
        && n == Times(significand, Pow2(power))
    ensures 0 <= n / divisor <= 0x1_0000_0000 && n / divisor % 0x1_0000_0000_0000_0000 == n / divisor
  {
    Pow2Values();
    Pow2Mono(power, 31);
    MulMono(significand, 0x20_0000_0000_0000, Pow2(power));
    MulMono(0, significand, Pow2(power));
    MulMono(Pow2(power), 0x8000_0000, 0x20_0000_0000_0000);
    SmallQuotient(n, divisor);
  }

  lemma SmallQuotient(n: int, d: int)
    requires d > 0 && 0 <= n <= 0x1_0000_0000 * d
    ensures 0 <= n / d <= 0x1_0000_0000 && n / d % 0x1_0000_0000_0000_0000 == n / d
  {
    DivBounds(n, d);
    if n / d > 0x1_0000_0000 { MulMono(0x1_0000_0000 + 1, n / d, d); }
  }

  /** The loader's ratio: shifts, long division and half-up rounding on integers. */
  method DeriveQ31Ratio(source: Binary, headMax: Binary) returns (ratio: int)
    requires source.Valid() && headMax.Valid() && NoLarger(source, headMax)
    ensures ratio == HalfUp(RatioOf(source.Value(), headMax.Value()))
  {
    var power := source.exponent - headMax.exponent + 31;
    if power >= 0 {
      ghost var n := Times(source.significand, Pow2(power));
      var quotient, remainder := DivideShifted(source.significand, headMax.significand, power, n);
      ratio := RoundHalfUp(quotient, remainder, headMax.significand, n);
      UpwardRatio(source, headMax, power);
      RoundedQuotient(
        RatioOf(source.Value(), headMax.Value()), Times(source.significand, Pow2(power)), headMax.significand);
    } else {
      ratio := RatioDown(source.significand, headMax.significand, -power);
      DownwardRatio(source, headMax, -power);
      RoundedQuotient(
        RatioOf(source.Value(), headMax.Value()), source.significand, Times(headMax.significand, Pow2(-power)));
    }
  }

  method RatioDown(source: nat, divisor: nat, shift: nat) returns (ratio: int)
    requires 0x10_0000_0000_0000 <= source < 0x20_0000_0000_0000 && 0x10_0000_0000_0000 <= divisor < 0x20_0000_0000_0000
    ensures Times(divisor, Pow2(shift)) > 0 && ratio == HalfUpQuotient(source, Times(divisor, Pow2(shift)))
  {
    MulMono(1, divisor, Pow2(shift));
    if shift + 53 > 63 {
      FarBelow(source, divisor, shift);
      return 0;
    }
    DenominatorFits(divisor, shift);
    var denominator: U64 := Times(divisor, Pow2(shift));
    var quotient, remainder := source / denominator, source % denominator;
    ratio := if remainder * 2 >= denominator then quotient + 1 else quotient;
  }

  lemma UpwardRatio(source: Binary, headMax: Binary, power: nat)
    requires source.Valid() && headMax.Valid() && power == source.exponent - headMax.exponent + 31
    ensures Prod(RatioOf(source.Value(), headMax.Value()), headMax.significand as real)
         == Times(source.significand, Pow2(power)) as real
  {
    var x, p, s, h := RatioOf(source.Value(), headMax.Value()), P2(headMax.exponent), source.significand,
        headMax.significand;
    P2By31(source.exponent);
    P2Add(headMax.exponent, power);
    assert headMax.exponent + power == source.exponent + 31;
    ProdOfInts(s, Pow2(power));
    ProdAssoc(s as real, Pow2(power) as real, p);
    ProdAssoc(x, h as real, p);
    ScaleRight(s as real, P2(source.exponent));
    ProdMono(Prod(x, h as real), Prod(s as real, Pow2(power) as real), p);
  }

  lemma DownwardRatio(source: Binary, headMax: Binary, shift: int)
    requires shift >= 0 && source.Valid() && headMax.Valid() && -shift == source.exponent - headMax.exponent + 31
    ensures Times(headMax.significand, Pow2(shift)) > 0
    ensures Prod(RatioOf(source.Value(), headMax.Value()), Times(headMax.significand, Pow2(shift)) as real)
         == source.significand as real
  {
    var x, s, h := RatioOf(source.Value(), headMax.Value()), source.significand, headMax.significand;
    var p := P2(source.exponent + 31);
    P2By31(source.exponent);
    P2Add(source.exponent + 31, shift);
    assert source.exponent + 31 + shift == headMax.exponent;
    MulMono(1, h, Pow2(shift));
    ProdOfInts(h, Pow2(shift));
    ProdAssoc(h as real, Pow2(shift) as real, p);
    ProdAssoc(x, Prod(h as real, Pow2(shift) as real), p);
    ScaleRight(s as real, P2(source.exponent));
    ProdMono(Prod(x, Prod(h as real, Pow2(shift) as real)), s as real, p);
  }

  lemma ScaleRight(s: real, p: real)
    ensures Prod(s, 2147483648.0 * p) == 2147483648.0 * Prod(s, p)
  {}

  lemma P2By31(e: int)
    ensures P2(e + 31) == 2147483648.0 * P2(e)
  {
    P2By30(e);
    P2Next(e + 30);
    assert e + 30 + 1 == e + 31;
  }

  /** Eleven or more exponents down the ratio rounds to zero. */
  lemma FarBelow(s: int, h: int, shift: nat)
    requires 0x10_0000_0000_0000 <= s < 0x20_0000_0000_0000 && 0x10_0000_0000_0000 <= h < 0x20_0000_0000_0000
        && shift > 10
    ensures Times(h, Pow2(shift)) > 0 && HalfUpQuotient(s, Times(h, Pow2(shift))) == 0
  {
    Pow2Mono(11, shift);
    assert Pow2(11) == 2048;
    MulMono(2048, Pow2(shift), h);
    RoundsToZero(s, Times(h, Pow2(shift)));
  }

  lemma RoundsToZero(s: int, d: int)
    requires 0 <= s && 2 * s < d
    ensures HalfUpQuotient(s, d) == 0
  {
    DivUnique(s, d, 0);
  }

  lemma DenominatorFits(h: int, shift: nat)
    requires 0x10_0000_0000_0000 <= h < 0x20_0000_0000_0000 && shift <= 10
    ensures 0 < Times(h, Pow2(shift)) <= 0x8000_0000_0000_0000
  {
    Pow2Mono(shift, 10);
    assert Pow2(10) == 1024;
    MulMono(Pow2(shift), 1024, h);
    MulMono(1, Pow2(shift), h);
  }

  // ----- The head's carried scale

  /** The binary64 of sqrt(128): 6369051672525773 * 2^-49. */
  const SQRT128_NUM: int := 6369051672525773
  const SQRT128_DEN: int := 562949953421312

  /** It is the correctly rounded root: no other multiple of 2^-49 is closer. */
  lemma SqrtIsNearest()
    ensures (2 * SQRT128_NUM - 1) * (2 * SQRT128_NUM - 1) < 4 * 128 * SQRT128_DEN * SQRT128_DEN
    ensures 4 * 128 * SQRT128_DEN * SQRT128_DEN < (2 * SQRT128_NUM + 1) * (2 * SQRT128_NUM + 1)
    ensures 0x10_0000_0000_0000 <= SQRT128_NUM < 0x20_0000_0000_0000 && SQRT128_DEN == Pow2(49)
  {
    Pow2Values();
    Pow2Add(48, 1);
    Pow2Add(47, 1);
    assert Pow2(1) == 2;
  }

  /** head max / sqrt(128), the value the converter hands to its canonical scale. */
  function Carried(headMax: real): (v: real)
    ensures Prod(v, SQRT128_NUM as real) == Prod(headMax, SQRT128_DEN as real)
  {
    headMax * (SQRT128_DEN as real) / (SQRT128_NUM as real)
  }

  /** The loader's integer derivation is the converter's canonical scale of that value. */
  method DeriveHeadCarried(headMax: Binary) returns (s: Scale, ghost e: int)
    requires headMax.Valid()
    ensures Normal(Carried(headMax.Value()), e) && s == Canonical(Carried(headMax.Value()), e)
    ensures IsScaleOf(s, Carried(headMax.Value()))
  {
    var numerator := UMul(headMax.significand, SQRT128_DEN);
    UMulExact(headMax.significand, SQRT128_DEN);
    var root := Words(SQRT128_NUM, 0);
    var shift := HeadShift(headMax.significand, numerator, root);
    ghost var n, d := UVal(numerator), Times(SQRT128_NUM, Pow2(shift));
    RootShiftFits(shift);
    ShiftLeftExact(root, shift);
    var denominator := ShiftLeft(root, shift);
    var mantissa, remainder := DivideU128(numerator, denominator);
    HeadQuotient(n, d);
    mantissa := RoundRemainder(mantissa, remainder, denominator, n, d);
    e := headMax.exponent + shift;
    HeadScaled(headMax, shift, n, d);
    var exponent := headMax.exponent + shift;
    if mantissa == 0x8000_0000 {
      mantissa := mantissa / 2;
      exponent := exponent + 1;
    }
    s := Scale(mantissa, exponent);
  }

  /** The shift that leaves a 31-bit quotient, found from bit lengths and one comparison. */
  method HeadShift(significand: int, numerator: Words, root: Words) returns (shift: nat)
    requires 0x10_0000_0000_0000 <= significand < 0x20_0000_0000_0000 && UVal(numerator) == significand * SQRT128_DEN
    requires root == Words(SQRT128_NUM, 0)
    ensures shift in {18, 19}
    ensures Times(SQRT128_NUM, Pow2(shift)) * 0x4000_0000
        <= UVal(numerator) < Times(SQRT128_NUM, Pow2(shift)) * 0x8000_0000
  {
    var nBits := BitLengthU128(numerator);
    var dBits := BitLengthU64(SQRT128_NUM);
    HeadPowers();
    BitLengthUnique(UVal(numerator), nBits, 102);
    BitLengthUnique(SQRT128_NUM, dBits, 53);
    var candidate := nBits - dBits;
    ShiftLeftExact(root, candidate);
    LessExact(numerator, ShiftLeft(root, candidate));
    var wholeBits := if Less(numerator, ShiftLeft(root, candidate)) then candidate - 1 else candidate;
    shift := wholeBits - 30;
  }

  lemma HeadPowers()
    ensures Pow2(101) == 0x10_0000_0000_0000 * SQRT128_DEN && Pow2(102) == 0x20_0000_0000_0000 * SQRT128_DEN
        && Pow2(49) == SQRT128_DEN
    ensures Pow2(52) == 0x10_0000_0000_0000 && Pow2(53) == 0x20_0000_0000_0000 && Pow2(18) == 0x4_0000
        && Pow2(19) == 0x8_0000
  {
    Pow2At();
    SqrtIsNearest();
    Pow2Add(52, 49);
    Pow2Add(53, 49);
    assert Pow2(9) == 512 && Pow2(10) == 1024;
    Pow2Add(9, 9);
    Pow2Add(9, 10);
  }

  lemma RootShiftFits(shift: nat)
    requires shift in {18, 19}
    ensures 0x8000_0000_0000_0000 <= Times(SQRT128_NUM, Pow2(shift)) < 0x8000_0000_0000_0000 * 0x8000_0000_0000_0000
  {
    HeadPowers();
  }

  lemma HeadQuotient(n: int, d: int)
    requires d > 0 && d * 0x4000_0000 <= n < d * 0x8000_0000
    ensures n / d % 0x1_0000_0000_0000_0000 == n / d && 0x4000_0000 <= n / d < 0x8000_0000
  {
    DivAddMultiple(0, 0x4000_0000, d);
    DivAddMultiple(0, 0x8000_0000, d);
    DivMono(0x4000_0000 * d, n, d);
    DivBounds(n, d);
    if n / d >= 0x8000_0000 { MulMono(0x8000_0000, n / d, d); }
  }

  /** Half-even rounding by comparing the doubled remainder with the denominator. */
  method RoundRemainder(mantissa: int, remainder: Words, denominator: Words, ghost n: int, ghost d: int)
    returns (rounded: int)
    requires 0 < d == UVal(denominator) < 0x8000_0000_0000_0000 * 0x8000_0000_0000_0000 && mantissa == n / d
        && UVal(remainder) == n % d
    ensures rounded == HalfEvenQuotient(n, d)
  {
    assert Pow2(1) == 2;
    ShiftLeftExact(remainder, 1);
    var twice := ShiftLeft(remainder, 1);
    LessExact(denominator, twice);
    LessExact(twice, denominator);
    rounded := if Less(denominator, twice) || (!Less(twice, denominator) && mantissa % 2 == 1) then mantissa + 1
        else mantissa;
    HalfEvenParts(n, d, mantissa, UVal(remainder));
  }

  lemma HalfEvenParts(n: int, d: int, q: int, r: int)
    requires d > 0 && q == n / d && r == n % d
    ensures HalfEvenQuotient(n, d) == if d < 2 * r || (2 * r >= d && q % 2 == 1) then q + 1 else q
  {}

  /** Rounding the quotient is rounding the carried value at that exponent. */
  lemma HeadScaled(headMax: Binary, shift: nat, n: int, d: int)
    requires headMax.Valid() && n == headMax.significand * SQRT128_DEN && d == Times(SQRT128_NUM, Pow2(shift))
    requires d > 0 && d * 0x4000_0000 <= n < d * 0x8000_0000
    ensures Normal(Carried(headMax.Value()), headMax.exponent + shift)
    ensures HalfEven(Scaled(Carried(headMax.Value()), headMax.exponent + shift)) == HalfEvenQuotient(n, d)
  {
    var e, p, v := headMax.exponent + shift, P2(headMax.exponent), Carried(headMax.Value());
    var x := Scaled(v, e);
    P2Add(headMax.exponent, shift);
    HeadProduct(x, headMax.significand, p, v, Pow2(shift));
    assert Prod(x, d as real) == n as real;
    RoundedQuotient(x, n, d);
    QuotientRange(x, n, d);
    P2By30(e);
    P2By31(e);
    ProdMono(1073741824.0, x, P2(e));
    ProdMono(x, 2147483648.0, P2(e));
  }

  lemma QuotientRange(x: real, n: int, d: int)
    requires d > 0 && d * 0x4000_0000 <= n < d * 0x8000_0000 && Prod(x, d as real) == n as real
    ensures 1073741824.0 <= x < 2147483648.0
  {
    ProdMono(1073741824.0, x, d as real);
    ProdMono(x, 2147483648.0, d as real);
  }

  lemma HeadProduct(x: real, s: int, p: real, v: real, k: int)
    requires p > 0.0 && Prod(x, Prod(k as real, p)) == v
    requires Prod(v, SQRT128_NUM as real) == Prod(Prod(s as real, p), SQRT128_DEN as real)
    ensures Prod(x, Times(SQRT128_NUM, k) as real) == (s * SQRT128_DEN) as real
  {
    var num, den := SQRT128_NUM as real, SQRT128_DEN as real;
    ProdOfInts(SQRT128_NUM, k);
    ProdOfInts(s, SQRT128_DEN);
    Reorder(x, k as real, p, num);
    Reorder(1.0, s as real, p, den);
    assert Prod(1.0, Prod(den, s as real)) == Prod(den, s as real) == Prod(s as real, den);
    assert Prod(1.0, Prod(s as real, p)) == Prod(s as real, p);
    ProdMono(Prod(x, Prod(num, k as real)), Prod(s as real, den), p);
  }

  lemma Reorder(x: real, k: real, p: real, n: real)
    ensures Prod(Prod(x, Prod(k, p)), n) == Prod(Prod(x, Prod(n, k)), p)
  {}
}
