/** The diagnostic ratio of src/damped_greedy_topk.cpp lines 222-251: a 128-by-64-bit long division. */
module ExactRatio {
  import opened Arith
  import opened Wide128
  import opened ExactScale
  import opened QkDivide
  import opened QkScale

  /** Bitwise division of two words by one; the divisor leaves the remainder a spare bit. */
  method DivU128ByU64(numerator: Words, divisor: U64) returns (quotient: U64, remainder: U64)
    requires 0 < divisor <= 0x8000_0000_0000_0000
    ensures quotient == UVal(numerator) / divisor % 0x1_0000_0000_0000_0000
    ensures remainder == UVal(numerator) % divisor
  {
    var n := UVal(numerator);
    quotient, remainder := 0, 0;
    var bit := 127;
    ghost var q := 0;
    PrefixStart(n);
    while bit >= 0
      invariant -1 <= bit < 128 && 0 <= q && 0 <= remainder < divisor
      invariant n / Pow2(bit + 1) == q * divisor + remainder
      invariant quotient == Placed(q, bit + 1)
      decreases bit + 1
    {
      var b := Bit(numerator, bit);
      BitExact(numerator, bit);
      NextPrefix(n, bit);
      DivisionStep(n / Pow2(bit + 1), n / Pow2(bit), divisor, q, remainder, b);
      PlacedNext(q, 0, bit);
      PlacedNext(q, 1, bit);
      PlacedFits(2 * q, bit);
      PlacedFits(2 * q + 1, bit);
      remainder := remainder * 2 + b;
      if remainder >= divisor {
        remainder := remainder - divisor;
        quotient := if bit < 64 then quotient + Pow2(bit) else quotient;
        q := 2 * q + 1;
      } else {
        q := 2 * q;
      }
      bit := bit - 1;
    }
    Finished(n, divisor, q, remainder);
  }

  /** The part of a total in Q15, to the nearest with ties up, and never more than one. */
  function RatioQ15(part: int, total: int): int {
    var d, n := if total > 0 then total else 1, if part > 0 then part else 0;
    if n >= d then 0x8000 else HalfUpQuotient(n * 0x8000, d)
  }

  /** `zk << 15` as two words. */
  method ShiftedWords(zk: U64) returns (w: Words)
    ensures UVal(w) == zk * 0x8000
  {
    var high, low := zk / 0x2_0000_0000_0000, zk % 0x2_0000_0000_0000;
    WordParts(zk, high, low);
    w := Words(zk * 0x8000 % 0x1_0000_0000_0000_0000, high);
  }

  lemma WordParts(zk: U64, high: int, low: int)
    requires high == zk / 0x2_0000_0000_0000 && low == zk % 0x2_0000_0000_0000
    ensures 0 <= high < 0x1_0000_0000_0000_0000
        && zk * 0x8000 % 0x1_0000_0000_0000_0000 + high * 0x1_0000_0000_0000_0000 == zk * 0x8000
  {
    assert zk * 0x8000 == high * 0x1_0000_0000_0000_0000 + low * 0x8000;
    DivUnique(zk * 0x8000, 0x1_0000_0000_0000_0000, high);
  }

  /** The division and its rounding. */
  method DivideAndRound(numerator: Words, denominator: U64, ghost n: int) returns (rounded: int)
    requires UVal(numerator) == n && 0 < denominator <= 0x8000_0000_0000_0000 && 0 <= n / denominator < 0x8000
    ensures rounded == HalfUpQuotient(n, denominator)
  {
    var quotient, remainder := DivU128ByU64(numerator, denominator);
    rounded := RoundHalfUp(quotient, remainder, denominator, n);
  }

  function Clamped(x: int): (c: int)
    ensures c <= 0x8000 && (x <= 0x8000 ==> c == x)
  {
    if x > 0x8000 then 0x8000 else x
  }

  method ExactRatioQ15(part: I64, total: I64) returns (ratio: int)
    ensures ratio == RatioQ15(part, total) && 0 <= ratio <= 0x8000
  {
    var denominator := if total > 0 then total else 1;
    var zk := if part > 0 then part else 0;
    if zk >= denominator { return 0x8000; }
    QuotientSmall(zk, denominator);
    var numerator := ShiftedWords(zk);
    var rounded := DivideAndRound(numerator, denominator, zk * 0x8000);
    ratio := Clamped(rounded);
  }

  /** Below one the rounded quotient is at most one, so the final clamp never changes it. */
  lemma QuotientSmall(n: int, d: int)
    requires 0 <= n < d
    ensures 0 <= n * 0x8000 / d < 0x8000 && n * 0x8000 / d % 0x1_0000_0000_0000_0000 == n * 0x8000 / d
    ensures 0 <= HalfUpQuotient(n * 0x8000, d) <= 0x8000
  {
    DivBounds(n * 0x8000, d);
    var q := n * 0x8000 / d;
    if q >= 0x8000 { MulMono(0x8000, q, d); }
    if q < 0 { MulMono(q, -1, d); }
  }

  /** A proper part's ratio is the nearest Q15 number, ties up; a whole or more gives one, and nothing gives zero. */
  lemma RatioIsNearest(part: int, total: int)
    ensures 0 < part < total ==> -total <= 2 * (part * 0x8000 - RatioQ15(part, total) * total) < total
    ensures part > 0 && part >= total ==> RatioQ15(part, total) == 0x8000
    ensures part <= 0 ==> RatioQ15(part, total) == 0
  {
    if 0 < part < total { HalfUpNearest(part * 0x8000, total); }
    if part <= 0 { HalfUpNearest(0, if total > 0 then total else 1); DivUnique(0, if total > 0 then total else 1, 0); }
  }

  lemma HalfUpNearest(n: int, d: int)
    requires d > 0
    ensures -d <= 2 * (n - HalfUpQuotient(n, d) * d) < d
  {
    DivBounds(n, d);
    assert (n / d + 1) * d == n / d * d + d;
  }
}
