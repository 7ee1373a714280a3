/** Integer arithmetic shared by the kernels.

Every machine shift is written as a division or a multiplication by `Pow2(k)`, and every
fixed-width operation as a residue, so wrap-around is visible in the definitions. Dafny's
`/` and `%` with a positive divisor are the floor division and the non-negative remainder,
which is what an arithmetic right shift and a mask compute. */
module Arith {

  type U64 = x: int | 0 <= x < 0x1_0000_0000_0000_0000
  type I64 = x: int | -0x8000_0000_0000_0000 <= x < 0x8000_0000_0000_0000
  type I32 = x: int | -0x8000_0000 <= x < 0x8000_0000

  type Byte = x: int | 0 <= x < 0x100

  /** One in Q15. */
  const ONE_Q15: int := 0x8000

  /** The two's-complement reading of the low 64 bits of `x`. */
  function WrapI64(x: int): I64 {
    var u := x % 0x1_0000_0000_0000_0000;
    if u < 0x8000_0000_0000_0000 then u else u - 0x1_0000_0000_0000_0000
  }

  /** The two's-complement reading of the low 32 bits of `x`. */
  function WrapI32(x: int): I32 {
    var u := x % 0x1_0000_0000;
    if u < 0x8000_0000 then u else u - 0x1_0000_0000
  }

  function Pow2(k: nat): (p: int)
    ensures p >= 1
  {
    if k == 0 then 1 else 2 * Pow2(k - 1)
  }

  /** A product by name, so that equal factors give equal products without multiplying them out. */
  function Times(x: int, y: int): int { x * y }

  function Abs(x: int): nat { if x < 0 then -x else x }

  function Min(a: int, b: int): int { if a <= b then a else b }

  function Max(a: int, b: int): int { if a >= b then a else b }

  lemma {:induction false} Pow2Add(a: nat, b: nat)
    ensures Pow2(a + b) == Pow2(a) * Pow2(b)
  {
    if a > 0 {
      Pow2Add(a - 1, b);
      assert Pow2(a + b) == 2 * Pow2((a - 1) + b);
      MulAssoc(2, Pow2(a - 1), Pow2(b));
    }
  }

  lemma MulAssoc(a: int, b: int, c: int)
    ensures (a * b) * c == a * (b * c)
  {}

  lemma {:induction false} Pow2Mono(a: nat, b: nat)
    requires a <= b
    ensures Pow2(a) <= Pow2(b)
    ensures a < b ==> 2 * Pow2(a) <= Pow2(b)
    decreases b - a
  {
    if a < b { Pow2Mono(a + 1, b); }
  }

  lemma Pow2Values()
    ensures Pow2(15) == 0x8000 && Pow2(16) == 0x1_0000 && Pow2(31) == 0x8000_0000 && Pow2(32) == 0x1_0000_0000
    ensures Pow2(47) == 0x8000_0000_0000 && Pow2(61) == 0x2000_0000_0000_0000 && Pow2(62) == 0x4000_0000_0000_0000
        && Pow2(63) == 0x8000_0000_0000_0000
    ensures Pow2(64) == 0x1_0000_0000_0000_0000
  {
    assert Pow2(8) == 256;
    Pow2Add(8, 7); Pow2Add(8, 8); Pow2Add(16, 15); Pow2Add(16, 16); Pow2Add(32, 15);
    Pow2Add(32, 31); Pow2Add(32, 32);
    assert Pow2(63) == 2 * Pow2(62) && Pow2(62) == 2 * Pow2(61);
  }

  lemma Distributes(a: int, b: int, c: int)
    ensures (a + b) * c == a * c + b * c
  {}

  lemma MulMono(a: int, b: int, c: int)
    requires a <= b && c >= 0
    ensures a * c <= b * c
    ensures c * a <= c * b
  {}

  lemma SquareBound(x: int, m: int)
    requires Abs(x) <= m
    ensures 0 <= x * x <= m * m
  {
    if x >= 0 { MulMono(x, m, x); MulMono(x, m, m); }
    else { MulMono(-x, m, -x); MulMono(-x, m, m); assert x * x == (-x) * (-x); }
  }

  /** `q` is the floor of `a / b` when the remainder `a - q * b` is in range. */
  lemma DivUnique(a: int, b: int, q: int)
    requires b > 0 && 0 <= a - q * b < b
    ensures a / b == q && a % b == a - q * b
  {
    var r := a - q * b;
    var q', r' := a / b, a % b;
    assert a == q' * b + r' && 0 <= r' < b;
    assert (q - q') * b == r' - r;
    if q > q' { MulMono(1, q - q', b); assert false; }
    if q < q' { MulMono(1, q' - q, b); assert false; }
  }

  lemma DivBounds(a: int, b: int)
    requires b > 0
    ensures a / b * b <= a < a / b * b + b
    ensures a % b == a - a / b * b
  {}

  lemma DivMono(a: int, a': int, b: int)
    requires b > 0 && a <= a'
    ensures a / b <= a' / b
  {
    DivBounds(a, b);
    DivBounds(a', b);
    if a / b > a' / b { MulMono(a' / b + 1, a / b, b); assert false; }
  }

  /** Adding a multiple of the divisor moves the quotient by exactly that multiple. */
  lemma DivAddMultiple(a: int, k: int, b: int)
    requires b > 0
    ensures (a + k * b) / b == a / b + k && (a + k * b) % b == a % b
  {
    DivBounds(a, b);
    assert (a / b + k) * b == a / b * b + k * b;
    DivUnique(a + k * b, b, a / b + k);
  }

  /** Two floor divisions in a row are one floor division by the product. */
  lemma DivDiv(a: int, b: int, c: int)
    requires b > 0 && c > 0
    ensures b * c > 0 && a / b / c == a / (b * c)
  {
    var q := a / b;
    var p := q / c;
    DivBounds(a, b);
    DivBounds(q, c);
    MulMono(1, b, c);
    assert p * (b * c) == (p * c) * b;
    MulMono(p * c, q, b);
    MulMono(q, p * c + c - 1, b);
    assert (p * c + c - 1) * b == p * (b * c) + b * c - b;
    DivUnique(a, b * c, p);
  }

  /** Scaling numerator and denominator by the same positive factor keeps the quotient. */
  lemma DivScale(a: int, b: int, k: int)
    requires b > 0 && k > 0
    ensures k * b > 0 && (k * a) / (k * b) == a / b && (k * a) % (k * b) == k * (a % b)
  {
    DivBounds(a, b);
    MulMono(1, k, b);
    var r := a % b;
    assert k * a - (a / b) * (k * b) == k * r by { assert k * (a - a / b * b) == k * a - (a / b) * (k * b); }
    MulMono(r, b - 1, k);
    assert k * (b - 1) == k * b - k;
    DivUnique(k * a, k * b, a / b);
  }
}
