/** Exact scales: the converter's Fraction arithmetic (tools/convert_model.py lines 69-101) and the loader's integer
rederivation of it (src/model.cpp lines 1200-1250).

A Python Fraction is a rational, so it is modelled as a Dafny real; the loader's side uses only 64-bit integers. */
module ExactScale {
  import opened Arith

  // ----- Products of reals, named so that equal factors give equal products

  function Prod(x: real, y: real): real { x * y }

  lemma ProdMono(x: real, y: real, u: real)
    requires u > 0.0
    ensures x <= y <==> Prod(x, u) <= Prod(y, u)
    ensures x < y <==> Prod(x, u) < Prod(y, u)
    ensures x == y <==> Prod(x, u) == Prod(y, u)
  {
    var d := y - x;
    assert d * u == Prod(y, u) - Prod(x, u);
    if d > 0.0 { Positive(d, u); } else if d < 0.0 { Positive(-d, u); }
  }

  lemma Positive(x: real, y: real)
    requires x > 0.0 && y > 0.0
    ensures x * y > 0.0
    ensures Prod(x, y) > 0.0
  {}

  lemma ProdSwap(x: real, y: real)
    ensures Prod(x, y) == Prod(y, x)
  {}

  lemma ProdAssoc(a: real, p: real, q: real)
    ensures Prod(Prod(a, p), q) == Prod(a, Prod(p, q))
  {}

  lemma ProdOfInts(a: int, b: int)
    ensures (a * b) as real == Prod(a as real, b as real)
  {}

  /** Two to any integer power. */
  function P2(e: int): (p: real)
    ensures p > 0.0
    decreases if e < 0 then -e else e
  {
    if e == 0 then 1.0 else if e > 0 then 2.0 * P2(e - 1) else P2(e + 1) / 2.0
  }

  lemma P2Next(e: int)
    ensures P2(e + 1) == 2.0 * P2(e)
  {}

  lemma {:induction false} P2Add(a: int, k: nat)
    ensures P2(a + k) == Prod(Pow2(k) as real, P2(a))
  {
    if k > 0 {
      P2Add(a, k - 1);
      P2Next(a + k - 1);
      DoubleLeft(Pow2(k - 1), P2(a));
    }
  }

  lemma DoubleLeft(k: int, p: real)
    ensures Prod((2 * k) as real, p) == 2.0 * Prod(k as real, p)
  {
    var x := k as real;
    assert (2 * k) as real == 2.0 * x;
  }

  lemma {:induction false} P2Mono(a: int, b: int)
    requires a <= b
    ensures P2(a) <= P2(b)
    decreases b - a
  {
    if a < b {
      P2Next(a);
      P2Mono(a + 1, b);
    }
  }

  lemma {:induction false} Archimedes(n: nat)
    ensures P2(n) > n as real
  {
    if n > 0 {
      Archimedes(n - 1);
      P2Next(n - 1);
      if n == 1 { assert P2(1) == 2.0 * P2(0); }
    }
  }

  lemma {:induction false} P2Inverse(n: int)
    requires n >= 0
    ensures Prod(P2(n), P2(-n)) == 1.0
  {
    if n > 0 {
      P2Inverse(n - 1);
      P2Next(n - 1);
      P2Next(-n);
      Rebalance(P2(n - 1), P2(-n));
    }
  }

  lemma Rebalance(p: real, q: real)
    ensures Prod(2.0 * p, q) == Prod(p, 2.0 * q)
  {}

  // ----- Rounding

  /** Nearest integer, ties to even. */
  function HalfEven(x: real): int {
    var q := x.Floor;
    var f := x - q as real;
    if f > 0.5 || (f == 0.5 && q % 2 == 1) then q + 1 else q
  }

  /** Nearest integer, ties upward. */
  function HalfUp(x: real): int { (x + 0.5).Floor }

  lemma HalfEvenNearest(x: real)
    ensures -0.5 <= HalfEven(x) as real - x <= 0.5
    ensures HalfEven(x) as real - x in {-0.5, 0.5} ==> HalfEven(x) % 2 == 0
  {}

  lemma HalfEvenWithin(x: real, lo: int, hi: int)
    requires lo as real <= x < hi as real
    ensures lo <= HalfEven(x) <= hi
  {}

  /** The integer rounding by quotient and remainder that both sides use. */
  function HalfEvenQuotient(n: int, d: int): int
    requires d > 0
  {
    if n % d * 2 > d || (n % d * 2 == d && n / d % 2 == 1) then n / d + 1 else n / d
  }

  function HalfUpQuotient(n: int, d: int): int
    requires d > 0
  {
    if n % d * 2 >= d then n / d + 1 else n / d
  }

  /** A real that solves x * d == n rounds as the integer quotient does. */
  lemma RoundedQuotient(x: real, n: int, d: int)
    requires d > 0 && Prod(x, d as real) == n as real
    ensures HalfEven(x) == HalfEvenQuotient(n, d) && HalfUp(x) == HalfUpQuotient(n, d)
  {
    DivBounds(n, d);
    var q, r, dr := n / d, n % d, d as real;
    ProdOfInts(q, d);
    var f := x - q as real;
    assert Prod(f, dr) == r as real;
    ProdMono(0.0, f, dr);
    ProdMono(f, 1.0, dr);
    ProdMono(f, 0.5, dr);
    assert x.Floor == q;
  }

  // ----- The canonical scale

  /** The exponent that leaves a value 31 integer bits. */
  predicate Normal(v: real, e: int) { P2(e + 30) <= v < P2(e + 31) }

  lemma NormalUnique(v: real, e: int, f: int)
    requires Normal(v, e) && Normal(v, f)
    ensures e == f
  {
    if e < f { P2Mono(e + 31, f + 30); }
    if f < e { P2Mono(f + 31, e + 30); }
  }

  function Scaled(v: real, e: int): (x: real)
    ensures Prod(x, P2(e)) == v
  {
    v / P2(e)
  }

  /** A canonical pair stands for m * 2^e with a 31-bit mantissa. */
  datatype Scale = Scale(m: int, e: int)

  /** The value rounded to 31 significant bits, half to even, renormalized when the rounding carries out. */
  function Canonical(v: real, e: int): Scale { Renormalized(HalfEven(Scaled(v, e)), e) }

  function Renormalized(m: int, e: int): Scale { if m == 0x8000_0000 then Scale(0x4000_0000, e + 1) else Scale(m, e) }

  lemma ScaledRange(v: real, e: int)
    requires Normal(v, e)
    ensures 1073741824.0 <= Scaled(v, e) < 2147483648.0
  {
    P2By30(e);
    P2Next(e + 30);
    assert e + 30 + 1 == e + 31;
    ProdMono(1073741824.0, Scaled(v, e), P2(e));
    ProdMono(Scaled(v, e), 2147483648.0, P2(e));
  }

  lemma P2By30(e: int)
    ensures P2(e + 30) == 1073741824.0 * P2(e)
  {
    P2Add(e, 30);
    Pow2Values();
    assert Pow2(31) == 2 * Pow2(30);
    assert Pow2(30) as real == 1073741824.0;
  }

  /** It is canonical. */
  lemma CanonicalRange(v: real, e: int)
    requires Normal(v, e)
    ensures 0x4000_0000 <= Canonical(v, e).m < 0x8000_0000
  {
    ScaledRange(v, e);
    HalfEvenWithin(Scaled(v, e), 1073741824, 2147483648);
  }

  /** It is no farther from the value than half a unit in the last place. */
  lemma CanonicalIsClose(v: real, e: int)
    requires Normal(v, e)
    ensures -0.5 * P2(e) <= Prod(Canonical(v, e).m as real, P2(Canonical(v, e).e)) - v <= 0.5 * P2(e)
  {
    var x := Scaled(v, e);
    HalfEvenNearest(x);
    NearestScaled(x, HalfEven(x) as real, P2(e));
    RenormalizedSame(HalfEven(x), e);
  }

  lemma NearestScaled(x: real, m: real, u: real)
    requires u > 0.0 && -0.5 <= m - x <= 0.5
    ensures -0.5 * u <= Prod(m, u) - Prod(x, u) <= 0.5 * u
  {
    ProdMono(m - x, 0.5, u);
    ProdMono(-0.5, m - x, u);
    assert Prod(m - x, u) == Prod(m, u) - Prod(x, u);
  }

  /** Renormalizing keeps the value. */
  lemma RenormalizedSame(m: int, e: int)
    ensures Prod(Renormalized(m, e).m as real, P2(Renormalized(m, e).e)) == Prod(m as real, P2(e))
  {
    P2Next(e);
    if m == 0x8000_0000 {
      DoubleLeft(0x4000_0000, P2(e));
      Rebalance(0x4000_0000 as real, P2(e));
      assert Prod(2.0 * (0x4000_0000 as real), P2(e)) == Prod(m as real, P2(e));
    }
  }

  /** The canonical scale of a value, whatever its exponent. */
  ghost predicate IsScaleOf(s: Scale, v: real) { exists e :: Normal(v, e) && s == Canonical(v, e) }

  lemma ScaleUnique(s: Scale, t: Scale, v: real)
    requires IsScaleOf(s, v) && IsScaleOf(t, v)
    ensures s == t
  {
    var e :| Normal(v, e) && s == Canonical(v, e);
    var f :| Normal(v, f) && t == Canonical(v, f);
    NormalUnique(v, e, f);
  }

  /** The converter's search: from any starting exponent it ends at the one normal exponent. */
  method CanonicalScale(value: real, start: int) returns (s: Scale, ghost e0: int)
    requires value > 0.0
    ensures Normal(value, e0) && s == Canonical(value, e0)
    ensures IsScaleOf(s, value)
  {
    var exponent := start;
    ghost var top := value.Floor + 1;
    Archimedes(top);
    while value / P2(exponent + 31) >= 1.0
      decreases top - exponent
    {
      AtLeastOne(value, P2(exponent + 31));
      if exponent + 31 >= top { P2Mono(top, exponent + 31); }
      exponent := exponent + 1;
    }
    AtLeastOne(value, P2(exponent + 31));
    ghost var bottom := (1.0 / value).Floor + 1;
    Archimedes(bottom);
    while value / P2(exponent + 30) < 1.0
      invariant value < P2(exponent + 31)
      decreases exponent + bottom + 31
    {
      AtLeastOne(value, P2(exponent + 30));
      if exponent + 30 <= -bottom { TooSmall(value, exponent + 30, bottom); }
      exponent := exponent - 1;
    }
    AtLeastOne(value, P2(exponent + 30));
    e0 := exponent;
    var mantissa := HalfEven(Scaled(value, exponent));
    if mantissa == 0x8000_0000 {
      mantissa := mantissa / 2;
      exponent := exponent + 1;
    }
    s := Scale(mantissa, exponent);
  }

  lemma AtLeastOne(v: real, p: real)
    requires p > 0.0
    ensures v / p >= 1.0 <==> v >= p
  {
    var x := v / p;
    assert Prod(x, p) == v && Prod(1.0, p) == p;
    ProdMono(1.0, x, p);
  }

  lemma TooSmall(v: real, e: int, bottom: int)
    requires v > 0.0 && bottom >= 0 && e <= -bottom && P2(bottom) > 1.0 / v
    ensures v >= P2(e)
  {
    P2Mono(e, -bottom);
    P2Inverse(bottom);
    ReciprocalOrder(v, P2(bottom), P2(-bottom));
  }

  lemma ReciprocalOrder(v: real, p: real, q: real)
    requires v > 0.0 && p > 1.0 / v && Prod(p, q) == 1.0 && q > 0.0
    ensures v >= q
  {
    var w := 1.0 / v;
    assert Prod(w, v) == 1.0;
    ProdMono(w, p, v);
    ProdSwap(p, v);
    ProdSwap(p, q);
    Positive(w, 1.0 / v);
    ProdMono(q, v, p);
  }

  // ----- Source binary64 values

  /** The 64 bits of a positive finite number: section 3.4 of IEEE 754. */
  predicate PositiveFinite(bits: nat) { 0 < bits < 0x7ff0_0000_0000_0000 }

  function ValueOf(bits: nat): (v: real)
    requires PositiveFinite(bits)
  {
    var field, fraction := bits / 0x10_0000_0000_0000, bits % 0x10_0000_0000_0000;
    if field == 0 then Prod(fraction as real, P2(-1074))
        else Prod((0x10_0000_0000_0000 + fraction) as real, P2(field - 1075))
  }

  /** A significand in [2^52, 2^53) and an exponent. */
  datatype Binary = Binary(significand: int, exponent: int) {
    predicate Valid() { 0x10_0000_0000_0000 <= significand < 0x20_0000_0000_0000 }

    function Value(): real { Prod(significand as real, P2(exponent)) }
  }

  method BitLengthU64(value: U64) returns (bits: nat)
    ensures value == 0 ==> bits == 0
    ensures value > 0 ==> 1 <= bits <= 64 && Pow2(bits - 1) <= value < Pow2(bits)
  {
    bits := 0;
    var v := value;
    Pow2Values();
    while v != 0
      invariant value == 0 ==> v == 0 && bits == 0
      invariant 0 <= v && bits <= 64 && v * Pow2(bits) <= value < (v + 1) * Pow2(bits)
      invariant value > 0 && v == 0 ==> bits > 0 && Pow2(bits - 1) <= value
      decreases v
    {
      HalveStep(value, v, Pow2(bits));
      assert bits != 64;
      bits := bits + 1;
      v := v / 2;
    }
  }

  lemma HalveStep(value: int, v: int, p: int)
    requires v > 0 && p >= 1 && v * p <= value < (v + 1) * p
    ensures (v / 2) * (2 * p) <= value < (v / 2 + 1) * (2 * p) && p <= value
  {
    MulMono(1, v, p);
    MulMono(2 * (v / 2), v, p);
    MulMono(v + 1, 2 * (v / 2) + 2, p);
  }

  /** The decoder: the same value, normalized, subnormals included. */
  method DecodeExactPositiveBinary64(bits: U64) returns (b: Binary)
    requires PositiveFinite(bits)
    ensures b.Valid() && b.Value() == ValueOf(bits)
  {
    var field := bits / 0x10_0000_0000_0000 % 0x800;
    var significand := bits % 0x10_0000_0000_0000;
    var exponent := -1074;
    if field != 0 {
      significand := significand + 0x10_0000_0000_0000;
      exponent := field - 1023 - 52;
    }
    RawValue(bits, field, significand, exponent);
    b := Normalize(significand, exponent);
  }

  method Normalize(significand: U64, exponent: int) returns (b: Binary)
    requires 0 < significand < 0x20_0000_0000_0000
    ensures b.Valid() && b.Value() == Prod(significand as real, P2(exponent))
  {
    var used := BitLengthU64(significand);
    UsedBits(significand, used);
    var shift := 53 - used;
    ShiftKeepsValue(significand, exponent, shift);
    NormalizedRange(significand, used, shift);
    b := Binary(significand * Pow2(shift), exponent - shift);
  }

  lemma RawValue(bits: U64, field: int, significand: int, exponent: int)
    requires PositiveFinite(bits) && field == bits / 0x10_0000_0000_0000 % 0x800
    requires significand
        == (if field == 0 then bits % 0x10_0000_0000_0000 else bits % 0x10_0000_0000_0000 + 0x10_0000_0000_0000)
    requires exponent == if field == 0 then -1074 else field - 1023 - 52
    ensures 0 < significand < 0x20_0000_0000_0000 && Prod(significand as real, P2(exponent)) == ValueOf(bits)
  {
    assert bits / 0x10_0000_0000_0000 < 0x7ff;
  }

  lemma UsedBits(s: int, used: nat)
    requires 0 < s < 0x20_0000_0000_0000 && 1 <= used && Pow2(used - 1) <= s < Pow2(used)
    ensures used <= 53
  {
    Pow2At();
    if used > 53 { Pow2Mono(53, used - 1); }
  }

  lemma Pow2At()
    ensures Pow2(52) == 0x10_0000_0000_0000 && Pow2(53) == 0x20_0000_0000_0000
  {
    Pow2Values();
    Pow2Add(32, 16);
    Pow2Add(48, 4);
    Pow2Add(48, 5);
    assert Pow2(4) == 16 && Pow2(5) == 32;
  }

  lemma NormalizedRange(s: int, used: nat, shift: nat)
    requires 1 <= used && used + shift == 53 && Pow2(used - 1) <= s < Pow2(used)
    ensures 0x10_0000_0000_0000 <= s * Pow2(shift) < 0x20_0000_0000_0000
  {
    Pow2At();
    Pow2Add(used - 1, shift);
    Pow2Add(used, shift);
    MulMono(Pow2(used - 1), s, Pow2(shift));
    StrictMul(s, Pow2(used), Pow2(shift));
  }

  lemma StrictMul(a: int, b: int, c: int)
    requires a < b && c >= 1
    ensures a * c < b * c
  {
    MulMono(1, b - a, c);
  }

  lemma ShiftKeepsValue(s: int, e: int, shift: nat)
    ensures Prod((s * Pow2(shift)) as real, P2(e - shift)) == Prod(s as real, P2(e))
  {
    P2Add(e - shift, shift);
    assert e - shift + shift == e;
    ProdOfInts(s, Pow2(shift));
    ProdAssoc(s as real, Pow2(shift) as real, P2(e - shift));
  }

  // ----- The loader's canonical scale

  function RoundHalfEvenRight(value: nat, shift: nat): nat
    requires shift > 0
  {
    var q, r, half := value / Pow2(shift), value % Pow2(shift), Pow2(shift - 1);
    if r > half || (r == half && q % 2 == 1) then q + 1 else q
  }

  /** The loader drops 22 bits of the 53. */
  function LoaderScale(b: Binary): Scale
    requires b.Valid()
  {
    var m := RoundHalfEvenRight(b.significand, 22);
    if m == 0x8000_0000 then Scale(m / 2, b.exponent + 22 + 1) else Scale(m, b.exponent + 22)
  }

  lemma BinaryIsNormal(b: Binary)
    requires b.Valid()
    ensures Normal(b.Value(), b.exponent + 22)
  {
    Pow2At();
    P2Add(b.exponent, 52);
    P2Add(b.exponent, 53);
    ProdMono(Pow2(52) as real, b.significand as real, P2(b.exponent));
    ProdMono(b.significand as real, Pow2(53) as real, P2(b.exponent));
    assert b.exponent + 22 + 30 == b.exponent + 52 && b.exponent + 22 + 31 == b.exponent + 53;
  }

  /** The loader's integer rounding and the converter's Fraction rounding agree on every source value. */
  lemma LoaderAgrees(b: Binary, e: int)
    requires b.Valid() && Normal(b.Value(), e)
    ensures LoaderScale(b) == Canonical(b.Value(), e)
  {
    BinaryIsNormal(b);
    NormalUnique(b.Value(), e, b.exponent + 22);
    P2Add(b.exponent, 22);
    var x := Scaled(b.Value(), e);
    ProdAssoc(x, Pow2(22) as real, P2(b.exponent));
    ProdMono(Prod(x, Pow2(22) as real), b.significand as real, P2(b.exponent));
    RoundedQuotient(x, b.significand, Pow2(22));
    RoundsAlike(b.significand, 22);
  }

  lemma RoundsAlike(value: nat, shift: nat)
    requires shift > 0
    ensures RoundHalfEvenRight(value, shift) == HalfEvenQuotient(value, Pow2(shift))
  {
    assert Pow2(shift) == 2 * Pow2(shift - 1);
  }
}
