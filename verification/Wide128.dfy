/** The two-word 128-bit facility of src/intmath.cpp lines 112-251.

Each operation is written on its two 64-bit words, with every truncation explicit, and a
lemma says which integer the pair then denotes. */
module Wide128 {
  import opened Arith

  datatype Words = Words(lo: U64, hi: U64)

  function UVal(a: Words): int { a.hi * 0x1_0000_0000_0000_0000 + a.lo }

  /** Two's-complement reading of the pair. */
  function SVal(a: Words): int {
    if a.hi < 0x8000_0000_0000_0000 then UVal(a) else UVal(a) - 0x1_0000_0000_0000_0000_0000_0000_0000_0000
  }

  function WrapU64(x: int): U64 { x % 0x1_0000_0000_0000_0000 }

  function UMul(a: U64, b: U64): Words {
    var ll := (a % 0x1_0000_0000) * (b % 0x1_0000_0000);
    var lh := (a % 0x1_0000_0000) * (b / 0x1_0000_0000);
    var hl := (a / 0x1_0000_0000) * (b % 0x1_0000_0000);
    var hh := (a / 0x1_0000_0000) * (b / 0x1_0000_0000);
    Carry(ll, lh, hl, hh)
  }

  /** The four partial products of the 32-bit halves, carried into two words. */
  function Carry(ll: int, lh: int, hl: int, hh: int): Words {
    var mid := ll / 0x1_0000_0000 + lh % 0x1_0000_0000 + hl % 0x1_0000_0000;
    Words(WrapU64(ll % 0x1_0000_0000 + mid * 0x1_0000_0000),
        WrapU64(hh + lh / 0x1_0000_0000 + hl / 0x1_0000_0000 + mid / 0x1_0000_0000))
  }

  function UMulWide(a: Words, b: U64): Words {
    var lo := UMul(a.lo, b);
    Words(lo.lo, WrapU64(lo.hi + a.hi * b))
  }

  function UAdd64(a: Words, b: U64): Words {
    var lo := WrapU64(a.lo + b);
    Words(lo, WrapU64(a.hi + if lo < a.lo then 1 else 0))
  }

  function UTwice(a: Words): Words {
    Words(WrapU64(a.lo * 2), WrapU64(a.hi * 2 + a.lo / 0x8000_0000_0000_0000))
  }

  /** The low 64 bits of the value shifted right by `k`. */
  function UShrToU64(v: Words, k: nat): U64
    requires k < 128
  {
    if k == 0 then v.lo
    else if k >= 64 then WrapU64(v.hi / Pow2(k - 64))
    else OrDisjoint(v.lo / Pow2(k), WrapU64(v.hi * Pow2(64 - k)))
  }

  /** `x | y` for words whose set bits do not overlap; the caller's shifts make it a sum. */
  function OrDisjoint(x: int, y: int): U64 { WrapU64(x + y) }

  function SFromI64(v: I64): Words { Words(WrapU64(v), if v < 0 then 0x1_0000_0000_0000_0000 - 1 else 0) }

  function Complement(x: U64): U64 { 0x1_0000_0000_0000_0000 - 1 - x }

  /** The two's-complement negation of a product's words, when the signs differ. */
  function WithSign(m: Words, negative: bool): Words {
    if negative then
      var lo := WrapU64(Complement(m.lo) + 1);
      Words(lo, if lo == 0 then WrapU64(Complement(m.hi) + 1) else Complement(m.hi))
    else m
  }

  function SMul(a: I64, b: I64): Words {
    var ua := if a < 0 then WrapU64(Complement(WrapU64(a)) + 1) else a;
    var ub := if b < 0 then WrapU64(Complement(WrapU64(b)) + 1) else b;
    var m := UMul(ua, ub);
    WithSign(m, (a < 0) != (b < 0))
  }

  function SAdd(a: Words, b: Words): Words {
    var lo := WrapU64(a.lo + b.lo);
    Words(lo, WrapU64(a.hi + b.hi + if lo < a.lo then 1 else 0))
  }

  function SSub(a: Words, b: Words): Words {
    Words(WrapU64(a.lo - b.lo), WrapU64(a.hi - b.hi - if a.lo < b.lo then 1 else 0))
  }

  function STwice(a: Words): Words { SAdd(a, a) }

  predicate SGe(a: Words, b: Words) {
    var ah, bh := WrapI64(a.hi), WrapI64(b.hi);
    if ah != bh then ah > bh else a.lo >= b.lo
  }

  predicate SLt(a: Words, b: Words) { !SGe(a, b) }

  function SShrToI64(v: Words, k: nat): I64
    requires k < 64
  {
    if k == 0 then WrapI64(v.lo)
    else WrapI64(OrDisjoint(v.lo / Pow2(k), WrapU64(v.hi * Pow2(64 - k))))
  }

  // ----- What the words denote

  lemma UMulExact(a: U64, b: U64)
    ensures UVal(UMul(a, b)) == a * b
  {
    var a0, a1, b0, b1 := a % 0x1_0000_0000, a / 0x1_0000_0000, b % 0x1_0000_0000, b / 0x1_0000_0000;
    HalfProduct(a0, b0); HalfProduct(a0, b1); HalfProduct(a1, b0); HalfProduct(a1, b1);
    Expand(a0, a1, b0, b1);
    assert a == a1 * 0x1_0000_0000 + a0 && b == b1 * 0x1_0000_0000 + b0;
    ProductBound(a, b, 0x1_0000_0000_0000_0000 - 1, 0x1_0000_0000_0000_0000 - 1);
    Schoolbook(a0 * b0, a0 * b1, a1 * b0, a1 * b1);
  }

  /** The four partial products, carried as the code carries them, sum to the product. */
  lemma Schoolbook(ll: int, lh: int, hl: int, hh: int)
    requires 0 <= ll <= 0xFFFF_FFFE_0000_0001 && 0 <= lh <= 0xFFFF_FFFE_0000_0001
    requires 0 <= hl <= 0xFFFF_FFFE_0000_0001 && 0 <= hh <= 0xFFFF_FFFE_0000_0001
    requires ll + (lh + hl) * 0x1_0000_0000 + hh * 0x1_0000_0000_0000_0000 < 0x1_0000_0000_0000_0000_0000_0000_0000_0000
    ensures UVal(Carry(ll, lh, hl, hh)) == ll + (lh + hl) * 0x1_0000_0000 + hh * 0x1_0000_0000_0000_0000
  {
    var mid := ll / 0x1_0000_0000 + lh % 0x1_0000_0000 + hl % 0x1_0000_0000;
    CarryParts(ll % 0x1_0000_0000, ll / 0x1_0000_0000, lh % 0x1_0000_0000, lh / 0x1_0000_0000, hl % 0x1_0000_0000,
        hl / 0x1_0000_0000, hh, mid % 0x1_0000_0000, mid / 0x1_0000_0000);
    var lo := ll % 0x1_0000_0000 + mid % 0x1_0000_0000 * 0x1_0000_0000;
    DivUnique(mid / 0x1_0000_0000 * 0x1_0000_0000_0000_0000 + lo, 0x1_0000_0000_0000_0000, mid / 0x1_0000_0000);
    Wrap(hh + lh / 0x1_0000_0000 + hl / 0x1_0000_0000 + mid / 0x1_0000_0000);
  }

  /** The carry of the four products, with every quotient and remainder a number of its own. */
  lemma CarryParts(l0: int, l1: int, x0: int, x1: int, y0: int, y1: int, hh: int, m0: int, m1: int)
    requires 0 <= l0 < 0x1_0000_0000 && 0 <= m0 < 0x1_0000_0000 && 0 <= m1 && 0 <= x1 && 0 <= y1 && 0 <= hh
    requires l1 + x0 + y0 == m1 * 0x1_0000_0000 + m0
    requires l1 * 0x1_0000_0000 + l0 + (x1 * 0x1_0000_0000 + x0 + y1 * 0x1_0000_0000 + y0) * 0x1_0000_0000
        + hh * 0x1_0000_0000_0000_0000 < 0x1_0000_0000_0000_0000_0000_0000_0000_0000
    ensures l0 + (l1 + x0 + y0) * 0x1_0000_0000 == m1 * 0x1_0000_0000_0000_0000 + (l0 + m0 * 0x1_0000_0000)
    ensures 0 <= l0 + m0 * 0x1_0000_0000 < 0x1_0000_0000_0000_0000 && 0 <= hh + x1 + y1 + m1 < 0x1_0000_0000_0000_0000
    ensures (hh + x1 + y1 + m1) * 0x1_0000_0000_0000_0000 + l0 + m0 * 0x1_0000_0000
         == l1 * 0x1_0000_0000 + l0 + (x1 * 0x1_0000_0000 + x0 + y1 * 0x1_0000_0000 + y0) * 0x1_0000_0000
             + hh * 0x1_0000_0000_0000_0000
  {}

  lemma Expand(a0: int, a1: int, b0: int, b1: int)
    ensures (a1 * 0x1_0000_0000 + a0) * (b1 * 0x1_0000_0000 + b0)
        == a0 * b0 + (a0 * b1 + a1 * b0) * 0x1_0000_0000 + a1 * b1 * 0x1_0000_0000_0000_0000
  {}

  lemma HalfProduct(x: int, y: int)
    requires 0 <= x < 0x1_0000_0000 && 0 <= y < 0x1_0000_0000
    ensures 0 <= x * y <= 0xFFFF_FFFE_0000_0001
  {
    ProductBound(x, y, 0x1_0000_0000 - 1, 0x1_0000_0000 - 1);
  }

  lemma ProductBound(a: int, b: int, m: int, n: int)
    requires 0 <= a <= m && 0 <= b <= n
    ensures 0 <= a * b <= m * n
  {
    MulMono(a, m, b);
    MulMono(b, n, m);
  }

  /** The residue of a value within two moduli of zero, case by case. */
  lemma Wrap(x: int)
    requires -2 * 0x1_0000_0000_0000_0000 <= x < 3 * 0x1_0000_0000_0000_0000
    ensures x % 0x1_0000_0000_0000_0000 == if x < -0x1_0000_0000_0000_0000 then x + 2 * 0x1_0000_0000_0000_0000
        else if x < 0 then x + 0x1_0000_0000_0000_0000
                         else if x < 0x1_0000_0000_0000_0000 then x
                             else if x < 2 * 0x1_0000_0000_0000_0000 then x - 0x1_0000_0000_0000_0000
                             else x - 2 * 0x1_0000_0000_0000_0000
  {}

  /** The retained 128 bits of a wide product: exact whenever the product fits. */
  lemma UMulWideExact(a: Words, b: U64)
    requires UVal(a) * b < 0x1_0000_0000_0000_0000_0000_0000_0000_0000
    ensures UVal(UMulWide(a, b)) == UVal(a) * b
  {
    UMulExact(a.lo, b);
    Distribute(a.hi, a.lo, b);
    MulMono(0, a.hi, b);
    CrossTerm(UMul(a.lo, b), a.hi * b);
  }

  lemma CrossTerm(lo: Words, cross: int)
    requires 0 <= cross && cross * 0x1_0000_0000_0000_0000 + UVal(lo) < 0x1_0000_0000_0000_0000_0000_0000_0000_0000
    ensures UVal(Words(lo.lo, WrapU64(lo.hi + cross))) == cross * 0x1_0000_0000_0000_0000 + UVal(lo)
  {
    Wrap(lo.hi + cross);
  }

  lemma Distribute(h: int, l: int, b: int)
    ensures (h * 0x1_0000_0000_0000_0000 + l) * b == (h * b) * 0x1_0000_0000_0000_0000 + l * b
  {}

  lemma UAdd64Exact(a: Words, b: U64)
    requires UVal(a) + b < 0x1_0000_0000_0000_0000_0000_0000_0000_0000
    ensures UVal(UAdd64(a, b)) == UVal(a) + b
  {
    Wrap(a.lo + b);
    Wrap(a.hi + 1);
  }

  lemma UTwiceExact(a: Words)
    requires 2 * UVal(a) < 0x1_0000_0000_0000_0000_0000_0000_0000_0000
    ensures UVal(UTwice(a)) == 2 * UVal(a)
  {
    Wrap(a.lo * 2);
    var c := a.lo / 0x8000_0000_0000_0000;
    assert c == if a.lo < 0x8000_0000_0000_0000 then 0 else 1;
    Wrap(a.hi * 2 + c);
  }

  /** The narrowing right shift keeps the low 64 bits of the true quotient, whatever its size. */
  lemma UShrLow64(v: Words, k: nat)
    requires k < 128
    ensures UShrToU64(v, k) == UVal(v) / Pow2(k) % 0x1_0000_0000_0000_0000
  {
    if k == 0 {
      NoShift(v.lo, v.hi);
    } else if k >= 64 {
      HighShift(v.lo, v.hi, k);
    } else {
      MidShift(v, k);
    }
  }

  lemma MidShift(v: Words, k: nat)
    requires 0 < k < 64
    ensures UShrToU64(v, k) == UVal(v) / Pow2(k) % 0x1_0000_0000_0000_0000
  {
    ShiftSplit(v.lo, v.hi, k);
  }

  lemma NoShift(lo: U64, hi: int)
    ensures (hi * 0x1_0000_0000_0000_0000 + lo) / Pow2(0) % 0x1_0000_0000_0000_0000 == lo
  {
    DivUnique(hi * 0x1_0000_0000_0000_0000 + lo, 1, hi * 0x1_0000_0000_0000_0000 + lo);
    DivUnique(hi * 0x1_0000_0000_0000_0000 + lo, 0x1_0000_0000_0000_0000, hi);
  }

  lemma HighShift(lo: U64, hi: U64, k: nat)
    requires k >= 64
    ensures WrapU64(hi / Pow2(k - 64)) == (hi * 0x1_0000_0000_0000_0000 + lo) / Pow2(k) % 0x1_0000_0000_0000_0000
  {
    Pow2Add(64, k - 64);
    Pow2Values();
    DivUnique(hi * 0x1_0000_0000_0000_0000 + lo, 0x1_0000_0000_0000_0000, hi);
    DivDiv(hi * 0x1_0000_0000_0000_0000 + lo, 0x1_0000_0000_0000_0000, Pow2(k - 64));
  }

  lemma QuotientSmaller(a: int, b: int)
    requires a >= 0 && b > 0
    ensures 0 <= a / b <= a
  {
    DivMono(0, a, b);
    DivBounds(a, b);
    assert 0 / b == 0 by { DivUnique(0, b, 0); }
    MulMono(1, b, a / b);
  }

  /** Shifting a two-word value by `0 < k < 64`: both halves of the result word and what they add to. */
  lemma ShiftSplit(lo: U64, hi: int, k: nat)
    requires 0 < k < 64
    ensures (hi * 0x1_0000_0000_0000_0000 + lo) / Pow2(k) == hi * Pow2(64 - k) + lo / Pow2(k)
    ensures 0 <= lo / Pow2(k) < 0x1_0000_0000_0000_0000
    ensures OrDisjoint(lo / Pow2(k), WrapU64(hi * Pow2(64 - k)))
        == (hi * 0x1_0000_0000_0000_0000 + lo) / Pow2(k) % 0x1_0000_0000_0000_0000
  {
    Pow2Add(k, 64 - k);
    Pow2Values();
    SplitAt(lo, hi, Pow2(k), Pow2(64 - k));
    AddResidue(lo / Pow2(k), hi * Pow2(64 - k));
  }

  lemma SplitAt(lo: int, hi: int, p: int, q: int)
    requires lo >= 0 && p > 0 && p * q == 0x1_0000_0000_0000_0000
    ensures (hi * 0x1_0000_0000_0000_0000 + lo) / p == hi * q + lo / p && 0 <= lo / p <= lo
  {
    assert hi * 0x1_0000_0000_0000_0000 == (hi * q) * p by { MulAssoc(hi, q, p); }
    DivAddMultiple(lo, hi * q, p);
    QuotientSmaller(lo, p);
  }

  lemma AddResidue(x: int, w: int)
    ensures (x + w % 0x1_0000_0000_0000_0000) % 0x1_0000_0000_0000_0000 == (x + w) % 0x1_0000_0000_0000_0000
  {
    DivBounds(w, 0x1_0000_0000_0000_0000);
    DivAddMultiple(x + w % 0x1_0000_0000_0000_0000, w / 0x1_0000_0000_0000_0000, 0x1_0000_0000_0000_0000);
  }

  lemma SFromI64Exact(v: I64)
    ensures SVal(SFromI64(v)) == v
  {}

  lemma SMulExact(a: I64, b: I64)
    ensures SVal(SMul(a, b)) == a * b
    ensures -0x8000_0000_0000_0000 * 0x8000_0000_0000_0000 <= a * b <= 0x8000_0000_0000_0000 * 0x8000_0000_0000_0000
  {
    MagnitudeWord(a);
    MagnitudeWord(b);
    var m := UMul(Abs(a), Abs(b));
    assert UVal(m) == Abs(a) * Abs(b) by { UMulExact(Abs(a), Abs(b)); }
    ProductBound(Abs(a), Abs(b), 0x8000_0000_0000_0000, 0x8000_0000_0000_0000);
    SignOfProduct(a, b);
    SignedWords(m, (a < 0) != (b < 0));
  }

  lemma MagnitudeWord(a: I64)
    ensures (if a < 0 then WrapU64(Complement(WrapU64(a)) + 1) else a) == Abs(a)
  {
    Wrap(a);
    Wrap(Complement(WrapU64(a)) + 1);
  }

  lemma SignOfProduct(a: int, b: int)
    ensures a * b == if (a < 0) != (b < 0) then -(Abs(a) * Abs(b)) else Abs(a) * Abs(b)
  {}

  lemma SignedWords(m: Words, negative: bool)
    requires UVal(m) <= 0x8000_0000_0000_0000 * 0x8000_0000_0000_0000
    ensures SVal(WithSign(m, negative)) == if negative then -UVal(m) else UVal(m)
  {
    assert m.hi <= 0x4000_0000_0000_0000;
    Wrap(Complement(m.lo) + 1);
    Wrap(Complement(m.hi) + 1);
  }

  lemma SAddExact(a: Words, b: Words)
    requires -0x1_0000_0000_0000_0000_0000_0000_0000_0000
        <= 2 * (SVal(a) + SVal(b)) < 0x1_0000_0000_0000_0000_0000_0000_0000_0000
    ensures SVal(SAdd(a, b)) == SVal(a) + SVal(b)
  {
    Wrap(a.lo + b.lo);
    var lo := WrapU64(a.lo + b.lo);
    var c := if lo < a.lo then 1 else 0;
    assert lo == a.lo + b.lo - c * 0x1_0000_0000_0000_0000;
    Wrap(a.hi + b.hi + c);
  }

  lemma SSubExact(a: Words, b: Words)
    requires -0x1_0000_0000_0000_0000_0000_0000_0000_0000
        <= 2 * (SVal(a) - SVal(b)) < 0x1_0000_0000_0000_0000_0000_0000_0000_0000
    ensures SVal(SSub(a, b)) == SVal(a) - SVal(b)
  {
    Wrap(a.lo - b.lo);
    var c := if a.lo < b.lo then 1 else 0;
    Wrap(a.hi - b.hi - c);
  }

  lemma SGeExact(a: Words, b: Words)
    ensures SGe(a, b) <==> SVal(a) >= SVal(b)
  {}

  /** The narrowing arithmetic shift is the two's-complement reading of the floor quotient's low 64 bits;
      so it is the floor quotient itself whenever that fits. */
  lemma SShrExact(v: Words, k: nat)
    requires k < 64
    ensures SShrToI64(v, k) == WrapI64(SVal(v) / Pow2(k))
    ensures -0x8000_0000_0000_0000 <= SVal(v) / Pow2(k) < 0x8000_0000_0000_0000 ==> SShrToI64(v, k) == SVal(v) / Pow2(k)
  {
    var sh := if v.hi < 0x8000_0000_0000_0000 then v.hi else v.hi - 0x1_0000_0000_0000_0000;
    assert SVal(v) == sh * 0x1_0000_0000_0000_0000 + v.lo;
    if k == 0 {
      NoShift(v.lo, sh);
      assert Pow2(0) == 1 && SVal(v) / 1 == SVal(v);
      WrapI64Fits(SVal(v));
      WrapI64Low(SVal(v));
    } else {
      ShiftSplit(v.lo, sh, k);
      ShiftSplit(v.lo, v.hi, k);
      if sh != v.hi {
        var q := Pow2(64 - k);
        assert v.hi * q == sh * q + q * 0x1_0000_0000_0000_0000 by { Distribute(1, sh, q); }
        DivAddMultiple(sh * q, q, 0x1_0000_0000_0000_0000);
      }
      var x := SVal(v) / Pow2(k);
      WrapI64Fits(x);
      WrapI64Low(x);
    }
  }

  lemma WrapI64Fits(x: int)
    ensures -0x8000_0000_0000_0000 <= x < 0x8000_0000_0000_0000 ==> WrapI64(x) == x
  {
    if -0x8000_0000_0000_0000 <= x < 0x8000_0000_0000_0000 { Wrap(x); }
  }

  lemma WrapI64Low(x: int)
    ensures WrapI64(x % 0x1_0000_0000_0000_0000) == WrapI64(x)
  {}
}
