/** The loader's long divisions: src/model.cpp lines 1252-1312. */
module QkDivide {
  import opened Arith
  import opened Wide128
  import opened ExactScale

  lemma PowerSplit(a: nat, b: nat)
    ensures Times(Pow2(a), Pow2(b)) == Pow2(a + b)
  {
    Pow2Add(a, b);
  }

  // ----- Two-word shifts, comparisons and differences

  function ShiftLeft(v: Words, shift: nat): Words {
    if shift == 0 then v
    else if shift >= 64 then Words(0, WrapU64(Times(v.lo, Pow2(shift - 64))))
    else
      Words(
        WrapU64(Times(v.lo, Pow2(shift))),
        OrDisjoint(WrapU64(Times(v.hi, Pow2(shift))), v.lo / Pow2(64 - shift)))
  }

  predicate Less(a: Words, b: Words) { if a.hi != b.hi then a.hi < b.hi else a.lo < b.lo }

  function Sub(a: Words, b: Words): Words {
    Words(WrapU64(a.lo - b.lo), WrapU64(a.hi - b.hi - if a.lo < b.lo then 1 else 0))
  }

  function Bit(v: Words, bit: nat): int
    requires bit < 128
  {
    if bit < 64 then v.lo / Pow2(bit) % 2 else v.hi / Pow2(bit - 64) % 2
  }

  lemma LessExact(a: Words, b: Words)
    ensures Less(a, b) <==> UVal(a) < UVal(b)
  {}

  lemma SubExact(a: Words, b: Words)
    requires UVal(b) <= UVal(a)
    ensures UVal(Sub(a, b)) == UVal(a) - UVal(b)
  {}

  /** A shift that keeps every bit multiplies. */
  lemma ShiftLeftExact(v: Words, shift: nat)
    requires Times(UVal(v), Pow2(shift)) < 0x1_0000_0000_0000_0000_0000_0000_0000_0000
    ensures UVal(ShiftLeft(v, shift)) == Times(UVal(v), Pow2(shift))
  {
    if shift >= 64 {
      WordPower(64, shift - 64);
      ShiftHigh(v, shift, Pow2(shift - 64), Pow2(shift));
    } else if shift > 0 {
      WordPower(64 - shift, shift);
      ShiftLow(v, shift, Pow2(shift), Pow2(64 - shift));
    }
  }

  lemma WordPower(a: nat, b: nat)
    ensures a == 64 ==> Pow2(a + b) == Times(0x1_0000_0000_0000_0000, Pow2(b))
    ensures a + b == 64 ==> Times(Pow2(a), Pow2(b)) == 0x1_0000_0000_0000_0000
  {
    Pow2Values();
    PowerSplit(a, b);
  }

  lemma ShiftHigh(v: Words, shift: nat, p: int, q: int)
    requires shift >= 64 && p == Pow2(shift - 64) && q == Times(0x1_0000_0000_0000_0000, p)
        && Times(UVal(v), q) < 0x1_0000_0000_0000_0000_0000_0000_0000_0000
    ensures UVal(ShiftLeft(v, shift)) == Times(UVal(v), q)
  {
    HighShift(UVal(v), v.lo, v.hi, p, q);
  }

  lemma ShiftLow(v: Words, shift: nat, p: int, q: int)
    requires 0 < shift < 64 && p == Pow2(shift) && q == Pow2(64 - shift) && Times(q, p) == 0x1_0000_0000_0000_0000
    requires Times(UVal(v), p) < 0x1_0000_0000_0000_0000_0000_0000_0000_0000
    ensures UVal(ShiftLeft(v, shift)) == Times(UVal(v), p)
  {
    LowShift(UVal(v), v.lo, v.hi, p, q);
  }

  lemma HighShift(x: int, lo: U64, hi: U64, p: int, q: int)
    requires p >= 1 && q == Times(0x1_0000_0000_0000_0000, p) && x == hi * 0x1_0000_0000_0000_0000 + lo
        && Times(x, q) < 0x1_0000_0000_0000_0000_0000_0000_0000_0000
    ensures hi == 0 && 0 <= Times(lo, p) < 0x1_0000_0000_0000_0000
        && Times(x, q) == Times(lo, p) * 0x1_0000_0000_0000_0000
  {
    MulMono(0x1_0000_0000_0000_0000, q, x);
    MulMono(0, lo, p);
  }

  lemma LowShift(x: int, lo: U64, hi: U64, p: int, q: int)
    requires p >= 1 && q >= 1 && Times(q, p) == 0x1_0000_0000_0000_0000 && x == hi * 0x1_0000_0000_0000_0000 + lo
        && Times(x, p) < 0x1_0000_0000_0000_0000_0000_0000_0000_0000
    ensures UVal(Words(WrapU64(Times(lo, p)), OrDisjoint(WrapU64(Times(hi, p)), lo / q))) == Times(x, p)
  {
    LowPart(lo, p, q);
    MulMono(0, hi, p);
    assert x * p == (hi * p) * 0x1_0000_0000_0000_0000 + lo * p;
    JoinParts(Times(lo, p), Times(hi, p), lo / q, Times(lo % q, p));
  }

  lemma LowPart(lo: U64, p: int, q: int)
    requires p >= 1 && q >= 1 && Times(q, p) == 0x1_0000_0000_0000_0000
    ensures Times(lo, p) == lo / q * 0x1_0000_0000_0000_0000 + Times(lo % q, p)
        && 0 <= Times(lo % q, p) < 0x1_0000_0000_0000_0000 && lo / q >= 0
  {
    var a, r := lo / q, lo % q;
    DivBounds(lo, q);
    assert (a * q + r) * p == a * (q * p) + r * p;
    MulMono(r, q - 1, p);
    assert (q - 1) * p == 0x1_0000_0000_0000_0000 - p;
    MulMono(0, r, p);
  }

  lemma JoinParts(lop: int, hip: int, a: int, rp: int)
    requires lop == a * 0x1_0000_0000_0000_0000 + rp && 0 <= rp < 0x1_0000_0000_0000_0000 && a >= 0 && hip >= 0
        && hip * 0x1_0000_0000_0000_0000 + lop < 0x1_0000_0000_0000_0000_0000_0000_0000_0000
    ensures UVal(Words(WrapU64(lop), OrDisjoint(WrapU64(hip), a))) == hip * 0x1_0000_0000_0000_0000 + lop
  {
    DivUnique(lop, 0x1_0000_0000_0000_0000, a);
    assert hip + a < 0x1_0000_0000_0000_0000;
    WrapSmall(hip);
    WrapSmall(hip + a);
  }

  lemma WrapSmall(x: int)
    requires 0 <= x < 0x1_0000_0000_0000_0000
    ensures WrapU64(x) == x
  {}

  lemma BitExact(v: Words, bit: nat)
    requires bit < 128
    ensures Bit(v, bit) == UVal(v) / Pow2(bit) % 2
  {
    Pow2Values();
    if bit < 64 {
      Pow2Add(64 - bit, bit);
      assert Pow2(64 - bit) == 2 * Pow2(63 - bit);
      LowBitExact(v.hi, v.lo, Pow2(bit), Pow2(63 - bit));
    } else {
      Pow2Add(64, bit - 64);
      HighBitExact(v.hi, v.lo, Pow2(bit - 64));
    }
  }

  lemma LowBitExact(hi: int, lo: int, p: int, k: int)
    requires p >= 1 && k >= 1 && 2 * k * p == 0x1_0000_0000_0000_0000
    ensures (hi * 0x1_0000_0000_0000_0000 + lo) / p % 2 == lo / p % 2
  {
    LowBit(hi, lo, p, 2 * k);
    EvenAway(lo / p, hi, k);
  }

  lemma HighBitExact(hi: int, lo: int, p: int)
    requires p >= 1 && 0 <= lo < 0x1_0000_0000_0000_0000
    ensures 0x1_0000_0000_0000_0000 * p > 0
        && (hi * 0x1_0000_0000_0000_0000 + lo) / (0x1_0000_0000_0000_0000 * p) == hi / p
  {
    DivDiv(hi * 0x1_0000_0000_0000_0000 + lo, 0x1_0000_0000_0000_0000, p);
    DivUnique(hi * 0x1_0000_0000_0000_0000 + lo, 0x1_0000_0000_0000_0000, hi);
  }

  lemma LowBit(hi: int, lo: int, p: int, q: int)
    requires p >= 1 && q >= 1 && q * p == 0x1_0000_0000_0000_0000
    ensures (hi * 0x1_0000_0000_0000_0000 + lo) / p == lo / p + hi * q
  {
    assert hi * 0x1_0000_0000_0000_0000 == (hi * q) * p;
    DivAddMultiple(lo, hi * q, p);
  }

  lemma EvenAway(x: int, hi: int, k: int)
    ensures (x + hi * (2 * k)) % 2 == x % 2
  {
    assert hi * (2 * k) == 2 * (hi * k);
  }

  method BitLengthU128(v: Words) returns (bits: nat)
    ensures UVal(v) > 0 ==> 1 <= bits <= 128 && Pow2(bits - 1) <= UVal(v) < Pow2(bits)
  {
    if v.hi != 0 {
      var high := BitLengthU64(v.hi);
      bits := 64 + high;
      Pow2Values();
      Pow2Add(high - 1, 64);
      Pow2Add(high, 64);
      MulMono(Pow2(high - 1), v.hi, 0x1_0000_0000_0000_0000);
      MulMono(v.hi + 1, Pow2(high), 0x1_0000_0000_0000_0000);
    } else {
      bits := BitLengthU64(v.lo);
    }
  }

  lemma BitLengthUnique(x: int, a: nat, b: nat)
    requires 1 <= a && 1 <= b && Pow2(a - 1) <= x < Pow2(a) && Pow2(b - 1) <= x < Pow2(b)
    ensures a == b
  {
    if a < b { Pow2Mono(a, b - 1); }
    if b < a { Pow2Mono(b, a - 1); }
  }

  // ----- Long division

  /** One more bit of the numerator. */
  lemma NextPrefix(n: nat, b: nat)
    ensures n / Pow2(b) == 2 * (n / Pow2(b + 1)) + n / Pow2(b) % 2
  {
    DivDiv(n, Pow2(b), 2);
    assert Pow2(b + 1) == Pow2(b) * 2;
  }

  /** The remainder before the subtraction fits, and the quotient gains its next bit. */
  lemma DivisionStep(prefix: int, next: int, d: int, q: int, rem: int, bit: int)
    requires d > 0 && prefix == q * d + rem && 0 <= rem < d && 0 <= bit < 2 && next == 2 * prefix + bit
    ensures 0 <= 2 * rem + bit < 2 * d
    ensures 2 * rem + bit >= d ==> next == (2 * q + 1) * d + (2 * rem + bit - d) && next / d == 2 * q + 1
    ensures 2 * rem + bit < d ==> next == (2 * q) * d + (2 * rem + bit) && next / d == 2 * q
  {
    var r := 2 * rem + bit;
    assert (2 * q) * d == 2 * (q * d) && (2 * q + 1) * d == 2 * (q * d) + d;
    if r >= d { DivUnique(next, d, 2 * q + 1); } else { DivUnique(next, d, 2 * q); }
  }

  /** The quotient word after the bits from `b` up: the low 64 bits of the partial quotient, in place. */
  function Placed(q: int, b: nat): int { if b >= 64 then 0 else Times(q % Pow2(64 - b), Pow2(b)) }

  lemma PlacedNext(q: int, bit: int, b: nat)
    requires q >= 0 && 0 <= bit < 2
    ensures Placed(2 * q + bit, b) == Placed(q, b + 1) + if b < 64 then Times(bit, Pow2(b)) else 0
  {
    if b < 63 {
      PlacedLow(q, bit, b, Pow2(63 - b), Pow2(b));
    } else if b == 63 {
      PlacedTop(q, bit, b, Pow2(b), Pow2(64 - b));
    }
  }

  lemma PlacedTop(q: int, bit: int, b: nat, p: int, two: int)
    requires q >= 0 && 0 <= bit < 2 && b == 63 && p == Pow2(b) && two == Pow2(64 - b)
    ensures Placed(2 * q + bit, b) == Placed(q, b + 1) + Times(bit, p)
  {
    assert two == 2 * Pow2(63 - b) && Pow2(63 - b) == 1;
    assert (2 * q + bit) % two == bit;
  }

  lemma PlacedLow(q: int, bit: int, b: nat, m: int, p: int)
    requires q >= 0 && 0 <= bit < 2 && b < 63 && m == Pow2(63 - b) && p == Pow2(b)
    ensures Placed(2 * q + bit, b) == Placed(q, b + 1) + Times(bit, p)
  {
    assert Pow2(64 - b) == 2 * m && Pow2(b + 1) == 2 * p && 64 - (b + 1) == 63 - b;
    DoubleMod(q, bit, m);
    TwoTerms(q % m, bit, p);
  }

  lemma TwoTerms(x: int, bit: int, p: int)
    ensures Times(2 * x + bit, p) == Times(x, 2 * p) + Times(bit, p)
  {}

  lemma DoubleMod(q: int, bit: int, m: int)
    requires q >= 0 && m >= 1 && 0 <= bit < 2
    ensures (2 * q + bit) % (2 * m) == 2 * (q % m) + bit
  {
    DivBounds(q, m);
    var a, r := q / m, q % m;
    assert 2 * q + bit == a * (2 * m) + (2 * r + bit);
    DivUnique(2 * q + bit, 2 * m, a);
  }

  /** Bitwise division with a 128-bit remainder: the low word of the quotient and the exact remainder. */
  method DivideU128(numerator: Words, denominator: Words) returns (quotient: int, remainder: Words)
    requires 0 < UVal(denominator) <= 0x8000_0000_0000_0000 * 0x1_0000_0000_0000_0000
    ensures quotient == UVal(numerator) / UVal(denominator) % 0x1_0000_0000_0000_0000
    ensures UVal(remainder) == UVal(numerator) % UVal(denominator)
  {
    var n, d := UVal(numerator), UVal(denominator);
    remainder, quotient := Words(0, 0), 0;
    var bit := 127;
    ghost var q := 0;
    PrefixStart(n);
    while bit >= 0
      invariant -1 <= bit < 128 && 0 <= q && 0 <= UVal(remainder) < d
      invariant n / Pow2(bit + 1) == q * d + UVal(remainder)
      invariant quotient == Placed(q, bit + 1)
      decreases bit + 1
    {
      var b := Bit(numerator, bit);
      BitExact(numerator, bit);
      NextPrefix(n, bit);
      DivisionStep(n / Pow2(bit + 1), n / Pow2(bit), d, q, UVal(remainder), b);
      PlacedNext(q, 0, bit);
      PlacedNext(q, 1, bit);
      ShiftInExact(remainder, b);
      remainder := ShiftIn(remainder, b);
      LessExact(remainder, denominator);
      if !Less(remainder, denominator) {
        SubExact(remainder, denominator);
        remainder := Sub(remainder, denominator);
        quotient := if bit < 64 then quotient + Pow2(bit) else quotient;
        q := 2 * q + 1;
      } else {
        q := 2 * q;
      }
      bit := bit - 1;
    }
    Finished(n, d, q, UVal(remainder));
  }

  lemma Finished(n: int, d: int, q: int, rem: int)
    requires 0 <= rem < d && n / Pow2(0) == q * d + rem
    ensures n / d == q && n % d == rem && Placed(q, 0) == q % 0x1_0000_0000_0000_0000
  {
    Pow2Values();
    assert Pow2(0) == 1;
    DivUnique(n, d, q);
  }

  lemma PrefixStart(n: int)
    requires 0 <= n < 0x1_0000_0000_0000_0000_0000_0000_0000_0000
    ensures n / Pow2(128) == 0
  {
    Pow2Values();
    Pow2Add(64, 64);
  }

  /** Shift left by one and set the low bit. */
  function ShiftIn(r: Words, b: int): (s: Words) {
    var t := ShiftLeft(r, 1);
    Words(OrDisjoint(t.lo, b), t.hi)
  }

  lemma ShiftInExact(r: Words, b: int)
    requires UVal(r) < 0x8000_0000_0000_0000 * 0x1_0000_0000_0000_0000 && 0 <= b < 2
    ensures UVal(ShiftIn(r, b)) == 2 * UVal(r) + b
  {
    assert Pow2(1) == 2;
    ShiftLeftExact(r, 1);
    var t := ShiftLeft(r, 1);
    assert UVal(t) == 2 * UVal(r);
    SetLowBit(t, UVal(r), b);
  }

  lemma SetLowBit(t: Words, half: int, b: int)
    requires UVal(t) == 2 * half && 0 <= b < 2
    ensures UVal(Words(OrDisjoint(t.lo, b), t.hi)) == 2 * half + b
  {
    assert t.lo == 2 * (half - t.hi * 0x8000_0000_0000_0000);
    WrapSmall(t.lo + b);
  }
}
