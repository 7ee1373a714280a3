/** The sigmoid table lookup (src/silu_lut.cpp lines 16-67) and the rounding division it uses twice
(src/intmath.cpp lines 271-290). */
module Silu {
  import opened Arith

  const NODES: int := 1024
  const LOG2_K: int := 5
  const Q_IDX: int := 12
  const FRAC: int := 0x1000
  const DOMAIN: int := 0x40_0000

  /** The arithmetic shift, with the remainder compared against half. */
  function RoundingDivideByPOT(x: int, e: nat): int {
    var mask := Pow2(e) - 1;
    var remainder := x % Pow2(e);
    var threshold := mask / 2 + if x < 0 then 1 else 0;
    x / Pow2(e) + if remainder > threshold then 1 else 0
  }

  /** Division by 2^e, rounded to nearest with ties away from zero. */
  function RoundAway(x: int, e: nat): int {
    if x < 0 then -((2 * -x + Pow2(e)) / (2 * Pow2(e))) else (2 * x + Pow2(e)) / (2 * Pow2(e))
  }

  /** The shift form rounds to nearest, ties away from zero. */
  lemma RoundsAway(x: int, e: nat)
    ensures RoundingDivideByPOT(x, e) == RoundAway(x, e)
  {
    var p := Pow2(e);
    var q, r := x / p, x % p;
    DivBounds(x, p);
    if e == 0 {
      assert p == 1 && q == x && r == 0;
      DivUnique(2 * Abs(x) + 1, 2, Abs(x));
    } else {
      assert p == 2 * Pow2(e - 1);
      EvenRounding(x, p, Pow2(e - 1), q, r);
    }
  }

  lemma EvenRounding(x: int, p: int, half: int, q: int, r: int)
    requires p == 2 * half && half >= 1 && x == q * p + r && 0 <= r < p
    ensures x >= 0 ==> (2 * x + p) / (2 * p) == q + if r > half - 1 then 1 else 0
    ensures x < 0 ==> -((2 * -x + p) / (2 * p)) == q + if r > half then 1 else 0
  {
    if x >= 0 {
      var t := q + if r > half - 1 then 1 else 0;
      assert t * (2 * p) == 2 * (q * p) + if r > half - 1 then 2 * p else 0;
      DivUnique(2 * x + p, 2 * p, t);
    } else {
      var t := q + if r > half then 1 else 0;
      assert -t * (2 * p) == -2 * (q * p) - if r > half then 2 * p else 0;
      DivUnique(2 * -x + p, 2 * p, -t);
    }
  }

  lemma RoundingMono(x: int, y: int, e: nat)
    requires x <= y
    ensures RoundingDivideByPOT(x, e) <= RoundingDivideByPOT(y, e)
  {
    RoundsAway(x, e);
    RoundsAway(y, e);
    var p := Pow2(e);
    if x >= 0 { DivMono(2 * x + p, 2 * y + p, 2 * p); }
    else if y < 0 { DivMono(2 * -y + p, 2 * -x + p, 2 * p); }
    else {
      DivMono(0, 2 * -x + p, 2 * p);
      DivMono(0, 2 * y + p, 2 * p);
      DivUnique(0, 2 * p, 0);
    }
  }

  /** A multiple of the divisor rounds to itself. */
  lemma RoundingExact(k: int, e: nat)
    ensures RoundingDivideByPOT(k * Pow2(e), e) == k
  {
    DivUnique(k * Pow2(e), Pow2(e), k);
  }

  lemma RoundingShrinks(x: int, e: nat)
    ensures Abs(RoundingDivideByPOT(x, e)) <= Abs(x)
  {
    RoundsAway(x, e);
    var p, a := Pow2(e), Abs(x);
    MulMono(1, p, a);
    DivMono(0, 2 * a + p, 2 * p);
    DivUnique(0, 2 * p, 0);
    if a == 0 { DivUnique(p, 2 * p, 0); }
    else {
      assert (2 * p) * a == 2 * (p * a);
      RoundedAtMost(a, p);
    }
  }

  lemma RoundedAtMost(a: int, p: int)
    requires a >= 1 && p >= 1
    ensures (2 * a + p) / (2 * p) <= a
  {
    var t := (2 * a + p) / (2 * p);
    DivBounds(2 * a + p, 2 * p);
    if t > a {
      MulMono(a + 1, t, 2 * p);
      assert false;
    }
  }

  // ----- The lookup

  predicate Table(t: seq<I32>) { |t| == NODES + 1 && forall j, k :: 0 <= j <= k <= NODES ==> t[j] <= t[k] }

  /** A node, widened. */
  function Node(t: seq<I32>, i: int): int
    requires Table(t) && 0 <= i <= NODES
  {
    t[i]
  }

  predicate Scale(m: int, e: int) { 0 <= m < 0x8000_0000 && -80 <= e <= 7 }

  /** The table position before saturation, in Q12 sub-nodes. */
  function Position(code: int, m: int, e: int): I64
    requires -128 <= code <= 127 && Scale(m, e)
  {
    var term: I64 := Term(code, m);
    var shift := e + LOG2_K + Q_IDX;
    PlacedFits(code, m, shift);
    var placed: I64 := if shift >= 0 then term * Pow2(shift) else RoundingDivideByPOT(term, -shift);
    placed + DOMAIN / 2
  }

  function Term(code: int, m: int): (t: int)
    requires -128 <= code <= 127 && 0 <= m < 0x8000_0000
    ensures -0x40_0000_0000 <= t <= 0x40_0000_0000
  {
    MulMono(-128, code, m);
    MulMono(code, 127, m);
    code * m
  }

  /** Neither branch leaves int64. */
  lemma PlacedFits(code: int, m: int, shift: int)
    requires -128 <= code <= 127 && 0 <= m < 0x8000_0000 && -63 <= shift <= 24
    ensures shift >= 0 ==> -0x4000_0000_0000_0000 <= Term(code, m) * Pow2(shift) <= 0x4000_0000_0000_0000
    ensures shift < 0 ==> -0x4000_0000_0000_0000 <= RoundingDivideByPOT(Term(code, m), -shift) <= 0x4000_0000_0000_0000
  {
    var t := Term(code, m);
    if shift >= 0 {
      Pow2Mono(shift, 24);
      assert Pow2(24) == 0x100_0000 by { Pow2Values(); Pow2Add(16, 8); assert Pow2(8) == 256; }
      var p := Pow2(shift);
      MulMono(-0x40_0000_0000, t, p);
      MulMono(t, 0x40_0000_0000, p);
    } else {
      RoundingShrinks(t, -shift);
    }
  }

  function Saturate(pos: int): int { if pos < 0 then 0 else if pos > DOMAIN then DOMAIN else pos }

  /** The interpolated value at a saturated position. */
  function Interpolate(t: seq<I32>, pos: int): I32
    requires Table(t) && 0 <= pos <= DOMAIN
  {
    var i0 := Min(pos / FRAC, NODES - 1);
    var frac := pos - i0 * FRAC;
    InterpolationBounds(t, pos);
    var product: I64 := frac * (Node(t, i0 + 1) - Node(t, i0));
    Node(t, i0) + RoundingDivideByPOT(product, Q_IDX)
  }

  /** The node index and its neighbour are in the table, and the value lies between the two nodes. */
  lemma InterpolationBounds(t: seq<I32>, pos: int)
    requires Table(t) && 0 <= pos <= DOMAIN
    ensures var i0 := Min(pos / FRAC, NODES - 1); var frac := pos - i0 * FRAC;
            0 <= i0 < NODES && 0 <= frac <= FRAC
                && -0x8000_0000_0000_0000 <= frac * (Node(t, i0 + 1) - Node(t, i0)) < 0x8000_0000_0000_0000
            && 0 <= RoundingDivideByPOT(frac * (Node(t, i0 + 1) - Node(t, i0)), Q_IDX) <= Node(t, i0 + 1) - Node(t, i0)
  {
    var i0 := Min(pos / FRAC, NODES - 1);
    var frac := pos - i0 * FRAC;
    var diff := Node(t, i0 + 1) - Node(t, i0);
    assert Pow2(Q_IDX) == FRAC;
    MulMono(0, frac, diff);
    MulMono(frac, FRAC, diff);
    RoundingMono(0, frac * diff, Q_IDX);
    RoundingMono(frac * diff, diff * FRAC, Q_IDX);
    RoundingExact(0, Q_IDX);
    RoundingExact(diff, Q_IDX);
  }

  /** Positions further right give no smaller value. */
  lemma InterpolateMono(t: seq<I32>, p: int, q: int)
    requires Table(t) && 0 <= p <= q <= DOMAIN
    ensures Interpolate(t, p) <= Interpolate(t, q)
  {
    InterpolationBounds(t, p);
    InterpolationBounds(t, q);
    var i, j := Min(p / FRAC, NODES - 1), Min(q / FRAC, NODES - 1);
    assert i <= j;
    if i == j {
      var diff := Node(t, i + 1) - Node(t, i);
      MulMono(p - i * FRAC, q - i * FRAC, diff);
      RoundingMono((p - i * FRAC) * diff, (q - i * FRAC) * diff, Q_IDX);
    } else {
      assert Node(t, i + 1) <= Node(t, j);
    }
  }

  /** The lookup as called. */
  function SiluSigmoidQ15(t: seq<I32>, code: int, m: int, e: int): I32
    requires Table(t) && -128 <= code <= 127 && Scale(m, e)
  {
    Interpolate(t, Saturate(Position(code, m, e)))
  }

  lemma PositionMono(c: int, d: int, m: int, e: int)
    requires -128 <= c <= d <= 127 && Scale(m, e)
    ensures Position(c, m, e) <= Position(d, m, e)
  {
    MulMono(c, d, m);
    var shift := e + LOG2_K + Q_IDX;
    if shift >= 0 { MulMono(Term(c, m), Term(d, m), Pow2(shift)); }
    else { RoundingMono(Term(c, m), Term(d, m), -shift); }
  }

  /** For every non-decreasing table and every admitted scale the lookup is non-decreasing in the code and stays
      between the table's ends, which saturated positions reach exactly. */
  lemma SiluIsMonotone(t: seq<I32>, c: int, d: int, m: int, e: int)
    requires Table(t) && -128 <= c <= d <= 127 && Scale(m, e)
    ensures SiluSigmoidQ15(t, c, m, e) <= SiluSigmoidQ15(t, d, m, e)
    ensures Node(t, 0) <= SiluSigmoidQ15(t, c, m, e) <= Node(t, NODES)
    ensures Position(c, m, e) <= 0 ==> SiluSigmoidQ15(t, c, m, e) == Node(t, 0)
    ensures Position(c, m, e) >= DOMAIN ==> SiluSigmoidQ15(t, c, m, e) == Node(t, NODES)
  {
    PositionMono(c, d, m, e);
    InterpolateMono(t, Saturate(Position(c, m, e)), Saturate(Position(d, m, e)));
    InterpolateMono(t, 0, Saturate(Position(c, m, e)));
    InterpolateMono(t, Saturate(Position(c, m, e)), DOMAIN);
    EndNodes(t);
  }

  lemma EndNodes(t: seq<I32>)
    requires Table(t)
    ensures Interpolate(t, 0) == Node(t, 0) && Interpolate(t, DOMAIN) == Node(t, NODES)
  {
    assert Pow2(Q_IDX) == FRAC;
    RoundingExact(0, Q_IDX);
    RoundingExact(Node(t, NODES) - Node(t, NODES - 1), Q_IDX);
  }

  /** A code of zero looks up the middle node. */
  lemma ZeroIsMiddle(t: seq<I32>, m: int, e: int)
    requires Table(t) && Scale(m, e)
    ensures SiluSigmoidQ15(t, 0, m, e) == Node(t, NODES / 2)
  {
    var shift := e + LOG2_K + Q_IDX;
    if shift < 0 { RoundingExact(0, -shift); }
    assert Position(0, m, e) == DOMAIN / 2;
    RoundingExact(0, Q_IDX);
  }

  // ----- What the numbers are

  lemma Pow2Twelve()
    ensures Pow2(12) == 0x1000
  {
    assert Pow2(8) == 256 && Pow2(4) == 16;
    Pow2Add(8, 4);
  }

  /** A rounded shift is within half a unit of the exact quotient. */
  lemma RoundingIsNear(x: int, e: nat)
    ensures -Pow2(e) <= 2 * (RoundingDivideByPOT(x, e) * Pow2(e) - x) <= Pow2(e)
  {
    RoundsAway(x, e);
    var p, q := Pow2(e), (2 * Abs(x) + Pow2(e)) / (2 * Pow2(e));
    NearestTo(Abs(x), p, q);
    if x < 0 { Negated(q, p); }
  }

  lemma NearestTo(a: int, p: int, q: int)
    requires p >= 1 && q == (2 * a + p) / (2 * p)
    ensures -p <= 2 * (q * p - a) <= p
  {
    DivBounds(2 * a + p, 2 * p);
    DoubledProduct(q, p);
  }

  lemma DoubledProduct(q: int, p: int)
    ensures q * (2 * p) == 2 * (q * p)
  {}

  lemma Negated(q: int, p: int)
    ensures (-q) * p == -(q * p)
  {}

  /** Every node is reproduced exactly, 4096 positions apart, from the first to the last. */
  lemma NodesAreExact(t: seq<I32>, i: nat)
    requires Table(t) && i <= 1024
    ensures Interpolate(t, 0x1000 * i) == Node(t, i)
  {
    Pow2Twelve();
    RoundingExact(0, 12);
    if i == 1024 { EndNodes(t); } else { DivUnique(0x1000 * i, 0x1000, i); }
  }

  /** Between two nodes the value is within half a unit of the line through them. */
  lemma NearTheLine(t: seq<I32>, i: nat, f: nat)
    requires Table(t) && i < 1024 && f <= 0x1000
    ensures var line := f * (Node(t, i + 1) - Node(t, i));
            -0x1000 <= 2 * (0x1000 * (Interpolate(t, 0x1000 * i + f) - Node(t, i)) - line) <= 0x1000
  {
    Pow2Twelve();
    if f == 0x1000 {
      NodesAreExact(t, i + 1);
    } else {
      DivUnique(0x1000 * i + f, 0x1000, i);
      RoundingIsNear(f * (Node(t, i + 1) - Node(t, i)), 12);
    }
  }

  /** The position is the code's scaled value, 2^17 sub-nodes to one, from the middle of the table: exact for a left
      shift and within half a sub-node for a right one. */
  lemma PositionIs(code: int, m: int, e: int)
    requires -128 <= code <= 127 && Scale(m, e)
    ensures e >= -17 ==> Position(code, m, e) == 0x20_0000 + Term(code, m) * Pow2(e + 17) && Term(code, m) == code * m
    ensures e < -17 ==>
              -Pow2(-17 - e) <= 2 * ((Position(code, m, e) - 0x20_0000) * Pow2(-17 - e) - code * m) <= Pow2(-17 - e)
  {
    if e < -17 { RoundingIsNear(Term(code, m), -17 - e); }
  }
}
