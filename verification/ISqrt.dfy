/** The unconditional 32-step square root (src/intmath.cpp lines 684-706). */
module ISqrt {
  import opened Arith

  const ITERATIONS: nat := 32

  function Square(x: int): int { x * x }

  /** `r` is the floor of the square root of `n / 4^k`. */
  predicate RootOf(n: int, k: nat, r: int) {
    r >= 0 && Square(r * Pow2(k)) <= n < Square((r + 1) * Pow2(k))
  }

  /** An iterate: such a root, at its weight. */
  ghost predicate Iterate(n: int, k: nat, v: int) { exists r :: RootOf(n, k, r) && v == r * Square(Pow2(k)) }

  /** The loop's state with `k` digits to go: the remainder, and the root so far at its weight. */
  predicate Digits(n: int, k: nat, r: int, remainder: int, root: int) {
    RootOf(n, k, r) && remainder == n - Square(r * Pow2(k)) && root == r * Square(Pow2(k))
  }

  lemma SquareOf(r: int, p: int)
    ensures Square(r * p) == Square(r) * Square(p)
  {
    assert (r * p) * (r * p) == (r * r) * (p * p);
  }

  lemma DoubledSquare(p: int)
    ensures Square(2 * p) == 4 * Square(p)
  {}

  /** One digit: with `w` the next digit's weight, trying it is comparing with (2r + 1)^2 w. */
  lemma NextDigit(n: int, k: nat, r: int, remainder: int, root: int)
    requires k > 0 && Digits(n, k, r, remainder, root)
    ensures var w := Square(Pow2(k - 1));
            root % 2 == 0 && root + w == (4 * r + 1) * w && root / 2 == (2 * r) * w && w >= 1
            && (if remainder >= root + w then Digits(n, k - 1, 2 * r + 1, remainder - (root + w), root / 2 + w)
                else Digits(n, k - 1, 2 * r, remainder, root / 2))
  {
    var p := Pow2(k - 1);
    var w := Square(p);
    DoubledSquare(p);
    assert root == (4 * r) * w by { assert root == r * (4 * w); }
    assert w >= 1 by { MulMono(1, p, p); }
    assert (4 * r) * w == 2 * ((2 * r) * w);
    assert (4 * r) * w + w == (4 * r + 1) * w;
    assert (2 * r) * w + w == (2 * r + 1) * w;
    SquareOf(r, 2 * p); SquareOf(r + 1, 2 * p);
    SquareOf(2 * r, p); SquareOf(2 * r + 1, p); SquareOf(2 * r + 2, p);
    DigitSquares(r, w);
  }

  lemma DigitSquares(r: int, w: int)
    ensures Square(2 * r) * w == Square(r) * (4 * w)
    ensures Square(2 * r + 1) * w == Square(r) * (4 * w) + (4 * r + 1) * w
    ensures Square(2 * r + 2) * w == Square(r + 1) * (4 * w)
  {
    var s := r * r;
    assert Square(2 * r) == 4 * s && Square(2 * r + 1) == 4 * s + (4 * r + 1) && Square(2 * r + 2) == 4 * Square(r + 1);
    assert (4 * s) * w == s * (4 * w);
    assert (4 * s + (4 * r + 1)) * w == (4 * s) * w + (4 * r + 1) * w;
    assert (4 * Square(r + 1)) * w == Square(r + 1) * (4 * w);
  }

  lemma RootBelow(r: int, p: int, h: int)
    requires r >= 0 && p >= 1 && h * p == 0x1_0000_0000 && Square(r * p) < 0x8000_0000_0000_0000
    ensures r < h && r * p < 0x1_0000_0000
  {
    var x := r * p;
    MulMono(0, r, p);
    if x >= 0x1_0000_0000 { MulMono(0x1_0000_0000, x, x); MulMono(0x1_0000_0000, x, 0x1_0000_0000); }
    if r >= h { MulMono(h, r, p); }
  }

  /** The root so far, and the next trial, fit in int64. */
  lemma TrialFits(n: int, k: nat, r: int, root: int)
    requires 0 <= n < 0x8000_0000_0000_0000 && 0 < k <= 32 && RootOf(n, k, r) && root == r * Square(Pow2(k))
    ensures 0 <= root && root + Square(Pow2(k - 1)) < 0x8000_0000_0000_0000
  {
    PowersTo32(k);
    RootBelow(r, Pow2(k), Pow2(32 - k));
    RootNotNegative(r, Pow2(k));
    TrialBound(r, k, Pow2(k), Pow2(32 - k));
  }

  lemma PowersTo32(k: nat)
    requires k <= 32
    ensures Pow2(32 - k) * Pow2(k) == 0x1_0000_0000
  {
    Pow2Add(32 - k, k);
    Pow2Values();
  }

  lemma RootNotNegative(r: int, p: int)
    requires r >= 0 && p >= 1
    ensures r * Square(p) >= 0
  {
    MulMono(0, p, p);
    MulMono(0, r, Square(p));
  }

  lemma TrialBound(r: int, k: nat, p: int, h: int)
    requires 0 < k <= 32 && p == Pow2(k) && h == Pow2(32 - k) && 0 <= r < h && h * p == 0x1_0000_0000
    ensures r * Square(p) + Square(Pow2(k - 1)) < 0x8000_0000_0000_0000
  {
    var half := Pow2(k - 1);
    DoubledSquare(half);
    Pow2Values();
    if k < 32 {
      Pow2Mono(k, 31);
      MulMono(1, half, half);
      WeightBound(r, Square(half), p, h);
    }
  }

  lemma WeightBound(r: int, q: int, p: int, h: int)
    requires 0 <= r < h && h * p == 0x1_0000_0000 && p <= 0x8000_0000 && p * p == 4 * q && q >= 1
    ensures r * (4 * q) + q < 0x8000_0000_0000_0000
  {
    MulMono(r, h - 1, 4 * q);
    MulAssoc(h, p, p);
    assert (h - 1) * (4 * q) == h * (4 * q) - 4 * q;
  }

  /** Every iterate is the root of the leading digits at its weight, and the last is the floor square root: no step
      leaves int64. */
  method ISqrtIterates(n: I64) returns (out: seq<I64>)
    requires n >= 0
    ensures |out| == ITERATIONS
    ensures forall i :: 0 <= i < ITERATIONS ==> Iterate(n, 31 - i, out[i])
    ensures Square(out[31]) <= n < Square(out[31] + 1)
  {
    var remainder: I64 := n;
    var root: I64 := 0;
    var bit: I64 := 0x4000_0000_0000_0000;
    out := [];
    ghost var r := 0;
    assert Pow2(32) == 0x1_0000_0000 && Pow2(31) == 0x8000_0000 by { Pow2Values(); }
    for i := 0 to 32
      invariant |out| == i && Digits(n, 32 - i, r, remainder, root)
      invariant bit == if i < 32 then Square(Pow2(31 - i)) else 0
      invariant forall j :: 0 <= j < i ==> Iterate(n, 31 - j, out[j])
      invariant i > 0 ==> out[i - 1] == root
    {
      TrialFits(n, 32 - i, r, root);
      root, remainder, r := Step(n, 32 - i, r, remainder, root, bit);
      assert Iterate(n, 31 - i, root);
      QuarterWeight(31 - i, bit);
      bit := bit / 4;
      out := out + [root];
    }
    assert Pow2(0) == 1;
  }

  /** One turn of the loop. */
  method Step(ghost n: int, ghost k: nat, ghost r: int, remainder: I64, root: I64, bit: I64)
    returns (root': I64, remainder': I64, ghost r': int)
    requires k > 0 && Digits(n, k, r, remainder, root) && bit == Square(Pow2(k - 1))
        && root + bit < 0x8000_0000_0000_0000 && root >= 0
    ensures Digits(n, k - 1, r', remainder', root')
  {
    NextDigit(n, k, r, remainder, root);
    var trial: I64 := root + bit;
    if remainder >= trial {
      root', remainder', r' := root / 2 + bit, remainder - trial, 2 * r + 1;
    } else {
      root', remainder', r' := root / 2, remainder, 2 * r;
    }
  }

  lemma QuarterWeight(k: nat, bit: int)
    requires bit == Square(Pow2(k))
    ensures bit / 4 == if k > 0 then Square(Pow2(k - 1)) else 0
  {
    if k > 0 { DoubledSquare(Pow2(k - 1)); }
  }

  method ISqrt(n: I64) returns (root: I64)
    requires n >= 0
    ensures root >= 0 && Square(root) <= n < Square(root + 1)
  {
    var it := ISqrtIterates(n);
    root := it[31];
    assert Iterate(n, 0, root) && Pow2(0) == 1;
  }
}
