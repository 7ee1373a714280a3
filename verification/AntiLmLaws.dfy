/** What the anti-LM's weights and penalties are worth, from below as well as from above
(src/damped_greedy_antilm.cpp lines 211-281). */
module AntiLmLaws {
  import opened Arith
  import opened AntiLm

  // ----- Weights

  /** The powers of 0.9 in Q15: one at exponent 0, and then each is the floor of 29491/32768 of the one before. */
  lemma PowersFall(e: nat)
    ensures Q15Pow(0) == 0x8000
    ensures Q15Pow(e + 1) * 0x8000 <= Q15Pow(e) * 29491 < Q15Pow(e + 1) * 0x8000 + 0x8000
  {
    DivBounds(Q15Pow(e) * 29491, 0x8000);
  }

  /** The active orders, lowest first. */
  function ActiveOrders(h: seq<int>, n: nat): (s: seq<int>)
    ensures forall k :: k in s <==> 0 <= k < n && Active(h, k)
  {
    if n == 0 then [] else ActiveOrders(h, n - 1) + if Active(h, n - 1) then [n - 1] else []
  }

  lemma OrdersMore(h: seq<int>, n: nat, f: int -> int)
    ensures SumOf(ActiveOrders(h, n + 1), f) == SumOf(ActiveOrders(h, n), f) + if Active(h, n) then f(n) else 0
  {
    if Active(h, n) { LastTerm(ActiveOrders(h, n), n, f); }
    else { assert ActiveOrders(h, n + 1) == ActiveOrders(h, n); }
  }

  /** The divisor is the sum of the active orders' powers. */
  lemma {:induction false} RawSumIs(h: seq<int>, orders: nat, n: nat, power: int -> int)
    requires n <= orders && forall k :: 0 <= k < orders ==> power(k) == Q15Pow(orders - 1 - k)
    ensures RawSum(h, orders, n) == SumOf(ActiveOrders(h, n), power)
  {
    if n > 0 {
      RawSumIs(h, orders, n - 1, power);
      OrdersMore(h, n - 1, power);
    }
  }

  lemma LastTerm(s: seq<int>, x: int, f: int -> int)
    ensures SumOf(s + [x], f) == SumOf(s, f) + f(x)
  {
    assert (s + [x])[..|s|] == s;
  }

  /** With an active order above it, an order's weight is the floor of its power's part of the sum in Q15. */
  lemma WeightIsFloor(h: seq<int>, orders: nat, n: nat, above: nat)
    requires Divides(h, orders) && n < above < orders && Active(h, n) && Active(h, above)
    ensures var s := RawSum(h, orders, orders);
            s > 0 && Weight(h, orders, n) * s <= 0x8000 * Q15Pow(orders - 1 - n) < Weight(h, orders, n) * s + s
  {
    OneMoreActive(h, n, above, orders);
    DivBounds(Q15Pow(orders - 1 - n) * 0x8000, RawSum(h, orders, orders));
  }

  lemma OneMoreActive(h: seq<int>, n: nat, above: nat, orders: nat)
    requires n < above < orders && Active(h, n) && Active(h, above)
    ensures 1 <= ActiveCount(h, n + 1) < ActiveCount(h, orders)
  {
    ActiveCountGrows(h, n + 1, above);
    ActiveCountGrows(h, above + 1, orders);
  }

  /** The last active order's weight is what the others leave of one. */
  lemma LastWeightIsRest(h: seq<int>, orders: nat, n: nat)
    requires Divides(h, orders) && n < orders && Active(h, n) && forall k :: n < k < orders ==> !Active(h, k)
    ensures NormSum(h, orders, n) + Weight(h, orders, n) == 0x8000
  {
    NoneBeyond(h, n + 1, orders);
  }

  lemma {:induction false} NoneBeyond(h: seq<int>, a: nat, b: nat)
    requires a <= b && forall k :: a <= k < b ==> !Active(h, k)
    ensures ActiveCount(h, a) == ActiveCount(h, b)
    decreases b
  {
    if a < b { NoneBeyond(h, a, b - 1); }
  }

  /** The weights before an order are those of the active ones, added up. */
  lemma {:induction false} NormSumIs(h: seq<int>, orders: nat, n: nat, weight: int -> int)
    requires n <= orders && Divides(h, orders)
    requires forall k: nat :: k < orders && Active(h, k) ==> weight(k) == Weight(h, orders, k)
    ensures NormSum(h, orders, n) == SumOf(ActiveOrders(h, n), weight)
  {
    if n > 0 {
      NormSumIs(h, orders, n - 1, weight);
      OrdersMore(h, n - 1, weight);
    }
  }

  // ----- Penalties

  /** A share is the floor of the token's part of its context's occurrences in Q15. */
  lemma ShareIsFloor(h: seq<int>, n: nat, token: int)
    requires Active(h, n)
    ensures var ctx := Context(h, n);
            Share(h, n, token) * Seen(h, ctx) <= 0x8000 * Occurrences(h, ctx, token)
            < Share(h, n, token) * Seen(h, ctx) + Seen(h, ctx)
  {
    DivBounds(Occurrences(h, Context(h, n), token) * 0x8000, Seen(h, Context(h, n)));
  }

  /** A penalty is the sum, over all active orders, of the floors of share times weight in Q15. */
  lemma {:induction false} PenaltyIs(h: seq<int>, orders: nat, n: nat, token: int, part: int -> int)
    requires n <= orders && Divides(h, orders)
    requires forall k: nat :: k < orders && Active(h, k) ==>
               part(k) * 0x8000 <= Share(h, k, token) * Weight(h, orders, k) < part(k) * 0x8000 + 0x8000
    ensures Penalty(h, orders, n, token) == SumOf(ActiveOrders(h, n), part)
  {
    if n > 0 {
      PenaltyIs(h, orders, n - 1, token, part);
      OrdersMore(h, n - 1, part);
      if Active(h, n - 1) { DivUnique(Share(h, n - 1, token) * Weight(h, orders, n - 1), 0x8000, part(n - 1)); }
    }
  }

  // ----- The lower bound

  /** A sum of floors loses less than one per term. */
  lemma {:induction false} FloorsLose(cs: seq<int>, g: int -> int, f: int -> int, k: int, d: int)
    requires d > 0 && forall c :: c in cs ==> g(c) == f(c) * k / d
    ensures SumOf(cs, g) * d >= SumOf(cs, f) * k - |cs| * d
  {
    if cs != [] {
      var rest, c := cs[..|cs| - 1], cs[|cs| - 1];
      FloorsLose(rest, g, f, k, d);
      DivBounds(f(c) * k, d);
      Distributes(SumOf(rest, g), g(c), d);
      Distributes(SumOf(rest, f), f(c), k);
      Distributes(|rest|, 1, d);
    }
  }

  /** Candidates that cover the history share a context to within one unit each. */
  lemma SharesAtLeast(h: seq<int>, n: nat, cs: seq<int>, shares: int -> int)
    requires Active(h, n) && Distinct(cs) && (forall t :: t in h ==> t in cs)
    requires forall c :: c in cs ==> shares(c) == Share(h, n, c)
    ensures SumOf(cs, shares) >= 0x8000 - |cs|
  {
    var ctx := Context(h, n);
    var counts: int -> int := c => Occurrences(h, ctx, c);
    SumIsOccurrences(h, ctx, cs, counts);
    SharedOccurrences(h, ctx, cs);
    FloorsLose(cs, shares, counts, 0x8000, Seen(h, ctx));
    CancelFactor(SumOf(cs, shares), |cs|, Seen(h, ctx));
  }

  lemma CancelFactor(a: int, n: int, d: int)
    requires d > 0 && a * d >= d * 0x8000 - n * d
    ensures a >= 0x8000 - n
  {
    if a < 0x8000 - n {
      MulMono(a + 1, 0x8000 - n, d);
      assert false;
    }
  }

  lemma ContributionsAtLeast(h: seq<int>, orders: nat, n: nat, cs: seq<int>, parts: int -> int)
    requires n < orders && Divides(h, orders) && Active(h, n) && Distinct(cs) && (forall t :: t in h ==> t in cs)
    requires forall c :: c in cs ==> parts(c) == Contribution(h, orders, n, c)
    ensures SumOf(cs, parts) * 0x8000 >= (0x8000 - |cs|) * Weight(h, orders, n) - |cs| * 0x8000
  {
    var w := Weight(h, orders, n);
    var shares: int -> int := c => Share(h, n, c);
    WeightRange(h, orders, n);
    SharesAtLeast(h, n, cs, shares);
    FloorsLose(cs, parts, shares, w, 0x8000);
    MulMono(0x8000 - |cs|, SumOf(cs, shares), w);
  }

  /** Up to order `n`, the penalties of covering candidates reach the weights, less the roundings. */
  lemma {:induction false} PenaltiesReach(h: seq<int>, orders: nat, n: nat, cs: seq<int>, penalties: int -> int)
    requires n <= orders && Divides(h, orders) && Distinct(cs) && (forall t :: t in h ==> t in cs)
    requires forall c :: c in cs ==> penalties(c) == Penalty(h, orders, n, c)
    ensures Reaches(SumOf(cs, penalties), |cs|, NormSum(h, orders, n), ActiveCount(h, n))
  {
    if n == 0 {
      SumOfZero(cs, penalties);
    } else {
      var before: int -> int := c => Penalty(h, orders, n - 1, c);
      PenaltiesReach(h, orders, n - 1, cs, before);
      var parts: int -> int := c => if Active(h, n - 1) then Contribution(h, orders, n - 1, c) else 0;
      SumOfAdd(cs, before, parts, penalties);
      if Active(h, n - 1) { OrderReaches(h, orders, n - 1, cs, SumOf(cs, before), parts); } else {
        SumOfZero(cs, parts);
      }
    }
  }

  lemma OrderReaches(h: seq<int>, orders: nat, n: nat, cs: seq<int>, before: int, parts: int -> int)
    requires n < orders && Divides(h, orders) && Active(h, n) && Distinct(cs) && (forall t :: t in h ==> t in cs)
    requires forall c :: c in cs ==> parts(c) == Contribution(h, orders, n, c)
    requires Reaches(before, |cs|, NormSum(h, orders, n), ActiveCount(h, n))
    ensures Reaches(before + SumOf(cs, parts), |cs|, NormSum(h, orders, n + 1), ActiveCount(h, n + 1))
  {
    ContributionsAtLeast(h, orders, n, cs, parts);
    OrderAdds(before, SumOf(cs, parts), |cs|, NormSum(h, orders, n), Weight(h, orders, n), ActiveCount(h, n));
  }

  /** `n` candidates' total, against the weights they share and the roundings of `count` orders. */
  predicate Reaches(total: int, n: int, norm: int, count: int) {
    total * 0x8000 >= (0x8000 - n) * norm - n * 0x8000 * count
  }

  lemma OrderAdds(before: int, parts: int, n: int, norm: int, weight: int, count: int)
    requires Reaches(before, n, norm, count) && parts * 0x8000 >= (0x8000 - n) * weight - n * 0x8000
    ensures Reaches(before + parts, n, norm + weight, count + 1)
  {
    assert (0x8000 - n) * (norm + weight) == (0x8000 - n) * norm + (0x8000 - n) * weight;
    assert n * 0x8000 * (count + 1) == n * 0x8000 * count + n * 0x8000;
  }

  /** Candidates that cover the history take all of one but for the roundings: at most one unit per candidate in every
      active order, and one more in all. */
  lemma PenaltiesNearOne(h: seq<int>, orders: nat, cs: seq<int>, penalties: int -> int)
    requires Divides(h, orders) && Distinct(cs) && (forall t :: t in h ==> t in cs) && ActiveCount(h, orders) > 0
    requires forall c :: c in cs ==> penalties(c) == Penalty(h, orders, orders, c)
    ensures 0x8000 - |cs| * (ActiveCount(h, orders) + 1) <= SumOf(cs, penalties) <= 0x8000
  {
    PenaltiesReach(h, orders, orders, cs, penalties);
    PenaltiesWithinOne(h, orders, orders, cs, penalties);
    WeightsAddToOne(h, orders, orders);
    NearOne(|cs|, SumOf(cs, penalties), ActiveCount(h, orders));
  }

  lemma NearOne(n: int, total: int, count: int)
    requires Reaches(total, n, 0x8000, count)
    ensures total >= 0x8000 - n * (count + 1)
  {
    assert n * 0x8000 * count == n * count * 0x8000;
    assert n * (count + 1) == n * count + n;
  }
}
