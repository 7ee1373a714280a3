/** The n-gram anti-LM: src/damped_greedy_antilm.cpp lines 130-281. Its hash maps are Dafny maps. */
module AntiLm {
  import opened Arith

  const BETA_Q15: int := 29491

  // ----- What the tables count

  /** Token `t` at the end of `h` directly follows the context. */
  predicate Follows(h: seq<int>, ctx: seq<int>) {
    |h| > |ctx| && h[|h| - 1 - |ctx|..|h| - 1] == ctx
  }

  /** Occurrences of the context followed by the token. */
  function Occurrences(h: seq<int>, ctx: seq<int>, token: int): nat {
    if h == [] then 0
    else Occurrences(h[..|h| - 1], ctx, token) + if Follows(h, ctx) && h[|h| - 1] == token then 1 else 0
  }

  /** Occurrences of the context followed by any token. */
  function Seen(h: seq<int>, ctx: seq<int>): nat {
    if h == [] then 0 else Seen(h[..|h| - 1], ctx) + if Follows(h, ctx) then 1 else 0
  }

  lemma OneMore(h: seq<int>, t: int, ctx: seq<int>, token: int)
    ensures Follows(h + [t], ctx) <==> |ctx| <= |h| && h[|h| - |ctx|..] == ctx
    ensures Occurrences(h + [t], ctx, token)
         == Occurrences(h, ctx, token) + if Follows(h + [t], ctx) && t == token then 1 else 0
    ensures Seen(h + [t], ctx) == Seen(h, ctx) + if Follows(h + [t], ctx) then 1 else 0
  {
    assert (h + [t])[..|h|] == h;
    if |ctx| <= |h| { assert (h + [t])[|h| - |ctx|..|h|] == h[|h| - |ctx|..]; }
  }

  lemma {:induction false} OccurrencesAtMostSeen(h: seq<int>, ctx: seq<int>, token: int)
    ensures Occurrences(h, ctx, token) <= Seen(h, ctx)
  {
    if h != [] { OccurrencesAtMostSeen(h[..|h| - 1], ctx, token); }
  }

  predicate Distinct(cs: seq<int>) { forall i, j :: 0 <= i < j < |cs| ==> cs[i] != cs[j] }

  function SumOccurrences(h: seq<int>, ctx: seq<int>, cs: seq<int>): nat {
    if cs == [] then 0 else SumOccurrences(h, ctx, cs[..|cs| - 1]) + Occurrences(h, ctx, cs[|cs| - 1])
  }

  /** Distinct tokens share a context's occurrences, and the tokens of the history take all of them. */
  lemma {:induction false} SharedOccurrences(h: seq<int>, ctx: seq<int>, cs: seq<int>)
    requires Distinct(cs)
    ensures SumOccurrences(h, ctx, cs) <= Seen(h, ctx)
    ensures (forall t :: t in h ==> t in cs) ==> SumOccurrences(h, ctx, cs) == Seen(h, ctx)
  {
    if h == [] {
      NoOccurrences(ctx, cs);
    } else {
      var p, t := h[..|h| - 1], h[|h| - 1];
      SharedOccurrences(p, ctx, cs);
      SumOneMore(p, t, ctx, cs);
      assert p + [t] == h;
    }
  }

  lemma {:induction false} NoOccurrences(ctx: seq<int>, cs: seq<int>)
    ensures SumOccurrences([], ctx, cs) == 0
  {
    if cs != [] { NoOccurrences(ctx, cs[..|cs| - 1]); }
  }

  lemma {:induction false} SumOneMore(h: seq<int>, t: int, ctx: seq<int>, cs: seq<int>)
    requires Distinct(cs)
    ensures SumOccurrences(h + [t], ctx, cs)
         == SumOccurrences(h, ctx, cs) + if Follows(h + [t], ctx) && t in cs then 1 else 0
  {
    if cs != [] {
      var rest, c := cs[..|cs| - 1], cs[|cs| - 1];
      SumOneMore(h, t, ctx, rest);
      OneMore(h, t, ctx, c);
      assert cs == rest + [c];
      assert t in cs <==> t in rest || t == c;
      assert c !in rest;
    }
  }

  // ----- The state

  datatype Entry = Entry(counts: map<int, nat>, total: nat) {
    function Count(token: int): nat { if token in counts then counts[token] else 0 }
  }

  type Table = map<seq<int>, Entry>

  /** An entry holds the counts of its context. */
  ghost predicate EntryRight(e: Entry, h: seq<int>, ctx: seq<int>) {
    e.total == Seen(h, ctx) && forall t :: e.Count(t) == Occurrences(h, ctx, t)
  }

  /** Order `n + 1`'s table: exactly the contexts of `n` tokens seen so far, each with its counts. */
  ghost predicate TableRight(table: Table, h: seq<int>, n: nat) {
    && (forall ctx :: ctx in table ==> |ctx| == n && Seen(h, ctx) > 0 && EntryRight(table[ctx], h, ctx))
    && forall ctx :: |ctx| == n && Seen(h, ctx) > 0 ==> ctx in table
  }

  /** The context of order `n + 1` at the end of the history. */
  function Context(h: seq<int>, n: nat): seq<int>
    requires n <= |h|
  {
    h[|h| - n..]
  }

  /** What publishing one token does to one order's table. */
  function Published(table: Table, ctx: seq<int>, token: int): Table {
    if ctx in table then table[ctx := Bumped(table[ctx], token)] else table[ctx := Entry(map[token := 1], 1)]
  }

  function Bumped(e: Entry, token: int): Entry { Entry(e.counts[token := e.Count(token) + 1], e.total + 1) }

  /** A context not in the table was never followed by anything. */
  lemma {:induction false} UnseenHasNone(h: seq<int>, ctx: seq<int>, token: int)
    requires Seen(h, ctx) == 0
    ensures Occurrences(h, ctx, token) == 0
  {
    OccurrencesAtMostSeen(h, ctx, token);
  }

  lemma PublishedEntry(table: Table, h: seq<int>, n: nat, token: int)
    requires n <= |h| && TableRight(table, h, n)
    ensures Context(h, n) in Published(table, Context(h, n), token)
    ensures EntryRight(Published(table, Context(h, n), token)[Context(h, n)], h + [token], Context(h, n))
  {
    var ctx := Context(h, n);
    var e := Published(table, ctx, token)[ctx];
    OneMore(h, token, ctx, token);
    forall t ensures e.Count(t) == Occurrences(h + [token], ctx, t) {
      OneMore(h, token, ctx, t);
      if ctx !in table { UnseenHasNone(h, ctx, t); }
    }
  }

  lemma OtherEntry(e: Entry, h: seq<int>, token: int, ctx: seq<int>)
    requires EntryRight(e, h, ctx) && !(|ctx| <= |h| && h[|h| - |ctx|..] == ctx)
    ensures EntryRight(e, h + [token], ctx)
  {
    OneMore(h, token, ctx, token);
    forall t ensures e.Count(t) == Occurrences(h + [token], ctx, t) { OneMore(h, token, ctx, t); }
  }

  lemma PublishKeeps(table: Table, h: seq<int>, n: nat, token: int)
    requires n <= |h| && TableRight(table, h, n)
    ensures TableRight(Published(table, Context(h, n), token), h + [token], n)
  {
    var ctx := Context(h, n);
    var after := Published(table, ctx, token);
    forall c | c in after ensures |c| == n && Seen(h + [token], c) > 0 && EntryRight(after[c], h + [token], c) {
      AfterEntry(table, h, n, token, c);
    }
    forall c | |c| == n && Seen(h + [token], c) > 0 ensures c in after {
      OneMore(h, token, c, token);
    }
  }

  lemma AfterEntry(table: Table, h: seq<int>, n: nat, token: int, c: seq<int>)
    requires n <= |h| && TableRight(table, h, n) && c in Published(table, Context(h, n), token)
    ensures |c| == n && Seen(h + [token], c) > 0
    ensures EntryRight(Published(table, Context(h, n), token)[c], h + [token], c)
  {
    assert |Context(h, n)| == n;
    if c == Context(h, n) {
      PublishedEntry(table, h, n, token);
      OneMore(h, token, c, token);
    } else {
      KeptEntry(table, h, n, token, c);
    }
  }

  lemma KeptEntry(table: Table, h: seq<int>, n: nat, token: int, c: seq<int>)
    requires n <= |h| && TableRight(table, h, n) && c in table && c != Context(h, n)
    ensures |c| == n && Seen(h + [token], c) > 0 && Published(table, Context(h, n), token)[c] == table[c]
    ensures EntryRight(table[c], h + [token], c)
  {
    OneMore(h, token, c, token);
    OtherEntry(table[c], h, token, c);
  }

  /** An order whose context does not exist yet keeps its (empty) table. */
  lemma ShortKeeps(table: Table, h: seq<int>, n: nat, token: int)
    requires n > |h| && TableRight(table, h, n)
    ensures TableRight(table, h + [token], n)
  {
    forall c | c in table ensures EntryRight(table[c], h + [token], c) && Seen(h + [token], c) > 0 {
      OneMore(h, token, c, token);
      OtherEntry(table[c], h, token, c);
    }
    forall c | |c| == n && Seen(h + [token], c) > 0 ensures c in table {
      OneMore(h, token, c, token);
    }
  }

  // ----- The two phases

  /** One order's share of a pending update. */
  datatype Prepared = Skipped | Existing | New(key: seq<int>, entry: Entry)

  datatype Pending = Pending(orders: seq<Prepared>, histSize: nat, token: int)

  datatype Reservation = OutOfMemory | Reserved(pending: Pending)

  function Clamped(x: int): I64 { if x < 0 then 0 else if x > 0x8000 then 0x8000 else x }

  class AntiLmState {
    const maxOrder: nat
    var tables: seq<Table>
    var history: seq<int>

    ghost predicate Valid()
      reads this
    {
      maxOrder >= 1 && |tables| == maxOrder && forall i :: 0 <= i < maxOrder ==> TableRight(tables[i], history, i)
    }

    constructor (orders: nat)
      requires orders >= 1
      ensures Valid() && history == [] && maxOrder == orders
    {
      maxOrder := orders;
      tables := seq(orders, _ => map[]);
      history := [];
    }

    /** A pending update built for exactly this state. */
    ghost predicate Matches(p: Pending)
      reads this
    {
      && p.histSize == |history| && |p.orders| == maxOrder == |tables|
      && forall i :: 0 <= i < maxOrder ==>
          if i > |history| then p.orders[i].Skipped?
          else if Context(history, i) in tables[i] then p.orders[i].Existing?
          else p.orders[i] == New(Context(history, i), Entry(map[p.token := 1], 1))
    }

    /** Phase 1: every allocation, nothing published. Any of them may fail, and then the state is as it was. */
    method Reserve(token: int, allocations: nat) returns (r: Reservation)
      requires Valid()
      ensures r.Reserved? ==> r.pending.token == token && Matches(r.pending)
      ensures allocations > 4 * maxOrder ==> r.Reserved?
    {
      var orders: seq<Prepared>, used := [], 1;
      if used > allocations { return OutOfMemory; }
      for i := 0 to maxOrder
        invariant |orders| == i && used <= 1 + 3 * i
        invariant forall j :: 0 <= j < i ==>
            if j > |history| then orders[j].Skipped?
            else if Context(history, j) in tables[j] then orders[j].Existing?
            else orders[j] == New(Context(history, j), Entry(map[token := 1], 1))
      {
        if i > |history| {
          orders := orders + [Skipped];
        } else {
          var ctx := Context(history, i);
          used := used + if ctx in tables[i] then 1 else 3;
          if used > allocations { return OutOfMemory; }
          orders := orders + [if ctx in tables[i] then Existing else New(ctx, Entry(map[token := 1], 1))];
        }
      }
      r := Reserved(Pending(orders, |history|, token));
    }

    /** Phase 2: publishes, and cannot fail. */
    method Apply(p: Pending)
      requires Valid() && Matches(p)
      modifies this
      ensures Valid() && history == old(history) + [p.token]
    {
      ghost var h, before := history, tables;
      for i := 0 to maxOrder
        invariant history == h && |tables| == maxOrder == |before|
        invariant forall j :: 0 <= j < i ==> TableRight(tables[j], h + [p.token], j)
        invariant forall j :: i <= j < maxOrder ==> tables[j] == before[j]
      {
        if i > |history| {
          ShortKeeps(tables[i], h, i, p.token);
        } else {
          PublishKeeps(tables[i], h, i, p.token);
          if p.orders[i].New? {
            tables := tables[i := tables[i][p.orders[i].key := p.orders[i].entry]];
          } else {
            var ctx := Context(history, i);
            tables := tables[i := tables[i][ctx := Bumped(tables[i][ctx], p.token)]];
          }
        }
      }
      history := history + [p.token];
    }

    /** The entry an order finds for the current history, when it has one. */
    lemma EntryOfOrder(n: nat)
      requires Valid() && n < maxOrder
      ensures Active(history, n) <==> n <= |history| && Context(history, n) in tables[n]
      ensures Active(history, n) ==> EntryRight(tables[n][Context(history, n)], history, Context(history, n))
    {}

    /** An order is active when its context has a table entry. */
    method OrderIsActive(n: nat) returns (b: bool)
      requires Valid() && n < maxOrder
      ensures b <==> Active(history, n)
    {
      EntryOfOrder(n);
      b := n <= |history| && Context(history, n) in tables[n];
    }

    /** First pass: how many orders are active, and the sum of their raw weights. */
    method CountActive() returns (active: nat, rawSum: nat)
      requires Valid()
      ensures active == ActiveCount(history, maxOrder) && rawSum == RawSum(history, maxOrder, maxOrder)
    {
      active, rawSum := 0, 0;
      for n := 0 to maxOrder
        invariant active == ActiveCount(history, n) && rawSum == RawSum(history, maxOrder, n)
      {
        var isActive := OrderIsActive(n);
        if isActive {
          active := active + 1;
          rawSum := rawSum + Q15Pow(maxOrder - 1 - n);
        }
      }
    }

    /** The mixed penalty of every candidate. The clamp at the end never changes one. */
    method Penalize(candidates: seq<int>, out: array<I64>)
      requires Valid() && Divides(history, maxOrder) && |history| < 0x8000_0000_0000 && out.Length == |candidates|
      modifies out
      ensures forall c :: 0 <= c < out.Length ==> out[c] == Penalty(history, maxOrder, maxOrder, candidates[c])
      ensures forall c :: 0 <= c < out.Length ==> 0 <= out[c] <= ONE_Q15
    {
      ghost var h, orders := history, maxOrder;
      var active, rawSum := CountActive();
      Zero(out);
      if active == 0 {
        NothingActive(h, orders, orders, candidates);
        return;
      }
      MixOrders(active, rawSum, candidates, out);
      ClampPenalties(candidates, out);
    }

    /** Second pass: each active order's weight, and its part in every candidate's penalty. */
    method MixOrders(active: nat, rawSum: nat, candidates: seq<int>, out: array<I64>)
      requires Valid() && Divides(history, maxOrder) && |history| < 0x8000_0000_0000 && out.Length == |candidates|
      requires active == ActiveCount(history, maxOrder) > 0 && rawSum == RawSum(history, maxOrder, maxOrder)
      requires forall c :: 0 <= c < out.Length ==> out[c] == 0
      modifies out
      ensures forall c :: 0 <= c < out.Length ==> out[c] == Penalty(history, maxOrder, maxOrder, candidates[c])
    {
      ghost var h, orders := history, maxOrder;
      var index, normSum := 0, 0;
      for n := 0 to maxOrder
        invariant history == h && orders == maxOrder && Valid()
        invariant index == ActiveCount(h, n) && normSum == NormSum(h, orders, n)
        invariant forall c :: 0 <= c < out.Length ==> out[c] == Penalty(h, orders, n, candidates[c])
      {
        EntryOfOrder(n);
        if n <= |history| && Context(history, n) in tables[n] {
          index := index + 1;
          ActiveCountGrows(h, n + 1, orders);
          var weight := if index == active then 0x8000 - normSum else Q15Pow(maxOrder - 1 - n) * 0x8000 / rawSum;
          normSum := normSum + weight;
          AddOrder(n, weight, tables[n][Context(history, n)], candidates, out);
        }
      }
    }

    /** The final clamp, which changes nothing. */
    method ClampPenalties(candidates: seq<int>, out: array<I64>)
      requires Divides(history, maxOrder) && out.Length == |candidates|
      requires forall c :: 0 <= c < out.Length ==> out[c] == Penalty(history, maxOrder, maxOrder, candidates[c])
      modifies out
      ensures forall c :: 0 <= c < out.Length ==> out[c] == Penalty(history, maxOrder, maxOrder, candidates[c])
      ensures forall c :: 0 <= c < out.Length ==> 0 <= out[c] <= ONE_Q15
    {
      ghost var h, orders := history, maxOrder;
      for c := 0 to out.Length
        invariant forall d :: 0 <= d < out.Length ==> out[d] == Penalty(h, orders, orders, candidates[d])
        invariant forall d :: 0 <= d < c ==> 0 <= out[d] <= ONE_Q15
      {
        PenaltyRange(h, orders, candidates[c]);
        out[c] := Clamped(out[c]);
      }
    }

    method Zero(out: array<I64>)
      modifies out
      ensures forall c :: 0 <= c < out.Length ==> out[c] == 0
    {
      for c := 0 to out.Length
        invariant forall d :: 0 <= d < c ==> out[d] == 0
      {
        out[c] := 0;
      }
    }

    /** One order's contribution to every candidate. */
    method AddOrder(n: nat, weight: int, entry: Entry, candidates: seq<int>, out: array<I64>)
      requires n < maxOrder && Divides(history, maxOrder) && |history| < 0x8000_0000_0000 && Active(history, n)
      requires weight == Weight(history, maxOrder, n) && EntryRight(entry, history, Context(history, n))
      requires out.Length == |candidates|
      requires forall c :: 0 <= c < out.Length ==> out[c] == Penalty(history, maxOrder, n, candidates[c])
      modifies out
      ensures forall c :: 0 <= c < out.Length ==> out[c] == Penalty(history, maxOrder, n + 1, candidates[c])
    {
      ghost var h, orders := history, maxOrder;
      for c := 0 to out.Length
        invariant forall d :: 0 <= d < c ==> out[d] == Penalty(h, orders, n + 1, candidates[d])
        invariant forall d :: c <= d < out.Length ==> out[d] == Penalty(h, orders, n, candidates[d])
      {
        var token := candidates[c];
        OccurrencesShort(h, Context(h, n), token);
        PenaltyPrefixRange(h, orders, n + 1, token);
        var scaled: I64 := entry.Count(token) * 0x8000;
        var ratio := scaled / entry.total;
        out[c] := out[c] + ratio * weight / 0x8000;
      }
    }

    /** The two in sequence. */
    method Update(token: int, allocations: nat) returns (ok: bool)
      requires Valid()
      modifies this
      ensures Valid() && history == old(history) + if ok then [token] else []
      ensures !ok ==> tables == old(tables)
      ensures allocations > 4 * maxOrder ==> ok
    {
      var r := Reserve(token, allocations);
      if r.OutOfMemory? { return false; }
      Apply(r.pending);
      ok := true;
    }
  }

  // ----- Penalties

  /** Powers of 0.9 in Q15, floored at every step. */
  function Q15Pow(e: nat): nat { if e == 0 then 0x8000 else Q15Pow(e - 1) * 29491 / 0x8000 }

  function Decay(r: int): int { r * 29491 / 0x8000 }

  function Decay3(r: int): int { Decay(Decay(Decay(r))) }

  function Decay9(r: int): int { Decay3(Decay3(Decay3(r))) }

  lemma NineMore(e: nat)
    ensures Q15Pow(e + 9) == Decay9(Q15Pow(e))
  {
    var r := Q15Pow(e);
    assert Q15Pow(e + 1) == Decay(r);
    assert Q15Pow(e + 2) == Decay(Q15Pow(e + 1));
    assert Q15Pow(e + 3) == Decay3(r);
    assert Q15Pow(e + 4) == Decay(Q15Pow(e + 3));
    assert Q15Pow(e + 5) == Decay(Q15Pow(e + 4));
    assert Q15Pow(e + 6) == Decay3(Decay3(r));
    assert Q15Pow(e + 7) == Decay(Q15Pow(e + 6));
    assert Q15Pow(e + 8) == Decay(Q15Pow(e + 7));
  }

  /** The shipped recurrence, value by value. */
  lemma Decays()
    ensures Decay(32768) == 29491 && Decay(29491) == 26541 && Decay(26541) == 23886 && Decay(23886) == 21497
        && Decay(21497) == 19347
    ensures Decay(19347) == 17412 && Decay(17412) == 15670 && Decay(15670) == 14102 && Decay(14102) == 12691
        && Decay(12691) == 11421
    ensures Decay(11421) == 10278 && Decay(10278) == 9250 && Decay(9250) == 8324 && Decay(8324) == 7491
        && Decay(7491) == 6741
    ensures Decay(6741) == 6066 && Decay(6066) == 5459 && Decay(5459) == 4913 && Decay(4913) == 4421
        && Decay(4421) == 3978
    ensures Decay(3978) == 3580 && Decay(3580) == 3221 && Decay(3221) == 2898 && Decay(2898) == 2608
        && Decay(2608) == 2347
    ensures Decay(2347) == 2112 && Decay(2112) == 1900 && Decay(1900) == 1709 && Decay(1709) == 1538
        && Decay(1538) == 1384
    ensures Decay(1384) == 1245 && Decay(1245) == 1120 && Decay(1120) == 1007 && Decay(1007) == 906 && Decay(906) == 815
    ensures Decay(815) == 733 && Decay(733) == 659 && Decay(659) == 593 && Decay(593) == 533 && Decay(533) == 479
    ensures Decay(479) == 431 && Decay(431) == 387 && Decay(387) == 348 && Decay(348) == 313 && Decay(313) == 281
    ensures Decay(281) == 252 && Decay(252) == 226 && Decay(226) == 203 && Decay(203) == 182 && Decay(182) == 163
    ensures Decay(163) == 146 && Decay(146) == 131 && Decay(131) == 117 && Decay(117) == 105 && Decay(105) == 94
    ensures Decay(94) == 84 && Decay(84) == 75 && Decay(75) == 67 && Decay(67) == 60 && Decay(60) == 53
    ensures Decay(53) == 47 && Decay(47) == 42 && Decay(42) == 37 && Decay(37) == 33 && Decay(33) == 29
    ensures Decay(29) == 26 && Decay(26) == 23 && Decay(23) == 20 && Decay(20) == 17 && Decay(17) == 15
    ensures Decay(15) == 13 && Decay(13) == 11 && Decay(11) == 9 && Decay(9) == 8 && Decay(8) == 7
    ensures Decay(7) == 6 && Decay(6) == 5 && Decay(5) == 4 && Decay(4) == 3 && Decay(3) == 2
    ensures Decay(2) == 1 && Decay(1) == 0
  {}

  /** The last weight that does not vanish, by nine steps at a time. */
  lemma LastWeight(e: nat)
    requires e == 81
    ensures Q15Pow(e) == 1 && Q15Pow(e + 1) == 0
  {
    Decays();
    NineMore(e - 81); NineMore(e - 72); NineMore(e - 63); NineMore(e - 54); NineMore(e - 45);
    NineMore(e - 36); NineMore(e - 27); NineMore(e - 18); NineMore(e - 9);
  }

  lemma {:induction false} WeightsFall(a: nat, b: nat)
    requires a <= b
    ensures 0 <= Q15Pow(b) <= Q15Pow(a) <= ONE_Q15
    decreases b
  {
    if a < b { WeightsFall(a, b - 1); } else if a > 0 { WeightsFall(a - 1, b - 1); }
  }

  /** A weight is positive exactly up to exponent 81. */
  lemma WeightPositive(e: nat)
    ensures Q15Pow(e) > 0 <==> e <= 81
  {
    var last := 81;
    LastWeight(last);
    if e <= 81 { WeightsFall(e, last); } else { WeightsFall(last + 1, e); }
  }

  // ----- The mix of orders

  /** Order `n + 1` has a context that has been followed before. */
  predicate Active(h: seq<int>, n: nat) { n <= |h| && Seen(h, Context(h, n)) > 0 }

  function ActiveCount(h: seq<int>, n: nat): nat {
    if n == 0 then 0 else ActiveCount(h, n - 1) + if Active(h, n - 1) then 1 else 0
  }

  function RawWeight(orders: nat, n: nat): nat
    requires n < orders
  {
    Q15Pow(orders - 1 - n)
  }

  function RawSum(h: seq<int>, orders: nat, n: nat): nat
    requires n <= orders
  {
    if n == 0 then 0 else RawSum(h, orders, n - 1) + if Active(h, n - 1) then RawWeight(orders, n - 1) else 0
  }

  /** The denominator is never zero where a division happens. */
  predicate Divides(h: seq<int>, orders: nat) { ActiveCount(h, orders) >= 2 ==> RawSum(h, orders, orders) > 0 }

  /** Up to 83 orders it never is. */
  lemma {:induction false} FewOrdersDivide(h: seq<int>, orders: nat)
    requires orders <= 83
    ensures Divides(h, orders)
  {
    PartsPositive(h, orders, orders);
  }

  lemma {:induction false} PartsPositive(h: seq<int>, orders: nat, n: nat)
    requires n <= orders <= 83
    ensures ActiveCount(h, n) >= 2 ==> RawSum(h, orders, n) > 0
  {
    if n > 0 {
      PartsPositive(h, orders, n - 1);
      WeightPositive(orders - 1 - (n - 1));
      if n == 1 { assert ActiveCount(h, 1) <= 1; }
    }
  }

  /** Every active order among the first `n` is at least 82 below the top. */
  ghost predicate AllFar(h: seq<int>, orders: nat, n: nat) {
    forall k :: 0 <= k < n && Active(h, k) ==> orders - 1 - k >= 82
  }

  lemma AllFarStep(h: seq<int>, orders: nat, n: nat)
    requires 0 < n
    ensures AllFar(h, orders, n) <==> AllFar(h, orders, n - 1) && (Active(h, n - 1) ==> orders - n >= 82)
  {}

  /** The sum vanishes exactly then. */
  lemma {:induction false} SumVanishes(h: seq<int>, orders: nat, n: nat)
    requires n <= orders
    ensures RawSum(h, orders, n) == 0 <==> AllFar(h, orders, n)
  {
    if n > 0 {
      SumVanishes(h, orders, n - 1);
      AllFarStep(h, orders, n);
      var last := orders - n;
      WeightPositive(last);
      assert RawSum(h, orders, n) == RawSum(h, orders, n - 1) + if Active(h, n - 1) then Q15Pow(last) else 0;
    }
  }

  /** From 84 orders on, the history 7, 7 leaves two active orders and a zero denominator: the shipped division
      would divide by zero. */
  lemma ZeroDenominator(orders: nat)
    requires orders >= 84
    ensures !Divides([7, 7], orders)
  {
    var h := [7, 7];
    PairActive(h);
    TwoActive(h, orders);
    forall k | 0 <= k < orders && Active(h, k) ensures orders - 1 - k >= 82 {
      if k == 2 { FullContext(h); }
    }
    assert AllFar(h, orders, orders);
    SumVanishes(h, orders, orders);
  }

  /** The division is defined on every history exactly up to 83 orders. */
  lemma DividesExactly(orders: nat)
    ensures (forall h: seq<int> :: Divides(h, orders)) <==> orders <= 83
  {
    if orders <= 83 {
      forall h: seq<int> ensures Divides(h, orders) { FewOrdersDivide(h, orders); }
    } else {
      ZeroDenominator(orders);
    }
  }

  lemma PairActive(h: seq<int>)
    requires |h| == 2 && h[0] == h[1]
    ensures Active(h, 0) && Active(h, 1)
  {
    assert h[..1] == [h[0]];
    assert Context(h, 0) == [] && Context(h, 1) == [h[1]];
    assert Follows(h, []) && Follows(h, [h[1]]);
  }

  lemma {:induction false} TwoActive(h: seq<int>, n: nat)
    requires n >= 2 && Active(h, 0) && Active(h, 1)
    ensures ActiveCount(h, n) >= 2
  {
    if n > 2 {
      TwoActive(h, n - 1);
    } else {
      assert ActiveCount(h, 0) == 0 && ActiveCount(h, 1) == 1;
    }
  }

  /** The whole history has never been followed by anything. */
  lemma FullContext(h: seq<int>)
    ensures !Active(h, |h|)
  {
    LongUnseen(h, Context(h, |h|));
  }

  lemma {:induction false} LongUnseen(h: seq<int>, ctx: seq<int>)
    requires |ctx| >= |h|
    ensures Seen(h, ctx) == 0
  {
    if h != [] { LongUnseen(h[..|h| - 1], ctx); }
  }

  /** The sum of the normalized weights of the first `n` orders. */
  function NormSum(h: seq<int>, orders: nat, n: nat): int
    requires n <= orders && Divides(h, orders)
    decreases 2 * n
  {
    if n == 0 then 0 else NormSum(h, orders, n - 1) + if Active(h, n - 1) then Weight(h, orders, n - 1) else 0
  }

  /** Each order's share of one in Q15, the last active order taking what is left. */
  function Weight(h: seq<int>, orders: nat, n: nat): int
    requires n < orders && Divides(h, orders) && Active(h, n)
    decreases 2 * n + 1
  {
    ActiveCountGrows(h, n + 1, orders);
    if ActiveCount(h, n + 1) == ActiveCount(h, orders) then ONE_Q15 - NormSum(h, orders, n)
    else RawWeight(orders, n) * 0x8000 / RawSum(h, orders, orders)
  }

  lemma {:induction false} ActiveCountGrows(h: seq<int>, a: nat, b: nat)
    requires a <= b
    ensures ActiveCount(h, a) <= ActiveCount(h, b)
    ensures a > 0 && Active(h, a - 1) && ActiveCount(h, a) != ActiveCount(h, b) ==> ActiveCount(h, b) >= 2
    decreases b - a
  {
    if a < b { ActiveCountGrows(h, a, b - 1); }
  }

  lemma {:induction false} RawSumGrows(h: seq<int>, orders: nat, a: nat, b: nat)
    requires a <= b <= orders
    ensures RawSum(h, orders, a) <= RawSum(h, orders, b)
    decreases b - a
  {
    if a < b { RawSumGrows(h, orders, a, b - 1); }
  }

  /** Before the last active order the weights take no more than their part of one. */
  lemma {:induction false} PartialNorm(h: seq<int>, orders: nat, n: nat)
    requires n <= orders && Divides(h, orders) && ActiveCount(h, n) < ActiveCount(h, orders)
    ensures 0 <= NormSum(h, orders, n)
        && NormSum(h, orders, n) * RawSum(h, orders, orders) <= RawSum(h, orders, n) * 0x8000
  {
    if n > 0 {
      PartialNorm(h, orders, n - 1);
      if Active(h, n - 1) {
        ActiveCountGrows(h, n, orders);
        FlooredPart(NormSum(h, orders, n - 1), RawWeight(orders, n - 1), RawSum(h, orders, n - 1),
            RawSum(h, orders, orders));
      }
    }
  }

  lemma FlooredPart(norm: int, raw: int, sum: int, total: int)
    requires 0 <= norm && norm * total <= sum * 0x8000 && 0 <= raw && total > 0
    ensures raw * 0x8000 / total >= 0 && (norm + raw * 0x8000 / total) * total <= (sum + raw) * 0x8000
  {
    DivBounds(raw * 0x8000, total);
    var q := raw * 0x8000 / total;
    assert (norm + q) * total == norm * total + q * total;
    if q < 0 { MulMono(q, -1, total); }
  }

  lemma BelowOne(norm: int, sum: int, total: int)
    requires total > 0 && norm * total <= sum * 0x8000 && sum <= total
    ensures norm <= ONE_Q15
  {
    if norm > ONE_Q15 { MulMono(ONE_Q15 + 1, norm, total); }
  }

  /** Once every active order is counted, the normalized weights add up to exactly one. */
  lemma {:induction false} WeightsAddToOne(h: seq<int>, orders: nat, n: nat)
    requires n <= orders && Divides(h, orders)
    ensures 0 <= NormSum(h, orders, n) <= ONE_Q15
    ensures ActiveCount(h, n) == ActiveCount(h, orders) > 0 ==> NormSum(h, orders, n) == ONE_Q15
  {
    ActiveCountGrows(h, n, orders);
    if ActiveCount(h, n) < ActiveCount(h, orders) {
      BeforeTheLast(h, orders, n);
    } else if n > 0 {
      WeightsAddToOne(h, orders, n - 1);
    }
  }

  lemma BeforeTheLast(h: seq<int>, orders: nat, n: nat)
    requires n <= orders && Divides(h, orders) && ActiveCount(h, n) < ActiveCount(h, orders)
    ensures 0 <= NormSum(h, orders, n) <= ONE_Q15
  {
    PartialNorm(h, orders, n);
    RawSumGrows(h, orders, n, orders);
    if ActiveCount(h, orders) >= 2 {
      BelowOne(NormSum(h, orders, n), RawSum(h, orders, n), RawSum(h, orders, orders));
    } else {
      NoneActive(h, orders, n);
    }
  }

  /** No weight is negative, and none exceeds one. */
  lemma WeightRange(h: seq<int>, orders: nat, n: nat)
    requires n < orders && Divides(h, orders) && Active(h, n)
    ensures 0 <= Weight(h, orders, n) <= ONE_Q15
  {
    WeightsAddToOne(h, orders, n);
    WeightsAddToOne(h, orders, n + 1);
    assert NormSum(h, orders, n + 1) == NormSum(h, orders, n) + Weight(h, orders, n);
    WeightNotNegative(h, orders, n);
  }

  lemma WeightNotNegative(h: seq<int>, orders: nat, n: nat)
    requires n < orders && Divides(h, orders) && Active(h, n) && NormSum(h, orders, n) <= ONE_Q15
    ensures 0 <= Weight(h, orders, n)
  {
    ActiveCountGrows(h, n + 1, orders);
    if ActiveCount(h, n + 1) != ActiveCount(h, orders) {
      FloorNotNegative(RawWeight(orders, n) * 0x8000, RawSum(h, orders, orders));
    }
  }

  lemma FloorNotNegative(a: int, b: int)
    requires a >= 0 && b > 0
    ensures a / b >= 0
  {}

  lemma {:induction false} NoneActive(h: seq<int>, orders: nat, n: nat)
    requires n <= orders && Divides(h, orders) && ActiveCount(h, n) == 0
    ensures NormSum(h, orders, n) == 0
  {
    if n > 0 { NoneActive(h, orders, n - 1); }
  }

  // ----- Penalties

  function SumOf(cs: seq<int>, f: int -> int): int {
    if cs == [] then 0 else SumOf(cs[..|cs| - 1], f) + f(cs[|cs| - 1])
  }

  lemma {:induction false} SumOfAdd(cs: seq<int>, f: int -> int, g: int -> int, fg: int -> int)
    requires forall c :: c in cs ==> fg(c) == f(c) + g(c)
    ensures SumOf(cs, fg) == SumOf(cs, f) + SumOf(cs, g)
  {
    if |cs| > 0 {
      var rest, c := cs[..|cs| - 1], cs[|cs| - 1];
      SumOfAdd(rest, f, g, fg);
      assert fg(c) == f(c) + g(c);
    }
  }

  /** A sum of floors stays below the floor's scale. */
  lemma {:induction false} SumOfFloors(cs: seq<int>, g: int -> int, f: int -> int, k: int, d: int)
    requires d > 0 && forall c :: c in cs ==> g(c) == f(c) * k / d
    ensures SumOf(cs, g) * d <= SumOf(cs, f) * k
  {
    if cs != [] {
      var rest, c := cs[..|cs| - 1], cs[|cs| - 1];
      SumOfFloors(rest, g, f, k, d);
      DivBounds(f(c) * k, d);
      Distributes(SumOf(rest, g), g(c), d);
      Distributes(SumOf(rest, f), f(c), k);
    }
  }

  /** A token's share of a context, in Q15. */
  function Share(h: seq<int>, n: nat, token: int): int
    requires Active(h, n)
  {
    Occurrences(h, Context(h, n), token) * 0x8000 / Seen(h, Context(h, n))
  }

  /** An order's contribution to a token's penalty. */
  function Contribution(h: seq<int>, orders: nat, n: nat, token: int): int
    requires n < orders && Divides(h, orders) && Active(h, n)
  {
    Share(h, n, token) * Weight(h, orders, n) / 0x8000
  }

  function Penalty(h: seq<int>, orders: nat, n: nat, token: int): int
    requires n <= orders && Divides(h, orders)
  {
    if n == 0 then 0
    else
      Penalty(h, orders, n - 1, token) + if Active(h, n - 1) then Contribution(h, orders, n - 1, token) else 0
  }

  lemma {:induction false} SumIsOccurrences(h: seq<int>, ctx: seq<int>, cs: seq<int>, f: int -> int)
    requires forall c :: c in cs ==> f(c) == Occurrences(h, ctx, c)
    ensures SumOf(cs, f) == SumOccurrences(h, ctx, cs)
  {
    if cs != [] { SumIsOccurrences(h, ctx, cs[..|cs| - 1], f); }
  }

  /** Distinct candidates share no more than one between them in any context. */
  lemma SharesWithinOne(h: seq<int>, n: nat, cs: seq<int>, shares: int -> int)
    requires Active(h, n) && Distinct(cs) && forall c :: c in cs ==> shares(c) == Share(h, n, c)
    ensures SumOf(cs, shares) <= ONE_Q15
  {
    var ctx := Context(h, n);
    var counts: int -> int := c => Occurrences(h, ctx, c);
    SumIsOccurrences(h, ctx, cs, counts);
    SharedOccurrences(h, ctx, cs);
    SumOfFloors(cs, shares, counts, 0x8000, Seen(h, ctx));
    FloorsWithinOne(SumOf(cs, shares), SumOf(cs, counts), Seen(h, ctx));
  }

  lemma FloorsWithinOne(s: int, counts: int, d: int)
    requires d > 0 && s * d <= counts * 0x8000 && counts <= d
    ensures s <= ONE_Q15
  {
    if s > ONE_Q15 { MulMono(ONE_Q15 + 1, s, d); }
  }

  /** Distinct candidates take no more than an order's weight. */
  lemma ContributionsWithinWeight(h: seq<int>, orders: nat, n: nat, cs: seq<int>, parts: int -> int)
    requires n < orders && Divides(h, orders) && Active(h, n) && Distinct(cs)
    requires forall c :: c in cs ==> parts(c) == Contribution(h, orders, n, c)
    ensures SumOf(cs, parts) <= Weight(h, orders, n)
  {
    var w := Weight(h, orders, n);
    var shares: int -> int := c => Share(h, n, c);
    WeightRange(h, orders, n);
    SharesWithinOne(h, n, cs, shares);
    SumOfFloors(cs, parts, shares, w, 0x8000);
    MulMono(SumOf(cs, shares), ONE_Q15, w);
  }

  /** The penalties of distinct candidates add up to at most one. */
  lemma {:induction false} PenaltiesWithinOne(h: seq<int>, orders: nat, n: nat, cs: seq<int>, penalties: int -> int)
    requires n <= orders && Divides(h, orders) && Distinct(cs)
    requires forall c :: c in cs ==> penalties(c) == Penalty(h, orders, n, c)
    ensures SumOf(cs, penalties) <= NormSum(h, orders, n) <= ONE_Q15
  {
    WeightsAddToOne(h, orders, n);
    if n == 0 {
      SumOfZero(cs, penalties);
    } else {
      var before: int -> int := c => Penalty(h, orders, n - 1, c);
      PenaltiesWithinOne(h, orders, n - 1, cs, before);
      var parts: int -> int := c => if Active(h, n - 1) then Contribution(h, orders, n - 1, c) else 0;
      SumOfAdd(cs, before, parts, penalties);
      if Active(h, n - 1) { ContributionsWithinWeight(h, orders, n - 1, cs, parts); } else { SumOfZero(cs, parts); }
    }
  }

  lemma {:induction false} SumOfZero(cs: seq<int>, f: int -> int)
    requires forall c :: c in cs ==> f(c) == 0
    ensures SumOf(cs, f) == 0
  {
    if |cs| > 0 {
      var rest, c := cs[..|cs| - 1], cs[|cs| - 1];
      SumOfZero(rest, f);
      assert f(c) == 0;
    }
  }

  lemma {:induction false} PenaltyNotNegative(h: seq<int>, orders: nat, n: nat, token: int)
    requires n <= orders && Divides(h, orders)
    ensures Penalty(h, orders, n, token) >= 0
  {
    if n > 0 {
      PenaltyNotNegative(h, orders, n - 1, token);
      if Active(h, n - 1) {
        WeightRange(h, orders, n - 1);
        ShareNotNegative(h, n - 1, token);
        MulMono(0, Share(h, n - 1, token), Weight(h, orders, n - 1));
      }
    }
  }

  lemma ShareNotNegative(h: seq<int>, n: nat, token: int)
    requires Active(h, n)
    ensures 0 <= Share(h, n, token) <= ONE_Q15
  {
    var ctx := Context(h, n);
    OccurrencesAtMostSeen(h, ctx, token);
    var o, d := Occurrences(h, ctx, token), Seen(h, ctx);
    DivMono(0, o * 0x8000, d);
    DivMono(o * 0x8000, d * 0x8000, d);
    DivAddMultiple(0, 0x8000, d);
  }

  /** Each penalty lies in [0, 2^15], so the final clamp never changes one. */
  lemma PenaltyRange(h: seq<int>, orders: nat, token: int)
    requires Divides(h, orders)
    ensures 0 <= Penalty(h, orders, orders, token) <= ONE_Q15
  {
    PenaltyPrefixRange(h, orders, orders, token);
  }

  lemma {:induction false} PenaltyPrefixRange(h: seq<int>, orders: nat, n: nat, token: int)
    requires n <= orders && Divides(h, orders)
    ensures 0 <= Penalty(h, orders, n, token) <= ONE_Q15
  {
    PenaltyNotNegative(h, orders, n, token);
    var one: int -> int := c => Penalty(h, orders, n, c);
    PenaltiesWithinOne(h, orders, n, [token], one);
    assert SumOf([token][..0], one) == 0;
  }

  lemma {:induction false} OccurrencesShort(h: seq<int>, ctx: seq<int>, token: int)
    ensures Occurrences(h, ctx, token) <= |h| && Seen(h, ctx) <= |h|
  {
    if h != [] { OccurrencesShort(h[..|h| - 1], ctx, token); }
  }

  lemma {:induction false} NothingActive(h: seq<int>, orders: nat, n: nat, candidates: seq<int>)
    requires n <= orders && Divides(h, orders) && ActiveCount(h, n) == 0
    ensures forall c :: 0 <= c < |candidates| ==> Penalty(h, orders, n, candidates[c]) == 0
  {
    if n > 0 { NothingActive(h, orders, n - 1, candidates); }
  }
}
