/** What the page allocator must keep true (src/kv_pages.h lines 8-20 and 75-103): a holder's account of the pages
it references, frees and shares, the totals over all holders, the invariant, and what the counting loops do to it. */
module PageLaws {
  import opened Arith
  import opened PageModel

  // ----- What each holder accounts for

  /** References, pages on their way to the free list, and shared table entries. */
  datatype Account = Account(refs: multiset<nat>, limbo: multiset<nat>, shared: multiset<nat>)

  ghost function Plus(a: Account, b: Account): Account {
    Account(a.refs + b.refs, a.limbo + b.limbo, a.shared + b.shared)
  }

  ghost function Private(h: Holder): multiset<nat>
    requires HolderShape(h)
  {
    multiset(h.table[PoolPath(h)..h.mapped])
  }

  ghost function AccountOf(h: Holder): Account {
    if !HolderShape(h) then Account(multiset{}, multiset{}, multiset{})
    else match h.phase
      case Ready =>
          Account(multiset(h.table[..h.mapped]) + multiset(h.reserve), multiset{}, multiset(h.table[..h.shared]))
      case Gone => Account(multiset{}, multiset{}, multiset{})
      case Busy(Unmap, pending, _) => Account(Private(h) + multiset(h.reserve), multiset(pending), multiset{})
      case Busy(Adopt(_, incoming), pending, _) =>
        Account(Private(h) + multiset(h.reserve) + multiset(incoming), multiset(pending), multiset(incoming))
      case Busy(Release, pending, _) => Account(multiset{}, multiset(pending), multiset{})
      case Busy(Return, pending, _) =>
          Account(multiset(h.table[..h.mapped]), multiset(pending), multiset(h.table[..h.shared]))
  }

  ghost function Totals(hs: seq<Holder>): Account {
    if hs == [] then Account(multiset{}, multiset{}, multiset{})
    else Plus(Totals(hs[..|hs| - 1]), AccountOf(hs[|hs| - 1]))
  }

  /** The pages that must have this holder's reference and no other: they return to its reserve without a count. */
  ghost function Solo(h: Holder): multiset<nat> {
    if !HolderShape(h) then multiset{}
    else match h.phase
      case Ready => multiset(h.reserve)
      case Busy(Unmap, _, _) => Private(h) + multiset(h.reserve)
      case Busy(Adopt(_, _), _, _) => Private(h) + multiset(h.reserve)
      case _ => multiset{}
  }

  lemma {:induction false} TotalsUpdate(hs: seq<Holder>, i: nat, h: Holder)
    requires i < |hs|
    ensures Plus(Totals(hs[i := h]), AccountOf(hs[i])) == Plus(Totals(hs), AccountOf(h))
  {
    var n := |hs| - 1;
    var hs' := hs[i := h];
    if i == n {
      assert hs'[..n] == hs[..n];
    } else {
      assert hs'[..n] == hs[..n][i := h];
      TotalsUpdate(hs[..n], i, h);
      PlusSwap(Totals(hs'[..n]), Totals(hs[..n]), AccountOf(hs[i]), AccountOf(h), AccountOf(hs[n]));
    }
  }

  lemma PlusSwap(a: Account, b: Account, x: Account, y: Account, c: Account)
    requires Plus(a, x) == Plus(b, y)
    ensures Plus(Plus(a, c), x) == Plus(Plus(b, c), y)
  {
    SwapThird(a.refs, b.refs, x.refs, y.refs, c.refs);
    SwapThird(a.limbo, b.limbo, x.limbo, y.limbo, c.limbo);
    SwapThird(a.shared, b.shared, x.shared, y.shared, c.shared);
  }

  lemma SwapThird(a: multiset<nat>, b: multiset<nat>, x: multiset<nat>, y: multiset<nat>, c: multiset<nat>)
    requires a + x == b + y
    ensures a + c + x == b + c + y
  {
    assert a + c + x == (a + x) + c && b + c + y == (b + y) + c;
  }

  lemma TotalsAppend(hs: seq<Holder>, h: Holder)
    ensures Totals(hs + [h]) == Plus(Totals(hs), AccountOf(h))
  {
    assert (hs + [h])[..|hs|] == hs;
  }

  lemma {:induction false} TotalsHas(hs: seq<Holder>, i: nat)
    requires i < |hs|
    ensures AccountOf(hs[i]).refs <= Totals(hs).refs
    ensures AccountOf(hs[i]).limbo <= Totals(hs).limbo
    ensures AccountOf(hs[i]).shared <= Totals(hs).shared
  {
    if i < |hs| - 1 { TotalsHas(hs[..|hs| - 1], i); }
  }

  lemma {:induction false} TotalsHasTwo(hs: seq<Holder>, i: nat, j: nat)
    requires i < j < |hs|
    ensures AccountOf(hs[i]).refs + AccountOf(hs[j]).refs <= Totals(hs).refs
  {
    var n := |hs| - 1;
    assert Totals(hs).refs == Totals(hs[..n]).refs + AccountOf(hs[n]).refs;
    if j == n { TotalsHas(hs[..n], i); } else { TotalsHasTwo(hs[..n], i, j); }
  }

  /** A page in two holders' accounts, or twice in one's, has at least two references. */
  lemma SharedByTwo(hs: seq<Holder>, i: nat, j: nat, p: nat)
    requires i < |hs| && j < |hs| && i != j && p in AccountOf(hs[i]).refs && p in AccountOf(hs[j]).refs
    ensures Totals(hs).refs[p] >= 2
  {
    TotalsHasTwo(hs, Min(i, j), Max(i, j));
  }

  // ----- The invariant

  datatype State = State(pool: Pool, holders: seq<Holder>)

  function Positive(counts: seq<nat>): nat {
    if counts == [] then 0 else Positive(counts[..|counts| - 1]) + if counts[|counts| - 1] > 0 then 1 else 0
  }

  lemma {:induction false} PositiveUpdate(counts: seq<nat>, i: nat, v: nat)
    requires i < |counts|
    ensures Positive(counts[i := v]) + (if counts[i] > 0 then 1 else 0) == Positive(counts) + if v > 0 then 1 else 0
  {
    var n := |counts| - 1;
    if i == n { assert counts[i := v][..n] == counts[..n]; }
    else {
      assert counts[i := v][..n] == counts[..n][i := v];
      PositiveUpdate(counts[..n], i, v);
    }
  }

  /** Every page's count is the number of references to it, and it is in exactly one place. */
  ghost predicate PagesAccounted(pool: Pool, t: Account) {
    && WellFormed(pool)
    && (forall p :: p in t.refs || p in t.limbo || p in multiset(pool.freeList) ==> p < |pool.refcount|)
    && (forall p :: 0 <= p < |pool.refcount| ==> pool.refcount[p] == t.refs[p] <= MAX_COUNT)
    && (forall p :: 0 <= p < |pool.refcount| ==>
          multiset(pool.freeList)[p] + t.limbo[p] + (if t.refs[p] > 0 then 1 else 0) == 1)
  }

  /** The shared counts follow provenance. */
  ghost predicate SharesAccounted(pool: Pool, t: Account) {
    && WellFormed(pool)
    && (forall p :: 0 <= p < |pool.refcount| ==> pool.sharedMaps[p] == t.shared[p])
    && pool.sharedDistinct == Positive(pool.sharedMaps)
  }

  predicate ReadsFrom(h: Holder, src: nat) { h.phase.Busy? && h.phase.op.Adopt? && h.phase.op.src == src }

  /** The reserve can take back every private page without growing. */
  predicate CapacityHeld(h: Holder) {
    h.phase.Gone? || (h.phase.Busy? && h.phase.op.Release?) || |h.reserve| + h.mapped - PoolPath(h) <= h.cap
  }

  ghost predicate SoloHeld(h: Holder, refs: multiset<nat>) { forall p :: p in Solo(h) ==> refs[p] == 1 }

  /** No holder names a page twice. */
  ghost predicate OncePerHolder(h: Holder) { forall p :: AccountOf(h).refs[p] <= 1 }

  /** A holder an adopt is reading from keeps its table's leading entries meanwhile. */
  predicate Readable(h: Holder, incoming: seq<nat>) {
    HolderShape(h) && (h.phase.Ready? || (h.phase.Busy? && h.phase.op.Return?))
    && |incoming| <= h.mapped && incoming == h.table[..|incoming|]
  }

  predicate ReaderServed(hs: seq<Holder>, k: nat)
    requires k < |hs|
  {
    var h := hs[k];
    h.phase.Busy? && h.phase.op.Adopt? ==>
      h.phase.op.src < |hs| && h.phase.op.src != k && |h.phase.op.incoming| <= |h.table|
      && Readable(hs[h.phase.op.src], h.phase.op.incoming)
  }

  ghost predicate HolderInv(hs: seq<Holder>, k: nat, t: Account)
    requires k < |hs|
  {
    HolderShape(hs[k]) && CapacityHeld(hs[k]) && SoloHeld(hs[k], t.refs) && OncePerHolder(hs[k]) && ReaderServed(hs, k)
  }

  predicate AllClean(pool: Pool, pages: seq<nat>) {
    forall i :: 0 <= i < |pages| && pages[i] < |pool.dirty| ==> !pool.dirty[pages[i]]
  }

  /** A page is clean from the fill until it is drawn again. */
  ghost predicate FreeIsClean(s: State) {
    && WellFormed(s.pool)
    && AllClean(s.pool, s.pool.freeList)
    && (forall k :: 0 <= k < |s.holders| && s.holders[k].phase.Busy? && s.holders[k].phase.filled ==>
          AllClean(s.pool, s.holders[k].phase.pending))
  }

  ghost predicate Inv(s: State) {
    && PagesAccounted(s.pool, Totals(s.holders))
    && SharesAccounted(s.pool, Totals(s.holders))
    && (forall k :: 0 <= k < |s.holders| ==> HolderInv(s.holders, k, Totals(s.holders)))
    && FreeIsClean(s)
  }

  // ----- What the counting loops do to the counts

  function Lead(pages: seq<nat>, shared: nat): seq<nat> { pages[..Min(shared, |pages|)] }

  ghost predicate Enough(pool: Pool, pages: seq<nat>, shared: nat)
    requires WellFormed(pool)
  {
    && (forall p :: 0 <= p < |pool.refcount| ==> pool.refcount[p] >= multiset(pages)[p])
    && (forall p :: 0 <= p < |pool.refcount| ==> pool.sharedMaps[p] >= multiset(Lead(pages, shared))[p])
    && pool.sharedDistinct == Positive(pool.sharedMaps)
  }

  /** Counting down never underflows when the references are there, takes away exactly one per entry, and collects
      exactly the pages that reach 0, once each. */
  lemma {:induction false} CountDownCounts(pool: Pool, pages: seq<nat>, shared: nat)
    requires InPool(pool, pages) && Enough(pool, pages, shared)
    ensures CountedDown(pool, CountDown(pool, pages, shared), multiset(pages), multiset(Lead(pages, shared)))
  {
    if pages == [] {
      assert multiset(pages) == multiset{};
    } else {
      var k := |pages| - 1;
      var q := pages[k];
      assert pages == pages[..k] + [q];
      assert multiset(pages) == multiset(pages[..k]) + multiset{q};
      LeadGrows(pages, shared);
      CountDownCounts(pool, pages[..k], shared);
      CountDownOneMore(pool, CountDown(pool, pages[..k], shared), multiset(pages[..k]),
          multiset(Lead(pages[..k], shared)),
                       q, k < shared);
    }
  }

  /** What counting down a collection of entries, of which `shared` were shared ones, leaves behind. */
  ghost predicate CountedDown(pool: Pool, d: Counted, pages: multiset<nat>, shared: multiset<nat>) {
    && WellFormed(pool) && |d.pool.refcount| == |pool.refcount|
    && d.status == Ok && InPool(d.pool, d.freed)
    && (forall p :: 0 <= p < |pool.refcount| ==> d.pool.refcount[p] + pages[p] == pool.refcount[p])
    && (forall p :: 0 <= p < |pool.refcount| ==> d.pool.sharedMaps[p] + shared[p] == pool.sharedMaps[p])
    && d.pool.sharedDistinct == Positive(d.pool.sharedMaps)
    && (forall p :: 0 <= p < |pool.refcount| ==>
          multiset(d.freed)[p] == if p in pages && d.pool.refcount[p] == 0 then 1 else 0)
  }

  lemma CountDownOneMore(pool: Pool, d: Counted, pages: multiset<nat>, shared: multiset<nat>, q: nat, isShared: bool)
    requires CountedDown(pool, d, pages, shared) && q < |pool.refcount|
    requires pool.refcount[q] > pages[q] && (isShared ==> pool.sharedMaps[q] > shared[q])
    ensures CountedDown(pool, CountDownOne(d, q, isShared), pages + multiset{q},
                        shared + if isShared then multiset{q} else multiset{})
  {
    if isShared { PositiveUpdate(d.pool.sharedMaps, q, d.pool.sharedMaps[q] - 1); }
    FreedOneMore(pool, d, pages, shared, q, isShared);
  }

  lemma FreedOneMore(pool: Pool, d: Counted, pages: multiset<nat>, shared: multiset<nat>, q: nat, isShared: bool)
    requires CountedDown(pool, d, pages, shared) && q < |pool.refcount| && pool.refcount[q] > pages[q]
    ensures var d' := CountDownOne(d, q, isShared);
            d'.pool.refcount == d.pool.refcount[q := d.pool.refcount[q] - 1] && d'.status == Ok
                && InPool(d'.pool, d'.freed)
            && forall p :: 0 <= p < |pool.refcount| ==>
                 multiset(d'.freed)[p] == if p in pages + multiset{q} && d'.pool.refcount[p] == 0 then 1 else 0
  {
    if d.pool.refcount[q] == 1 { assert multiset(d.freed + [q]) == multiset(d.freed) + multiset{q}; }
  }

  lemma LeadGrows(pages: seq<nat>, shared: nat)
    requires pages != []
    ensures var k := |pages| - 1;
            multiset(Lead(pages, shared))
            == multiset(Lead(pages[..k], shared)) + if k < shared then multiset{pages[k]} else multiset{}
  {
    var k := |pages| - 1;
    if k < shared { assert Lead(pages, shared) == Lead(pages[..k], shared) + [pages[k]]; }
    else { assert Lead(pages, shared) == Lead(pages[..k], shared); }
  }

  /** Counting up gives each entry's page one more reference and one more shared entry. */
  lemma CountUpCounts(pool: Pool, pages: seq<nat>)
    requires InPool(pool, pages) && pool.sharedDistinct == Positive(pool.sharedMaps)
    ensures var r := CountUp(pool, pages);
            (forall p :: 0 <= p < |pool.refcount| ==> r.refcount[p] == pool.refcount[p] + multiset(pages)[p])
            && (forall p :: 0 <= p < |pool.refcount| ==> r.sharedMaps[p] == pool.sharedMaps[p] + multiset(pages)[p])
            && r.sharedDistinct == Positive(r.sharedMaps)
  {
    CountUpDistinct(pool, pages);
    forall p | 0 <= p < |pool.refcount|
      ensures CountUp(pool, pages).refcount[p] == pool.refcount[p] + multiset(pages)[p]
      ensures CountUp(pool, pages).sharedMaps[p] == pool.sharedMaps[p] + multiset(pages)[p]
    {
      CountUpAt(pool, pages, p);
    }
  }

  lemma {:induction false} CountUpAt(pool: Pool, pages: seq<nat>, p: nat)
    requires InPool(pool, pages) && p < |pool.refcount|
    ensures CountUp(pool, pages).refcount[p] == pool.refcount[p] + multiset(pages)[p]
    ensures CountUp(pool, pages).sharedMaps[p] == pool.sharedMaps[p] + multiset(pages)[p]
  {
    if pages != [] {
      var k := |pages| - 1;
      CountUpAt(pool, pages[..k], p);
      assert multiset(pages)[p] == multiset(pages[..k])[p] + (if p == pages[k] then 1 else 0) by {
        assert pages == pages[..k] + [pages[k]];
      }
    }
  }

  lemma {:induction false} CountUpDistinct(pool: Pool, pages: seq<nat>)
    requires InPool(pool, pages) && pool.sharedDistinct == Positive(pool.sharedMaps)
    ensures CountUp(pool, pages).sharedDistinct == Positive(CountUp(pool, pages).sharedMaps)
  {
    if pages != [] {
      var k := |pages| - 1;
      CountUpDistinct(pool, pages[..k]);
      var r := CountUp(pool, pages[..k]);
      PositiveUpdate(r.sharedMaps, pages[k], r.sharedMaps[pages[k]] + 1);
    }
  }

  /** A reserve whose pages are distinct and counted is zeroed whole, in place. */
  lemma {:induction false} ZeroReserveZeroes(pool: Pool, reserve: seq<nat>, i: nat)
    requires InPool(pool, reserve) && i <= |reserve|
    requires forall j :: i <= j < |reserve| ==> pool.refcount[reserve[j]] > 0
    requires forall j, k :: i <= j < k < |reserve| ==> reserve[j] != reserve[k]
    ensures var z := ZeroReserve(pool, reserve, i, |reserve|);
            z.status == Ok && z.n == |reserve| && z.reserve == reserve
            && z.pool.sharedMaps == pool.sharedMaps && z.pool.sharedDistinct == pool.sharedDistinct
            && (forall p :: 0 <= p < |pool.refcount| ==>
                  z.pool.refcount[p] == if p in multiset(reserve[i..]) then 0 else pool.refcount[p])
    decreases |reserve| - i
  {
    if i < |reserve| {
      assert reserve[i..] == [reserve[i]] + reserve[i + 1..];
      ZeroReserveZeroes(pool.(refcount := pool.refcount[reserve[i] := 0]), reserve, i + 1);
    }
  }

  lemma {:induction false} CheckPasses(pool: Pool, pages: seq<nat>)
    requires InPool(pool, pages)
    ensures CheckShareable(pool, pages) == Ok
        <==> forall i :: 0 <= i < |pages| ==> 0 < pool.refcount[pages[i]] != MAX_COUNT
    ensures CheckShareable(pool, pages) == RefcountUnderflow ==>
        exists i :: 0 <= i < |pages| && pool.refcount[pages[i]] == 0
    ensures CheckShareable(pool, pages) in {Ok, RefcountUnderflow, InvalidArgument}
  {
    if pages != [] { CheckPasses(pool, pages[..|pages| - 1]); }
  }

  /** Drawing moves pages from the top of the free stack to the reserve, in the order they come off. */
  lemma {:induction false} DrawMoves(pool: Pool, n: nat)
    requires InPool(pool, pool.freeList) && n <= |pool.freeList|
    ensures Draw(pool, n).reserve == Reversed(pool.freeList[|pool.freeList| - n..])
  {
    var free := pool.freeList;
    var cut := |free| - n;
    if n == 0 {
      assert free[cut..] == [];
    } else {
      DrawMoves(pool, n - 1);
      MoreReversed(free, cut);
      assert Draw(pool, n).reserve == Draw(pool, n - 1).reserve + [free[cut]];
    }
  }

  lemma {:induction false} DrawSetsOne(pool: Pool, n: nat)
    requires InPool(pool, pool.freeList) && n <= |pool.freeList|
    ensures var r := Draw(pool, n);
            forall p :: 0 <= p < |pool.refcount| ==> r.pool.refcount[p] == if p in r.reserve then 1
                else pool.refcount[p]
  {
    if n > 0 { DrawSetsOne(pool, n - 1); }
  }
}
