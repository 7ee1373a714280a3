/** What holds in every run of the page allocator, however the holders' sections interleave. */
module PageSafety {
  import opened Arith
  import opened PageModel
  import opened PageLaws
  import opened PageProtocol
  import opened PageTables

  // ----- One step

  lemma IncomingNeverZero(s: State, src: nat, pages: nat)
    requires Inv(s) && IsReady(s, src) && pages <= s.holders[src].mapped && pages <= |s.holders[src].table|
    requires InPool(s.pool, s.holders[src].table[..pages])
    ensures CheckShareable(s.pool, s.holders[src].table[..pages]) in {Ok, InvalidArgument}
  {
    var incoming := s.holders[src].table[..pages];
    IncomingIsCounted(s, src, pages);
    CheckPasses(s.pool, incoming);
    forall i | 0 <= i < |incoming|
      ensures s.pool.refcount[incoming[i]] > 0
    {
      assert incoming[i] in multiset(incoming);
    }
  }

  lemma RefusalKeeps(s: State, h: nat, r: Result)
    requires Inv(s) && h < |s.holders| && r.pool == s.pool && r.holder == s.holders[h] && r.status != RefcountUnderflow
    ensures Good(s, With(s, h, r))
  {
    assert s.holders[h := r.holder] == s.holders;
  }

  lemma TakeStepKeeps(s: State, v: Verb)
    requires Inv(s) && VerbAllowed(s, v) && VerbFits(s, v) && (v.TakeNext? || v.TakeMaterialized?)
    ensures Good(s, BeginStep(s, v))
  {
    var h := v.h;
    var r := if v.TakeNext? then MapNext(s.pool, s.holders[h]) else MapMaterialized(s.pool, s.holders[h], v.count);
    if r.status != Ok { RefusalKeeps(s, h, r); }
    else if v.TakeNext? { TakeNextKeeps(s, h); }
    else { TakeMaterializedKeeps(s, h, v.count); }
  }

  lemma ShareStepKeeps(s: State, dst: nat, src: nat, pages: nat)
    requires Inv(s) && VerbAllowed(s, Share(dst, src, pages)) && VerbFits(s, Share(dst, src, pages))
    ensures Good(s, BeginStep(s, Share(dst, src, pages)))
  {
    var r := ShareLeading(s.pool, s.holders[dst], s.holders[src], pages);
    if r.status == Ok { ShareKeeps(s, dst, src, pages); }
    else {
      if pages <= s.holders[src].mapped { IncomingFits(s, src, pages); IncomingNeverZero(s, src, pages); }
      RefusalKeeps(s, dst, r);
    }
  }

  lemma AdoptStepKeeps(s: State, dst: nat, src: nat, pages: nat)
    requires Inv(s) && VerbAllowed(s, BeginAdopt(dst, src, pages)) && VerbFits(s, BeginAdopt(dst, src, pages))
    ensures Good(s, BeginStep(s, BeginAdopt(dst, src, pages)))
  {
    var r := AdoptBegin(s.pool, s.holders[dst], s.holders[src], src, pages);
    if pages > s.holders[src].mapped || pages > |s.holders[dst].table| { RefusalKeeps(s, dst, r); }
    else {
      IncomingFits(s, src, pages);
      IncomingNeverZero(s, src, pages);
      if CheckShareable(s.pool, s.holders[src].table[..pages]) == Ok { AdoptKeeps(s, dst, src, pages); }
      else { RefusalKeeps(s, dst, r); }
    }
  }

  lemma VerbKeeps(s: State, v: Verb)
    requires Inv(s) && VerbAllowed(s, v) && VerbFits(s, v)
    ensures Good(s, BeginStep(s, v))
  {
    match v
    case Create(table, n) => if table != [] && n <= |s.pool.refcount| && n <= |s.pool.freeList| {
      CreateKeeps(s, table, n);
    }
    case TakeNext(_) => TakeStepKeeps(s, v);
    case TakeMaterialized(_, _) => TakeStepKeeps(s, v);
    case Share(dst, src, pages) => ShareStepKeeps(s, dst, src, pages);
    case BeginAdopt(dst, src, pages) => AdoptStepKeeps(s, dst, src, pages);
    case BeginUnmap(h) => UnmapKeeps(s, h);
    case DropTail(h, keep) => DropTailKeeps(s, h, keep);
    case BeginRelease(h) => ReleaseKeeps(s, h);
    case BeginReturn(h) => ReturnKeeps(s, h);
  }

  /** Every allowed action keeps every law; no count is ever found at 0 when it is taken down, and a refused verb
      changes nothing. */
  lemma StepKeeps(s: State, a: Action)
    requires Inv(s) && Allowed(s, a)
    ensures StepFits(s, a) && Good(s, Step(s, a))
  {
    InvFits(s, a);
    match a
    case Begin(v) => VerbKeeps(s, v);
    case Fill(h) => FillKeeps(s, h);
    case Push(h) => PushKeeps(s, h);
    case End(h) => EndKeeps(s, h);
  }

  // ----- Whole runs

  function Descending(n: nat): (r: seq<nat>)
    ensures |r| == n && forall i :: 0 <= i < n ==> r[i] == n - 1 - i
  {
    if n == 0 then [] else [n - 1] + Descending(n - 1)
  }

  /** A new pool: every page free, page 0 on top, no count, nothing dirty. */
  function Fresh(pageCount: nat): State {
    State(Pool(Descending(pageCount), seq(pageCount, _ => 0), seq(pageCount, _ => false), seq(pageCount, _ => 0),
        0), [])
  }

  lemma {:induction false} DescendingOnce(n: nat)
    ensures forall p: nat :: multiset(Descending(n))[p] == if 0 <= p < n then 1 else 0
  {
    if n > 0 {
      var last: nat := n - 1;
      DescendingOnce(last);
      DescendingTop(last);
    }
  }

  lemma DescendingTop(last: nat)
    ensures multiset(Descending(last + 1)) == multiset{last} + multiset(Descending(last))
  {
    assert Descending(last + 1) == [last] + Descending(last);
  }

  lemma {:induction false} NonePositive(counts: seq<nat>)
    requires forall i :: 0 <= i < |counts| ==> counts[i] == 0
    ensures Positive(counts) == 0
  {
    if counts != [] { NonePositive(counts[..|counts| - 1]); }
  }

  lemma FreshInv(pageCount: nat)
    ensures Inv(Fresh(pageCount))
  {
    DescendingOnce(pageCount);
    NonePositive(Fresh(pageCount).pool.sharedMaps);
  }

  /** Consecutive states linked by allowed actions. */
  ghost predicate IsRun(states: seq<State>, actions: seq<Action>) {
    && |states| == |actions| + 1
    && forall i :: 0 <= i < |actions| ==>
        StepFits(states[i], actions[i]) && states[i + 1] == Step(states[i], actions[i]).state
  }

  lemma {:induction false} RunKeeps(states: seq<State>, actions: seq<Action>, pageCount: nat, k: nat)
    requires IsRun(states, actions) && states[0] == Fresh(pageCount) && k < |states|
    ensures Inv(states[k]) && |states[k].pool.refcount| == pageCount
  {
    if k == 0 { FreshInv(pageCount); }
    else {
      RunKeeps(states, actions, pageCount, k - 1);
      assert StepFits(states[k - 1], actions[k - 1]) && states[k] == Step(states[k - 1], actions[k - 1]).state;
      StepKeeps(states[k - 1], actions[k - 1]);
      StepKeepsCount(states[k - 1], actions[k - 1]);
    }
  }

  lemma StepKeepsCount(s: State, a: Action)
    requires StepFits(s, a) && WellFormed(s.pool)
    ensures |Step(s, a).state.pool.refcount| == |s.pool.refcount|
  {}

  /** The number of times a page is named by the tables and the reserves. */
  function Occurrences(hs: seq<Holder>, p: nat): nat {
    if hs == [] then 0
    else
      var h := hs[|hs| - 1];
      Occurrences(hs[..|hs| - 1], p)
      + if h.phase.Gone? || h.mapped > |h.table| then 0 else multiset(h.table[..h.mapped])[p] + multiset(h.reserve)[p]
  }

  lemma {:induction false} QuietTotals(hs: seq<Holder>, p: nat)
    requires forall k :: 0 <= k < |hs| ==> !hs[k].phase.Busy? && HolderShape(hs[k])
    ensures Totals(hs).refs[p] == Occurrences(hs, p) && Totals(hs).limbo[p] == 0
  {
    if hs != [] { QuietTotals(hs[..|hs| - 1], p); }
  }

  /** In every run, whenever no verb is between its sections, a page's count is the number of times tables and
      reserves name it, and the free list holds exactly the pages with count 0, once each. */
  lemma CountsMatchTables(states: seq<State>, actions: seq<Action>, pageCount: nat, k: nat, p: nat)
    requires IsRun(states, actions) && states[0] == Fresh(pageCount) && k < |states| && p < pageCount
    requires forall j :: 0 <= j < |states[k].holders| ==> !states[k].holders[j].phase.Busy?
    ensures |states[k].pool.refcount| == pageCount
    ensures states[k].pool.refcount[p] == Occurrences(states[k].holders, p) <= MAX_COUNT
    ensures multiset(states[k].pool.freeList)[p] == if states[k].pool.refcount[p] == 0 then 1 else 0
  {
    RunKeeps(states, actions, pageCount, k);
    var hs := states[k].holders;
    forall j | 0 <= j < |hs| ensures HolderShape(hs[j]) { assert HolderInv(hs, j, Totals(hs)); }
    QuietTotals(hs, p);
  }

  /** In every run no action of a verb reports an underflow, and a refusal leaves the state as it was. */
  lemma NeverUnderflows(states: seq<State>, actions: seq<Action>, pageCount: nat, k: nat)
    requires IsRun(states, actions) && states[0] == Fresh(pageCount) && k < |actions|
    ensures Step(states[k], actions[k]).status != RefcountUnderflow
    ensures Step(states[k], actions[k]).status != Ok ==> states[k + 1] == states[k]
  {
    RunKeeps(states, actions, pageCount, k);
    assert StepFits(states[k], actions[k]) && states[k + 1] == Step(states[k], actions[k]).state;
    StepKeeps(states[k], actions[k]);
  }

  lemma Inside(pages: seq<nat>)
    ensures forall i :: 0 <= i < |pages| ==> pages[i] in multiset(pages)
  {}

  lemma {:induction false} DistinctFits(pages: seq<nat>, n: nat)
    requires forall p: nat :: multiset(pages)[p] <= 1
    requires forall p: nat :: p in multiset(pages) ==> p < n
    ensures |pages| <= n
    decreases n
  {
    if n == 0 {
      Inside(pages);
    } else if n - 1 in pages {
      var last: nat := n - 1;
      var i :| 0 <= i < |pages| && pages[i] == last;
      var rest: seq<nat> := pages[..i] + pages[i + 1..];
      WithoutOne(pages, i, rest);
      forall p: nat
        ensures multiset(rest)[p] <= 1 && (p in multiset(rest) ==> p < last)
      {
        assert multiset(pages)[p] <= 1;
      }
      DistinctFits(rest, n - 1);
    } else {
      forall p: nat | p in multiset(pages) ensures p < n - 1 { assert p in pages; }
      DistinctFits(pages, n - 1);
    }
  }

  lemma WithoutOne(pages: seq<nat>, i: nat, rest: seq<nat>)
    requires i < |pages| && rest == pages[..i] + pages[i + 1..]
    ensures forall p: nat :: multiset(pages)[p] == multiset(rest)[p] + if p == pages[i] then 1 else 0
  {
    var single: multiset<nat> := multiset{pages[i]};
    assert pages == pages[..i] + [pages[i]] + pages[i + 1..];
    assert multiset(pages) == multiset(rest) + single;
  }

  /** No push outgrows the storage reserved for it: the free list never exceeds the page count, and no reserve
      exceeds the pages its holder drew at create. */
  lemma PushesFit(states: seq<State>, actions: seq<Action>, pageCount: nat, k: nat)
    requires IsRun(states, actions) && states[0] == Fresh(pageCount) && k < |states|
    ensures |states[k].pool.freeList| <= pageCount
    ensures forall j :: 0 <= j < |states[k].holders| && states[k].holders[j].phase.Ready? ==>
              |states[k].holders[j].reserve| <= states[k].holders[j].cap
  {
    RunKeeps(states, actions, pageCount, k);
    var s := states[k];
    forall p: nat ensures multiset(s.pool.freeList)[p] <= 1 {
      if p in multiset(s.pool.freeList) { assert p < |s.pool.refcount|; }
    }
    DistinctFits(s.pool.freeList, pageCount);
    forall j | 0 <= j < |s.holders| && s.holders[j].phase.Ready? ensures |s.holders[j].reserve| <= s.holders[j].cap {
      assert HolderInv(s.holders, j, Totals(s.holders));
    }
  }

  /** The fill outside the mutex touches only pages that no table, no reserve, no free list and no other verb in
      progress names. */
  lemma FillTouchesOnlyItsOwn(states: seq<State>, actions: seq<Action>, pageCount: nat, k: nat, p: nat)
    requires IsRun(states, actions) && states[0] == Fresh(pageCount) && k < |actions| && actions[k].Fill?
    requires p < pageCount && |states[k + 1].pool.dirty| == |states[k].pool.dirty| == pageCount
    requires states[k + 1].pool.dirty[p] != states[k].pool.dirty[p]
    ensures actions[k].h < |states[k].holders| && p in AccountOf(states[k].holders[actions[k].h]).limbo
    ensures p !in multiset(states[k].pool.freeList) && p !in Totals(states[k].holders).refs
    ensures forall j :: 0 <= j < |states[k].holders| && j != actions[k].h ==>
        p !in AccountOf(states[k].holders[j]).limbo
  {
    var s, h := states[k], actions[k].h;
    RunKeeps(states, actions, pageCount, k);
    assert StepFits(s, actions[k]) && states[k + 1] == Step(s, actions[k]).state;
    FilledPage(s, h, p);
    forall j | 0 <= j < |s.holders| && j != h ensures p !in AccountOf(s.holders[j]).limbo {
      if p in AccountOf(s.holders[j]).limbo { LimboTwice(s.holders, Min(h, j), Max(h, j), p); }
    }
  }

  lemma FilledPage(s: State, h: nat, p: nat)
    requires Inv(s) && Allowed(s, Fill(h)) && p < |s.pool.dirty|
    requires FillStep(s, h).state.pool.dirty[p] != s.pool.dirty[p]
    ensures p in AccountOf(s.holders[h]).limbo && p !in multiset(s.pool.freeList) && p !in Totals(s.holders).refs
    ensures Totals(s.holders).limbo[p] == 1
  {
    assert HolderInv(s.holders, h, Totals(s.holders));
    var pending: seq<nat> := s.holders[h].phase.pending;
    assert p in pending;
    assert AccountOf(s.holders[h]).limbo == multiset(pending);
    TotalsHas(s.holders, h);
  }

  lemma {:induction false} LimboTwice(hs: seq<Holder>, i: nat, j: nat, p: nat)
    requires i < j < |hs| && p in AccountOf(hs[i]).limbo && p in AccountOf(hs[j]).limbo
    ensures Totals(hs).limbo[p] >= 2
  {
    var n := |hs| - 1;
    assert Totals(hs).limbo == Totals(hs[..n]).limbo + AccountOf(hs[n]).limbo;
    if j == n { TotalsHas(hs[..n], i); } else { LimboTwice(hs[..n], i, j, p); }
  }

  // ----- Which page ends up where

  lemma InvCountsAreWords(s: State)
    requires Inv(s)
    ensures CountsAreWords(s.pool)
  {}

  /** `y` maps the first `pages` pages of `table`, all shared, in that order, and keeps the rest of `x`'s entries. */
  ghost predicate MapsLeading(y: Holder, x: Holder, table: seq<nat>, pages: nat) {
    && y.mapped == y.shared == pages && y.materialized == 0 && pages <= |y.table| == |x.table| && pages <= |table|
    && (forall i :: 0 <= i < pages ==> y.table[i] == table[i])
    && forall i :: pages <= i < |x.table| ==> y.table[i] == x.table[i]
  }

  /** In every run a share succeeds exactly when its arguments allow it and every page's count lies in
      [1, 2^32 - 2]; the receiver then has the source's leading entries in their own order, and nobody else changes. */
  lemma SharesInOrder(states: seq<State>, actions: seq<Action>, pageCount: nat, k: nat, dst: nat, src: nat, pages: nat)
    requires IsRun(states, actions) && states[0] == Fresh(pageCount) && k < |actions|
    requires actions[k] == Begin(Share(dst, src, pages))
    ensures BothFit(states[k], dst, src) && |states[k + 1].holders| == |states[k].holders|
    ensures var s, s' := states[k], states[k + 1];
            var x, from := s.holders[dst], s.holders[src];
            && (Step(s, actions[k]).status == Ok <==>
                  x.mapped == 0 && 0 < pages <= from.mapped && pages <= |x.table|
                  && forall i :: 0 <= i < pages ==> 1 <= s.pool.refcount[from.table[i]] <= 0xFFFF_FFFE)
            && (Step(s, actions[k]).status == Ok ==> MapsLeading(s'.holders[dst], x, from.table, pages))
            && forall j :: 0 <= j < |s.holders| && j != dst ==> s'.holders[j] == s.holders[j]
  {
    var s := states[k];
    RunKeeps(states, actions, pageCount, k);
    assert StepFits(s, actions[k]) && states[k + 1] == Step(s, actions[k]).state;
    InvCountsAreWords(s);
    ShareCopies(s.pool, s.holders[dst], s.holders[src], pages);
    if pages <= s.holders[src].mapped { LeadingAdmits(s.pool, s.holders[src], pages); }
  }

  lemma LeadingAdmits(pool: Pool, h: Holder, pages: nat)
    requires Fits(pool, h) && pages <= h.mapped && InPool(pool, h.table[..pages])
    ensures forall i :: 0 <= i < pages ==> h.table[i] < |pool.refcount|
    ensures CountsAdmit(pool, h.table[..pages])
       <==> forall i :: 0 <= i < pages ==> 1 <= pool.refcount[h.table[i]] <= 0xFFFF_FFFE
  {
    var lead := h.table[..pages];
    assert forall i :: 0 <= i < pages ==> lead[i] == h.table[i];
  }

  /** In every run an adopt ends with the entries it counted at its start, which its source still has then, in their
      own order. */
  lemma AdoptsInOrder(states: seq<State>, actions: seq<Action>, pageCount: nat, k: nat, h: nat)
    requires IsRun(states, actions) && states[0] == Fresh(pageCount) && k < |actions|
    requires actions[k] == End(h) && h < |states[k].holders| == |states[k + 1].holders|
    requires states[k].holders[h].phase.Busy? && states[k].holders[h].phase.op.Adopt?
    ensures var x, op := states[k].holders[h], states[k].holders[h].phase.op;
            && op.src < |states[k].holders| && op.incoming <= states[k].holders[op.src].table
            && MapsLeading(states[k + 1].holders[h], x, op.incoming, |op.incoming|)
            && PushedBack(states[k + 1].holders[h].reserve, x.reserve, x.table[PoolPath(x)..x.mapped])
  {
    var s := states[k];
    RunKeeps(states, actions, pageCount, k);
    assert StepFits(s, actions[k]) && states[k + 1] == Step(s, actions[k]).state;
    assert HolderInv(s.holders, h, Totals(s.holders));
    var table := s.holders[s.holders[h].phase.op.src].table;
    AdoptCopies(s.holders[h], table);
  }

  // ----- The caller's rule, and what a tail rollback undoes

  /** Without the rule the law breaks: unmapping a holder keeps the invariant exactly when nobody else has a
      reference to one of its private pages. */
  lemma UnmapNeedsUnshared(s: State, h: nat)
    requires Inv(s) && IsReady(s, h) && NotReadFrom(s, h) && Fits(s.pool, s.holders[h])
    ensures Inv(With(s, h, UnmapBegin(s.pool, s.holders[h])).state) <==> PrivateUnshared(s, h)
  {
    if PrivateUnshared(s, h) { UnmapKeeps(s, h); }
    else {
      var x := s.holders[h];
      var i :| PoolPath(x) <= i < x.mapped && i < |x.table| && x.table[i] < |s.pool.refcount|
          && s.pool.refcount[x.table[i]] != 1;
      LeadingInPool(s.pool, x, PoolPath(x));
      SharedPrivateBreaks(s, h, i, CountDown(s.pool, x.table[..PoolPath(x)], x.shared).freed);
    }
  }

  lemma SharedPrivateBreaks(s: State, h: nat, i: nat, freed: seq<nat>)
    requires Inv(s) && IsReady(s, h) && HolderShape(s.holders[h]) && |freed| <= PoolPath(s.holders[h])
    requires PoolPath(s.holders[h]) <= i < s.holders[h].mapped
    requires s.holders[h].table[i] < |s.pool.refcount| && s.pool.refcount[s.holders[h].table[i]] != 1
    ensures var hs' := s.holders[h := Unmapping(s.holders[h], freed)]; !HolderInv(hs', h, Totals(hs'))
  {
    var x := s.holders[h];
    var p := x.table[i];
    PrivateNamed(x, i);
    assert HolderInv(s.holders, h, Totals(s.holders));
    TableSplits(x);
    Held(s.holders, h, p);
    UnmapAccount(x, freed);
    Shift(s.holders, h, Unmapping(x, freed));
  }

  /** `n` pages mapped one after another: the table gains the top of the reserve, last page first. */
  function MapMany(h: Holder, n: nat): (r: Holder)
    requires HolderShape(h) && n <= |h.reserve| && h.mapped + n <= |h.table|
    ensures |r.table| == |h.table| && r.mapped == h.mapped + n && r.reserve == h.reserve[..|h.reserve| - n]
    ensures r.shared == h.shared && r.materialized == h.materialized && r.cap == h.cap && r.phase == h.phase
  {
    if n == 0 then h else MapOne(MapMany(h, n - 1))
  }

  lemma {:induction false} ReversedTwice(s: seq<nat>)
    ensures Reversed(Reversed(s)) == s
  {
    if s != [] {
      var k := |s| - 1;
      ReversedPrepend(s[k], Reversed(s[..k]));
      ReversedTwice(s[..k]);
    }
  }

  /** The table after mapping the pages `taken`, topmost first. */
  function Filled(h: Holder, taken: seq<nat>): seq<nat>
    requires h.mapped + |taken| <= |h.table|
  {
    h.table[..h.mapped] + taken + h.table[h.mapped + |taken|..]
  }

  lemma {:induction false} MapManyTable(h: Holder, n: nat)
    requires HolderShape(h) && n <= |h.reserve| && h.mapped + n <= |h.table|
    ensures MapMany(h, n).table == Filled(h, Reversed(h.reserve[|h.reserve| - n..]))
  {
    var top := |h.reserve| - n;
    if n == 0 {
      assert h.reserve[top..] == [];
    } else {
      MapManyTable(h, n - 1);
      MoreReversed(h.reserve, top);
      MapManyStep(h, MapMany(h, n - 1), Reversed(h.reserve[top + 1..]), top);
    }
  }

  lemma MapManyStep(h: Holder, mid: Holder, taken: seq<nat>, top: nat)
    requires top < |h.reserve| && h.mapped + |taken| < |h.table| && mid.mapped == h.mapped + |taken|
    requires mid.reserve == h.reserve[..top + 1] && mid.table == Filled(h, taken)
    ensures MapOne(mid).table == Filled(h, taken + [h.reserve[top]])
  {
    FillOneMore(h, taken, h.reserve[top]);
  }

  lemma FillOneMore(h: Holder, taken: seq<nat>, p: nat)
    requires h.mapped + |taken| < |h.table|
    ensures Filled(h, taken)[h.mapped + |taken| := p] == Filled(h, taken + [p])
  {}

  /** Dropping the tail and mapping again restores the holder whole. */
  lemma DroppedThenMapped(h: Holder, keep: nat)
    requires HolderShape(h)
    ensures var y := UnmapTail(h, keep); y.mapped <= h.mapped && MapMany(y, h.mapped - y.mapped) == h
  {
    var y := UnmapTail(h, keep);
    if y.mapped < h.mapped {
      var tail := h.table[y.mapped..h.mapped];
      CutAt(h.reserve, Reversed(tail));
      ReversedTwice(tail);
      MapManyTable(y, |tail|);
      FilledBack(y, h.mapped);
    }
  }

  lemma FilledBack(h: Holder, end: nat)
    requires h.mapped <= end <= |h.table|
    ensures Filled(h, h.table[h.mapped..end]) == h.table
  {}

  lemma CutAt(a: seq<nat>, b: seq<nat>)
    ensures (a + b)[..|a|] == a && (a + b)[|a|..] == b
  {}

  /** Mapping pages and dropping them restores the reserve, the counts and every mapped entry. */
  lemma MappedThenDropped(h: Holder, n: nat)
    requires HolderShape(h) && n <= |h.reserve| && h.mapped + n <= |h.table|
    ensures var y := UnmapTail(MapMany(h, n), h.mapped);
            y == h.(table := y.table) && y.table[..h.mapped] == h.table[..h.mapped]
  {
    if n > 0 {
      var top := |h.reserve| - n;
      var taken := Reversed(h.reserve[top..]);
      MapManyTable(h, n);
      FilledParts(h, taken);
      ReversedTwice(h.reserve[top..]);
      CutBack(h.reserve, top);
    }
  }

  lemma FilledParts(h: Holder, taken: seq<nat>)
    requires h.mapped + |taken| <= |h.table|
    ensures Filled(h, taken)[..h.mapped] == h.table[..h.mapped]
    ensures Filled(h, taken)[h.mapped..h.mapped + |taken|] == taken
  {}

  lemma CutBack(s: seq<nat>, i: nat)
    requires i <= |s|
    ensures s[..i] + s[i..] == s
  {}
}
