/** The allocator under every interleaving of its mutex sections.

A state is the pool and every holder ever created. One action is one mutex section, one fill outside the mutex,
or one holder-only part of a verb, so the actions of different holders interleave freely. */
module PageProtocol {
  import opened Arith
  import opened PageModel
  import opened PageLaws

  // ----- The actions

  /** A verb's first part: everything up to its first unlock, or all of a verb that never leaves a page in limbo. */
  datatype Verb =
    | Create(table: seq<nat>, reservePages: nat)
    | TakeNext(h: nat)
    | TakeMaterialized(h: nat, count: nat)
    | Share(dst: nat, src: nat, pages: nat)
    | BeginAdopt(dst: nat, src: nat, pages: nat)
    | BeginUnmap(h: nat)
    | DropTail(h: nat, keep: nat)
    | BeginRelease(h: nat)
    | BeginReturn(h: nat)

  /** After a begin come the fill outside the mutex, the push under it, and the holder's own clean-up. */
  datatype Action = Begin(verb: Verb) | Fill(h: nat) | Push(h: nat) | End(h: nat)

  predicate IsReady(s: State, h: nat) { h < |s.holders| && s.holders[h].phase.Ready? }

  /** Nobody is between the two reads of `h`'s table that an adopt from it makes. */
  predicate NotReadFrom(s: State, h: nat) { forall k :: 0 <= k < |s.holders| ==> !ReadsFrom(s.holders[k], h) }

  /** The caller's side of the provenance rule: a holder whose private pages others share is only released. */
  predicate PrivateUnshared(s: State, h: nat)
    requires h < |s.holders|
  {
    var x := s.holders[h];
    forall i :: PoolPath(x) <= i < x.mapped && i < |x.table| && x.table[i] < |s.pool.refcount| ==>
        s.pool.refcount[x.table[i]] == 1
  }

  /** What the code requires of its callers: one verb per holder at a time, and the two rules above. */
  predicate VerbAllowed(s: State, v: Verb) {
    match v
    case Create(_, _) => true
    case TakeNext(h) => IsReady(s, h)
    case TakeMaterialized(h, _) => IsReady(s, h)
    case Share(dst, src, _) => IsReady(s, dst) && IsReady(s, src) && dst != src
    case BeginAdopt(dst, src, _) =>
      IsReady(s, dst) && IsReady(s, src) && dst != src && NotReadFrom(s, dst) && PrivateUnshared(s, dst)
    case BeginUnmap(h) => IsReady(s, h) && NotReadFrom(s, h) && PrivateUnshared(s, h)
    case DropTail(h, _) => IsReady(s, h) && PrivateUnshared(s, h)
    case BeginRelease(h) => IsReady(s, h) && NotReadFrom(s, h)
    case BeginReturn(h) => IsReady(s, h)
  }

  predicate Allowed(s: State, a: Action) {
    match a
    case Begin(v) => VerbAllowed(s, v)
    case Fill(h) => h < |s.holders| && s.holders[h].phase.Busy? && !s.holders[h].phase.filled
    case Push(h) => h < |s.holders| && s.holders[h].phase.Busy? && s.holders[h].phase.filled
    case End(h) =>
        h < |s.holders| && s.holders[h].phase.Busy? && s.holders[h].phase.filled && s.holders[h].phase.pending == []
  }

  datatype Outcome = Outcome(status: Status, state: State)

  function With(s: State, h: nat, r: Result): Outcome
    requires h < |s.holders|
  {
    Outcome(r.status, State(r.pool, s.holders[h := r.holder]))
  }

  lemma HolderFits(s: State, h: nat)
    requires Inv(s) && h < |s.holders| && s.holders[h].phase.Ready?
    ensures Fits(s.pool, s.holders[h])
  {
    var x := s.holders[h];
    TotalsHas(s.holders, h);
    assert HolderInv(s.holders, h, Totals(s.holders));
    forall i | 0 <= i < x.mapped ensures x.table[..x.mapped][i] < |s.pool.refcount| {
      assert x.table[..x.mapped][i] in AccountOf(x).refs;
    }
    forall i | 0 <= i < |x.reserve|
      ensures x.reserve[i] < |s.pool.refcount|
    {
      assert x.reserve[i] in AccountOf(x).refs;
    }
  }

  lemma FreeInPool(s: State)
    requires Inv(s)
    ensures InPool(s.pool, s.pool.freeList)
  {
    forall i | 0 <= i < |s.pool.freeList| ensures s.pool.freeList[i] < |s.pool.refcount| {
      assert s.pool.freeList[i] in multiset(s.pool.freeList);
    }
  }

  /** The holders a verb touches have tables and reserves inside the pool. */
  predicate VerbFits(s: State, v: Verb) {
    match v
    case Create(_, _) => InPool(s.pool, s.pool.freeList)
    case Share(dst, src, _) => BothFit(s, dst, src)
    case BeginAdopt(dst, src, _) => BothFit(s, dst, src)
    case _ => v.h < |s.holders| && Fits(s.pool, s.holders[v.h])
  }

  predicate BothFit(s: State, dst: nat, src: nat) {
    dst < |s.holders| && src < |s.holders| && Fits(s.pool, s.holders[dst]) && Fits(s.pool, s.holders[src])
  }

  /** A holder draws its reserve only after the argument and capacity checks. */
  function CreateStep(s: State, table: seq<nat>, reservePages: nat): Outcome
    requires InPool(s.pool, s.pool.freeList)
  {
    if table == [] then Outcome(InvalidArgument, s)
    else if reservePages > |s.pool.refcount| || |s.pool.freeList| < reservePages then Outcome(Exhausted, s)
    else
      var d := Draw(s.pool, reservePages);
      Outcome(Ok, State(d.pool, s.holders + [Holder(table, 0, 0, 0, d.reserve, reservePages, Ready)]))
  }

  function BeginStep(s: State, v: Verb): Outcome
    requires VerbFits(s, v)
  {
    match v
    case Create(table, reservePages) => CreateStep(s, table, reservePages)
    case TakeNext(h) => With(s, h, MapNext(s.pool, s.holders[h]))
    case TakeMaterialized(h, count) => With(s, h, MapMaterialized(s.pool, s.holders[h], count))
    case Share(dst, src, pages) => With(s, dst, ShareLeading(s.pool, s.holders[dst], s.holders[src], pages))
    case BeginAdopt(dst, src, pages) => With(s, dst, AdoptBegin(s.pool, s.holders[dst], s.holders[src], src, pages))
    case BeginUnmap(h) => With(s, h, UnmapBegin(s.pool, s.holders[h]))
    case DropTail(h, keep) => With(s, h, Result(Ok, s.pool, UnmapTail(s.holders[h], keep)))
    case BeginRelease(h) => With(s, h, ReleaseBegin(s.pool, s.holders[h]))
    case BeginReturn(h) => With(s, h, ReturnBegin(s.pool, s.holders[h]))
  }

  function FillStep(s: State, h: nat): Outcome
    requires Allowed(s, Fill(h))
  {
    var x := s.holders[h];
    With(s, h, Result(Ok, Clean(s.pool, x.phase.pending), x.(phase := x.phase.(filled := true))))
  }

  function PushStep(s: State, h: nat): Outcome
    requires Allowed(s, Push(h))
  {
    var x := s.holders[h];
    With(s, h, Result(Ok, PushFree(s.pool, x.phase.pending), x.(phase := x.phase.(pending := []))))
  }

  function EndStep(s: State, h: nat): Outcome
    requires Allowed(s, End(h)) && HolderShape(s.holders[h]) && ReaderServed(s.holders, h)
  {
    var x := s.holders[h];
    With(s, h, Result(Ok, s.pool, Finish(x, if x.phase.op.Adopt? then s.holders[x.phase.op.src].table else [])))
  }

  ghost predicate StepFits(s: State, a: Action) {
    Allowed(s, a)
    && (a.Begin? ==> VerbFits(s, a.verb))
    && (a.End? ==> HolderShape(s.holders[a.h]) && ReaderServed(s.holders, a.h))
  }

  ghost function Step(s: State, a: Action): Outcome
    requires StepFits(s, a)
  {
    match a
    case Begin(v) => BeginStep(s, v)
    case Fill(h) => FillStep(s, h)
    case Push(h) => PushStep(s, h)
    case End(h) => EndStep(s, h)
  }

  lemma InvFits(s: State, a: Action)
    requires Inv(s) && Allowed(s, a)
    ensures StepFits(s, a)
  {
    if a.Begin? {
      VerbInvFits(s, a.verb);
    } else if a.End? {
      assert HolderInv(s.holders, a.h, Totals(s.holders));
    }
  }

  lemma VerbInvFits(s: State, v: Verb)
    requires Inv(s) && VerbAllowed(s, v)
    ensures VerbFits(s, v)
  {
    match v
    case Create(_, _) => FreeInPool(s);
    case Share(dst, src, _) => HolderFits(s, dst); HolderFits(s, src);
    case BeginAdopt(dst, src, _) => HolderFits(s, dst); HolderFits(s, src);
    case _ => HolderFits(s, v.h);
  }

  // ----- Every action keeps the invariant

  /** A step keeps the invariant, never reports an underflow, and a refusal changes nothing. */
  ghost predicate Good(s: State, o: Outcome) {
    Inv(o.state) && o.status != RefcountUnderflow && (o.status != Ok ==> o.state == s)
  }

  /** The counts of an account before and after one holder changes, page by page. */
  lemma Shift(hs: seq<Holder>, h: nat, x: Holder)
    requires h < |hs|
    ensures var t, t', a, a' := Totals(hs), Totals(hs[h := x]), AccountOf(hs[h]), AccountOf(x);
            forall p :: t'.refs[p] + a.refs[p] == t.refs[p] + a'.refs[p]
                        && t'.limbo[p] + a.limbo[p] == t.limbo[p] + a'.limbo[p]
                        && t'.shared[p] + a.shared[p] == t.shared[p] + a'.shared[p]
  {
    TotalsUpdate(hs, h, x);
    var t, t', a, a' := Totals(hs), Totals(hs[h := x]), AccountOf(hs[h]), AccountOf(x);
    assert t'.refs + a.refs == t.refs + a'.refs;
    assert t'.limbo + a.limbo == t.limbo + a'.limbo;
    assert t'.shared + a.shared == t.shared + a'.shared;
    forall p
      ensures t'.refs[p] + a.refs[p] == t.refs[p] + a'.refs[p]
    {
      assert (t'.refs + a.refs)[p] == (t.refs + a'.refs)[p];
    }
    forall p
      ensures t'.limbo[p] + a.limbo[p] == t.limbo[p] + a'.limbo[p]
    {
      assert (t'.limbo + a.limbo)[p] == (t.limbo + a'.limbo)[p];
    }
    forall p ensures t'.shared[p] + a.shared[p] == t.shared[p] + a'.shared[p] {
      assert (t'.shared + a.shared)[p] == (t.shared + a'.shared)[p];
    }
  }

  /** The other holders' conditions survive when counts grow only at pages nobody counts on alone, and readers of
      the changed holder still find their pages. */
  lemma OthersKeep(hs: seq<Holder>, hs': seq<Holder>, h: nat, grown: multiset<nat>)
    requires h < |hs| == |hs'| && hs' == hs[h := hs'[h]]
    requires forall k :: 0 <= k < |hs| ==> HolderInv(hs, k, Totals(hs))
    requires forall p :: Totals(hs').refs[p] <= Totals(hs).refs[p] || p in grown
    requires forall k, p :: 0 <= k < |hs| && k != h && p in Solo(hs[k]) ==> p !in grown
    requires Serves(hs, h, hs'[h])
    ensures OthersHold(hs', h)
  {
    forall k | 0 <= k < |hs| && k != h ensures HolderInv(hs', k, Totals(hs')) {
      assert hs'[k] == hs[k] && HolderInv(hs, k, Totals(hs));
      SoloKeeps(hs, hs', k, grown);
    }
  }

  lemma SoloKeeps(hs: seq<Holder>, hs': seq<Holder>, k: nat, grown: multiset<nat>)
    requires k < |hs| == |hs'| && hs'[k] == hs[k] && SoloHeld(hs[k], Totals(hs).refs)
    requires forall p :: Totals(hs').refs[p] <= Totals(hs).refs[p] || p in grown
    requires forall p :: p in Solo(hs[k]) ==> p !in grown
    ensures SoloHeld(hs'[k], Totals(hs').refs)
  {
    TotalsHas(hs', k);
    SoloCounts(hs[k]);
    forall p | p in Solo(hs[k]) ensures Totals(hs').refs[p] == 1 {
      assert Totals(hs).refs[p] == 1 && p !in grown && p in AccountOf(hs'[k]).refs;
    }
  }

  lemma SoloCounts(h: Holder)
    ensures forall p :: p in Solo(h) ==> p in AccountOf(h).refs
  {}

  /** Filled pages stay clean when the only flags set are those of pages somebody holds. */
  lemma PendingStayClean(s: State, s': State, h: nat)
    requires Inv(s) && h < |s.holders| == |s'.holders| && s'.holders == s.holders[h := s'.holders[h]]
    requires WellFormed(s'.pool) && |s'.pool.dirty| == |s.pool.dirty|
    requires forall p :: 0 <= p < |s.pool.dirty| && s'.pool.dirty[p] ==>
        s.pool.dirty[p] || Totals(s.holders).refs[p] > 0
    requires s'.holders[h].phase.Busy? && s'.holders[h].phase.filled ==> AllClean(s'.pool, s'.holders[h].phase.pending)
    requires AllClean(s'.pool, s'.pool.freeList)
    ensures FreeIsClean(s')
  {
    var t := Totals(s.holders);
    forall k | 0 <= k < |s'.holders| && s'.holders[k].phase.Busy? && s'.holders[k].phase.filled
      ensures AllClean(s'.pool, s'.holders[k].phase.pending)
    {
      if k != h {
        assert s'.holders[k] == s.holders[k];
        LimboUnheld(s, k);
      }
    }
  }

  /** A page in limbo has no reference left. */
  lemma LimboUnheld(s: State, k: nat)
    requires Inv(s) && k < |s.holders| && s.holders[k].phase.Busy?
    ensures var pending: seq<nat> := s.holders[k].phase.pending;
            forall i :: 0 <= i < |pending| ==> pending[i] < |s.pool.refcount| && Totals(s.holders).refs[pending[i]] == 0
  {
    var pending: seq<nat> := s.holders[k].phase.pending;
    TotalsHas(s.holders, k);
    assert HolderInv(s.holders, k, Totals(s.holders));
    forall i | 0 <= i < |pending| ensures pending[i] < |s.pool.refcount| && Totals(s.holders).refs[pending[i]] == 0 {
      assert pending[i] in AccountOf(s.holders[k]).limbo;
    }
  }

  lemma FreeStaysClean(s: State, pool: Pool)
    requires Inv(s) && WellFormed(pool) && |pool.dirty| == |s.pool.dirty| && pool.freeList == s.pool.freeList
    requires forall p :: 0 <= p < |s.pool.dirty| && pool.dirty[p] ==> s.pool.dirty[p] || Totals(s.holders).refs[p] > 0
    ensures AllClean(pool, pool.freeList)
  {
    forall i | 0 <= i < |pool.freeList| && pool.freeList[i] < |pool.dirty| ensures !pool.dirty[pool.freeList[i]] {
      assert s.pool.freeList[i] in multiset(s.pool.freeList);
    }
  }

  ghost predicate OthersHold(hs: seq<Holder>, h: nat) {
    forall k :: 0 <= k < |hs| && k != h ==> HolderInv(hs, k, Totals(hs))
  }

  ghost predicate Accounted(pool: Pool, t: Account) { PagesAccounted(pool, t) && SharesAccounted(pool, t) }

  /** The readers of `h` are still served when it becomes `y`. */
  predicate Serves(hs: seq<Holder>, h: nat, y: Holder) {
    forall k :: 0 <= k < |hs| && k != h && ReadsFrom(hs[k], h) ==> Readable(y, hs[k].phase.op.incoming)
  }

  lemma Assemble(s: State, h: nat)
    requires h < |s.holders| && Accounted(s.pool, Totals(s.holders)) && HolderInv(s.holders, h, Totals(s.holders))
    requires OthersHold(s.holders, h) && FreeIsClean(s)
    ensures Inv(s)
  {}

  lemma SameAccount(hs: seq<Holder>, h: nat, x: Holder)
    requires h < |hs| && AccountOf(x) == AccountOf(hs[h])
    ensures Totals(hs[h := x]) == Totals(hs)
  {
    Shift(hs, h, x);
    var t, t' := Totals(hs), Totals(hs[h := x]);
    assert t'.refs == t.refs && t'.limbo == t.limbo && t'.shared == t.shared;
  }

  /** A holder-only move that keeps its account and sets flags of pages somebody holds. */
  lemma MoveKeeps(s: State, h: nat, pool: Pool, x: Holder)
    requires Inv(s) && h < |s.holders| && AccountOf(x) == AccountOf(s.holders[h])
    requires pool == s.pool.(dirty := pool.dirty) && |pool.dirty| == |s.pool.dirty|
    requires forall p :: 0 <= p < |pool.dirty| && pool.dirty[p] && !s.pool.dirty[p] ==> Totals(s.holders).refs[p] > 0
    requires HolderInv(s.holders[h := x], h, Totals(s.holders))
    requires Serves(s.holders, h, x)
    requires x.phase.Busy? && x.phase.filled ==> AllClean(pool, x.phase.pending)
    ensures Inv(State(pool, s.holders[h := x]))
  {
    SameAccount(s.holders, h, x);
    DirtyOnly(s.pool, pool, Totals(s.holders));
    FreeStaysClean(s, pool);
    PendingStayClean(s, State(pool, s.holders[h := x]), h);
    OthersStay(s.holders, s.holders[h := x], h);
    Assemble(State(pool, s.holders[h := x]), h);
  }

  lemma DirtyOnly(pool: Pool, pool': Pool, t: Account)
    requires Accounted(pool, t) && pool' == pool.(dirty := pool'.dirty) && |pool'.dirty| == |pool.dirty|
    ensures Accounted(pool', t)
  {}

  lemma OthersStay(hs: seq<Holder>, hs': seq<Holder>, h: nat)
    requires h < |hs| == |hs'| && hs' == hs[h := hs'[h]] && Totals(hs').refs == Totals(hs).refs
    requires (forall k :: 0 <= k < |hs| ==> HolderInv(hs, k, Totals(hs))) && Serves(hs, h, hs'[h])
    ensures OthersHold(hs', h)
  {
    OthersKeep(hs, hs', h, multiset{});
  }

  lemma SplitAt(s: seq<nat>, i: nat)
    requires i <= |s|
    ensures multiset(s) == multiset(s[..i]) + multiset(s[i..])
  {
    assert s == s[..i] + s[i..];
  }

  lemma TakeNextAccount(x: Holder)
    requires HolderShape(x) && x.phase.Ready? && x.mapped < |x.table| && x.reserve != []
    ensures var y := MapOne(x); AccountOf(y) == AccountOf(x) && Solo(y) <= Solo(x)
    ensures x.reserve[|x.reserve| - 1] in AccountOf(x).refs
  {
    var y := MapOne(x);
    var p := x.reserve[|x.reserve| - 1];
    assert x.reserve == y.reserve + [p];
    assert y.table[..y.mapped] == x.table[..x.mapped] + [p];
    assert y.table[..y.shared] == x.table[..x.shared];
    assert p in multiset(x.reserve);
  }

  lemma TakeNextShape(x: Holder)
    requires HolderShape(x) && x.phase.Ready? && x.mapped < |x.table| && x.reserve != []
    ensures var y := MapOne(x);
            HolderShape(y) && (CapacityHeld(x) ==> CapacityHeld(y)) && y.phase.Ready? && x.mapped <= y.mapped
            && y.table[..x.mapped] == x.table[..x.mapped]
  {}

  lemma TakeNextKeeps(s: State, h: nat)
    requires Inv(s) && IsReady(s, h) && Fits(s.pool, s.holders[h])
    requires MapNext(s.pool, s.holders[h]).status == Ok
    ensures var r := MapNext(s.pool, s.holders[h]); Inv(State(r.pool, s.holders[h := r.holder]))
  {
    var x := s.holders[h];
    assert HolderInv(s.holders, h, Totals(s.holders));
    TakeNextAccount(x);
    TakeNextShape(x);
    TakeNextDirty(s, h);
    ReadyMoves(s, h, MapNext(s.pool, x).pool, MapOne(x));
  }

  /** The pool differs by dirty flags of pages in use. */
  ghost predicate OnlySoils(s: State, pool: Pool) {
    && pool == s.pool.(dirty := pool.dirty) && |pool.dirty| == |s.pool.dirty|
    && forall p :: 0 <= p < |pool.dirty| && pool.dirty[p] && !s.pool.dirty[p] ==> Totals(s.holders).refs[p] > 0
  }

  /** A ready holder that keeps its account and its mapped entries, over a pool with more pages in use dirty. */
  lemma ReadyMoves(s: State, h: nat, pool: Pool, y: Holder)
    requires Inv(s) && IsReady(s, h) && OnlySoils(s, pool)
    requires AccountOf(y) == AccountOf(s.holders[h]) && Solo(y) <= Solo(s.holders[h])
    requires HolderShape(y) && CapacityHeld(y) && y.phase.Ready?
    requires s.holders[h].mapped <= y.mapped
        && y.table[..s.holders[h].mapped] == s.holders[h].table[..s.holders[h].mapped]
    ensures Inv(State(pool, s.holders[h := y]))
  {
    ReadyKeeps(s, h, y);
    MoveKeeps(s, h, pool, y);
  }

  lemma TakeNextDirty(s: State, h: nat)
    requires Inv(s) && IsReady(s, h) && Fits(s.pool, s.holders[h]) && MapNext(s.pool, s.holders[h]).status == Ok
    ensures OnlySoils(s, MapNext(s.pool, s.holders[h]).pool)
  {
    var x := s.holders[h];
    TakeNextAccount(x);
    Held(s.holders, h, x.reserve[|x.reserve| - 1]);
  }

  lemma Held(hs: seq<Holder>, h: nat, p: nat)
    requires h < |hs| && p in AccountOf(hs[h]).refs
    ensures Totals(hs).refs[p] > 0
  {
    TotalsHas(hs, h);
  }

  lemma SoilHeld(s: State, h: nat, pages: seq<nat>)
    requires Inv(s) && h < |s.holders| && multiset(pages) <= AccountOf(s.holders[h]).refs
    ensures OnlySoils(s, Soil(s.pool, pages))
  {
    forall p: nat | p in pages ensures Totals(s.holders).refs[p] > 0 {
      assert p in multiset(pages);
      Held(s.holders, h, p);
    }
  }

  /** A ready holder that keeps its account and its mapped entries keeps its own conditions and serves its readers. */
  lemma ReadyKeeps(s: State, h: nat, y: Holder)
    requires Inv(s) && IsReady(s, h)
    requires AccountOf(y) == AccountOf(s.holders[h]) && Solo(y) <= Solo(s.holders[h])
    requires HolderShape(y) && CapacityHeld(y) && y.phase.Ready?
    requires s.holders[h].mapped <= y.mapped
        && y.table[..s.holders[h].mapped] == s.holders[h].table[..s.holders[h].mapped]
    ensures HolderInv(s.holders[h := y], h, Totals(s.holders))
    ensures Serves(s.holders, h, y)
  {
    assert HolderInv(s.holders, h, Totals(s.holders));
    ReadyServes(s, h, y);
  }

  lemma ReadyServes(s: State, h: nat, y: Holder)
    requires Inv(s) && IsReady(s, h) && HolderShape(s.holders[h]) && HolderShape(y) && y.phase.Ready?
    requires s.holders[h].mapped <= y.mapped
        && y.table[..s.holders[h].mapped] == s.holders[h].table[..s.holders[h].mapped]
    ensures Serves(s.holders, h, y)
  {
    var x := s.holders[h];
    forall k | 0 <= k < |s.holders| && k != h && ReadsFrom(s.holders[k], h)
      ensures Readable(y, s.holders[k].phase.op.incoming)
    {
      assert HolderInv(s.holders, k, Totals(s.holders));
      PrefixOf(x.table, y.table, x.mapped, |s.holders[k].phase.op.incoming|);
    }
  }

  lemma PrefixOf(a: seq<nat>, b: seq<nat>, m: nat, n: nat)
    requires n <= m <= |a| && m <= |b| && a[..m] == b[..m]
    ensures a[..n] == b[..n]
  {
    assert a[..n] == a[..m][..n] && b[..n] == b[..m][..n];
  }

  lemma TakeMaterializedKeeps(s: State, h: nat, count: nat)
    requires Inv(s) && IsReady(s, h) && Fits(s.pool, s.holders[h])
    requires MapMaterialized(s.pool, s.holders[h], count).status == Ok
    ensures var r := MapMaterialized(s.pool, s.holders[h], count); Inv(State(r.pool, s.holders[h := r.holder]))
  {
    var x := s.holders[h];
    assert HolderInv(s.holders, h, Totals(s.holders));
    MaterializedMoves(s, h, count, Materialize(x, count), Reversed(x.reserve[|x.reserve| - count..]));
  }

  lemma MaterializedMoves(s: State, h: nat, count: nat, y: Holder, taken: seq<nat>)
    requires Inv(s) && IsReady(s, h) && HolderShape(s.holders[h]) && CapacityHeld(s.holders[h])
    requires s.holders[h].mapped == 0 && count <= |s.holders[h].table| && count <= |s.holders[h].reserve|
    requires y == Materialize(s.holders[h], count)
    requires taken == Reversed(s.holders[h].reserve[|s.holders[h].reserve| - count..])
    ensures Inv(State(Soil(s.pool, taken), s.holders[h := y]))
  {
    MaterializedFollows(s.holders[h], count, y, taken);
    SoiledMoves(s, h, y, taken);
  }

  /** A ready holder after a take: the same account, no page newly private, the mapped entries kept. */
  ghost predicate Follows(x: Holder, y: Holder) {
    && AccountOf(y) == AccountOf(x) && Solo(y) <= Solo(x) && HolderShape(y) && CapacityHeld(y) && y.phase.Ready?
    && x.mapped <= y.mapped && x.mapped <= |x.table| && y.table[..x.mapped] == x.table[..x.mapped]
  }

  lemma MaterializedFollows(x: Holder, count: nat, y: Holder, taken: seq<nat>)
    requires HolderShape(x) && CapacityHeld(x) && x.phase.Ready? && x.mapped == 0
    requires count <= |x.table| && count <= |x.reserve| && y == Materialize(x, count)
    requires taken == Reversed(x.reserve[|x.reserve| - count..])
    ensures Follows(x, y) && multiset(taken) <= AccountOf(x).refs
  {
    TakeMaterializedAccount(x, count);
    TakeMaterializedShape(x, count);
  }

  lemma SoiledMoves(s: State, h: nat, y: Holder, taken: seq<nat>)
    requires Inv(s) && IsReady(s, h) && Follows(s.holders[h], y) && multiset(taken) <= AccountOf(s.holders[h]).refs
    ensures Inv(State(Soil(s.pool, taken), s.holders[h := y]))
  {
    SoilHeld(s, h, taken);
    ReadyMoves(s, h, Soil(s.pool, taken), y);
  }

  lemma TakeMaterializedAccount(x: Holder, count: nat)
    requires HolderShape(x) && x.phase.Ready? && x.mapped == 0 && count <= |x.table| && count <= |x.reserve|
    ensures var y := Materialize(x, count); AccountOf(y) == AccountOf(x) && Solo(y) <= Solo(x)
    ensures multiset(Reversed(x.reserve[|x.reserve| - count..])) <= AccountOf(x).refs
  {
    var left := |x.reserve| - count;
    var taken := Reversed(x.reserve[left..]);
    SplitAt(x.reserve, left);
    ReversedPermutes(x.reserve[left..]);
    assert (taken + x.table[count..])[..count] == taken;
    assert x.table[..0] == [];
    MaterializedAccount(Materialize(x, count), taken, multiset(x.reserve[..left]));
  }

  lemma MaterializedAccount(y: Holder, taken: seq<nat>, left: multiset<nat>)
    requires HolderShape(y) && y.phase.Ready? && y.table[..y.mapped] == taken && multiset(y.reserve) == left
        && y.shared == 0
    ensures AccountOf(y) == Account(left + multiset(taken), multiset{}, multiset{})
  {
    assert multiset(taken) + left == left + multiset(taken);
    assert multiset(y.table[..0]) == multiset{};
  }

  lemma TakeMaterializedShape(x: Holder, count: nat)
    requires HolderShape(x) && x.phase.Ready? && x.mapped == 0 && count <= |x.table| && count <= |x.reserve|
    ensures var y := Materialize(x, count);
            HolderShape(y) && y.phase.Ready? && (CapacityHeld(x) ==> CapacityHeld(y)) && y.table[..0] == x.table[..0]
  {}

  /** Counting down takes exactly the removed references and shared entries, and the freed pages go to limbo. */
  lemma DownAccounts(pool: Pool, d: Counted, pages: multiset<nat>, shared: multiset<nat>, t: Account, t': Account)
    requires PagesAccounted(pool, t) && SharesAccounted(pool, t) && CountedDown(pool, d, pages, shared)
    requires WellFormed(d.pool) && d.pool.freeList == pool.freeList
    requires forall p :: t'.refs[p] + pages[p] == t.refs[p]
    requires forall p :: t'.shared[p] + shared[p] == t.shared[p]
    requires forall p :: t'.limbo[p] == t.limbo[p] + multiset(d.freed)[p]
    ensures PagesAccounted(d.pool, t') && SharesAccounted(d.pool, t')
  {
    forall p | p in t'.refs || p in t'.limbo || p in multiset(pool.freeList) ensures p < |pool.refcount| {
      if p in multiset(d.freed) {
        var i :| 0 <= i < |d.freed| && d.freed[i] == p;
      } else {
        assert p in t.refs || p in t.limbo || p in multiset(pool.freeList);
      }
    }
  }

  /** The pages a table's leading entries name are counted, once each, and nobody counts on them alone. */
  lemma IncomingIsCounted(s: State, src: nat, pages: nat)
    requires Inv(s) && IsReady(s, src) && pages <= s.holders[src].mapped && pages <= |s.holders[src].table|
    ensures var inc := multiset(s.holders[src].table[..pages]);
            forall p :: p in inc ==> inc[p] == 1 && p < |s.pool.refcount| && Totals(s.holders).refs[p] > 0
    ensures var inc := multiset(s.holders[src].table[..pages]);
            forall k, p :: 0 <= k < |s.holders| && p in Solo(s.holders[k]) ==> p !in inc
    ensures var inc := multiset(s.holders[src].table[..pages]);
            forall k, p :: 0 <= k < |s.holders| && k != src && p in inc && p in AccountOf(s.holders[k]).refs ==>
                Totals(s.holders).refs[p] >= 2
  {
    var x := s.holders[src];
    var inc := multiset(x.table[..pages]);
    var t := Totals(s.holders);
    assert HolderInv(s.holders, src, t);
    assert x.table[..x.mapped][..pages] == x.table[..pages];
    SplitAt(x.table[..x.mapped], pages);
    TotalsHas(s.holders, src);
    forall k, p | 0 <= k < |s.holders| && k != src && p in inc && p in AccountOf(s.holders[k]).refs
      ensures t.refs[p] >= 2
    {
      SharedByTwo(s.holders, k, src, p);
    }
    forall k, p | 0 <= k < |s.holders| && p in Solo(s.holders[k]) ensures p !in inc {
      SoloCounts(s.holders[k]);
      assert HolderInv(s.holders, k, t);
    }
  }

  /** Counting up gives each incoming page one more reference and one more shared entry. */
  lemma UpAccounts(pool: Pool, incoming: seq<nat>, t: Account, t': Account)
    requires InPool(pool, incoming) && PagesAccounted(pool, t) && SharesAccounted(pool, t)
    requires CheckShareable(pool, incoming) == Ok
    requires forall p :: p in multiset(incoming) ==> multiset(incoming)[p] == 1 && t.refs[p] > 0
    requires t' == Account(t.refs + multiset(incoming), t.limbo, t.shared + multiset(incoming))
    ensures PagesAccounted(CountUp(pool, incoming), t') && SharesAccounted(CountUp(pool, incoming), t')
  {
    UpPages(pool, incoming, t, t');
    UpShares(pool, incoming, t, t');
  }

  lemma UpShares(pool: Pool, incoming: seq<nat>, t: Account, t': Account)
    requires InPool(pool, incoming) && SharesAccounted(pool, t)
    requires CheckShareable(pool, incoming) == Ok && t'.shared == t.shared + multiset(incoming)
    ensures SharesAccounted(CountUp(pool, incoming), t')
  {
    CountUpCounts(pool, incoming);
    CheckPasses(pool, incoming);
  }

  lemma UpPage(pool: Pool, incoming: seq<nat>, t: Account, p: nat)
    requires InPool(pool, incoming) && PagesAccounted(pool, t) && CheckShareable(pool, incoming) == Ok
    requires p in multiset(incoming) ==> multiset(incoming)[p] == 1 && t.refs[p] > 0
    requires p < |pool.refcount|
    ensures CountUp(pool, incoming).refcount[p] == t.refs[p] + multiset(incoming)[p] <= MAX_COUNT
    ensures t.refs[p] + multiset(incoming)[p] > 0 <==> t.refs[p] > 0
  {
    CountUpAt(pool, incoming, p);
    CheckPasses(pool, incoming);
    if p in multiset(incoming) { var i :| 0 <= i < |incoming| && incoming[i] == p; }
  }

  lemma UpPages(pool: Pool, incoming: seq<nat>, t: Account, t': Account)
    requires InPool(pool, incoming) && PagesAccounted(pool, t)
    requires CheckShareable(pool, incoming) == Ok
    requires forall p :: p in multiset(incoming) ==> multiset(incoming)[p] == 1 && t.refs[p] > 0
    requires t'.refs == t.refs + multiset(incoming) && t'.limbo == t.limbo
    ensures PagesAccounted(CountUp(pool, incoming), t')
  {
    forall p | 0 <= p < |pool.refcount|
      ensures CountUp(pool, incoming).refcount[p] == t'.refs[p] <= MAX_COUNT && (t'.refs[p] > 0 <==> t.refs[p] > 0)
    {
      UpPage(pool, incoming, t, p);
    }
    forall p | p in t'.refs || p in t'.limbo || p in multiset(pool.freeList) ensures p < |pool.refcount| {
      assert p in t.refs || p in t.limbo || p in multiset(pool.freeList);
    }
  }

  /** The holder `dst`, mapping nothing, with `src`'s leading pages as its shared entries. */
  function Sharing(dst: Holder, incoming: seq<nat>): Holder
    requires |incoming| <= |dst.table|
  {
    var n := |incoming|;
    dst.(table := incoming + dst.table[n..], mapped := n, shared := n, materialized := 0)
  }

  lemma ShareKeeps(s: State, dst: nat, src: nat, pages: nat)
    requires Inv(s) && IsReady(s, dst) && IsReady(s, src) && dst != src && BothFit(s, dst, src)
    requires ShareLeading(s.pool, s.holders[dst], s.holders[src], pages).status == Ok
    ensures var r := ShareLeading(s.pool, s.holders[dst], s.holders[src], pages);
            Inv(State(r.pool, s.holders[dst := r.holder]))
  {
    var incoming := s.holders[src].table[..pages];
    IncomingFits(s, src, pages);
    var y := Sharing(s.holders[dst], incoming);
    var s' := State(CountUp(s.pool, incoming), s.holders[dst := y]);
    ShareAccounts(s, dst, src, pages);
    FreeStaysClean(s, s'.pool);
    PendingStayClean(s, s', dst);
    SharerHolds(s, dst, src, pages);
    ShareOthersHold(s, dst, src, pages);
    Assemble(s', dst);
  }

  lemma ShareAccounts(s: State, dst: nat, src: nat, pages: nat)
    requires Inv(s) && IsReady(s, dst) && IsReady(s, src) && dst != src && BothFit(s, dst, src)
        && s.holders[dst].mapped == 0
    requires pages <= s.holders[src].mapped && pages <= |s.holders[dst].table|
    requires InPool(s.pool, s.holders[src].table[..pages])
        && CheckShareable(s.pool, s.holders[src].table[..pages]) == Ok
    ensures var incoming := s.holders[src].table[..pages];
            Accounted(CountUp(s.pool, incoming), Totals(s.holders[dst := Sharing(s.holders[dst], incoming)]))
  {
    var incoming := s.holders[src].table[..pages];
    IncomingIsCounted(s, src, pages);
    ShareTotals(s.holders, dst, incoming);
    UpAccounts(s.pool, incoming, Totals(s.holders), Totals(s.holders[dst := Sharing(s.holders[dst], incoming)]));
  }

  lemma ShareTotals(hs: seq<Holder>, h: nat, incoming: seq<nat>)
    requires h < |hs| && HolderShape(hs[h]) && hs[h].phase.Ready? && hs[h].mapped == 0 && |incoming| <= |hs[h].table|
    ensures Totals(hs[h := Sharing(hs[h], incoming)])
            == Account(Totals(hs).refs + multiset(incoming), Totals(hs).limbo, Totals(hs).shared + multiset(incoming))
  {
    var none, inc := multiset{}, multiset(incoming);
    SharedAccount(hs[h], incoming);
    TotalsMove(hs, h, Sharing(hs[h], incoming), Account(inc, none, inc), Account(none, none, none));
    var t' := Totals(hs[h := Sharing(hs[h], incoming)]);
    assert t'.refs + none == t'.refs && t'.limbo + none == t'.limbo && t'.shared + none == t'.shared;
    assert Totals(hs).limbo + none == Totals(hs).limbo;
  }

  lemma SharedAccount(x: Holder, incoming: seq<nat>)
    requires HolderShape(x) && x.phase.Ready? && x.mapped == 0 && |incoming| <= |x.table|
    ensures var y := Sharing(x, incoming);
            AccountOf(y) == Account(AccountOf(x).refs + multiset(incoming), multiset{}, multiset(incoming))
            && Solo(x) == Solo(y) && HolderShape(y) && (CapacityHeld(x) ==> CapacityHeld(y))
    ensures AccountOf(x).refs == Solo(x) && AccountOf(x).limbo == AccountOf(x).shared == multiset{}
  {
    assert Sharing(x, incoming).table[..|incoming|] == incoming;
  }

  /** The sharer's own invariant, one conjunct at a time. */
  lemma SharerHolds(s: State, dst: nat, src: nat, pages: nat)
    requires Inv(s) && IsReady(s, dst) && IsReady(s, src) && dst != src && s.holders[dst].mapped == 0
    requires pages <= s.holders[src].mapped && HolderShape(s.holders[src]) && pages <= |s.holders[dst].table|
    ensures var hs' := s.holders[dst := Sharing(s.holders[dst], s.holders[src].table[..pages])];
            HolderInv(hs', dst, Totals(hs'))
  {
    SharerShape(s, dst, src, pages);
    SharerSolo(s, dst, src, pages);
    SharerServed(s, dst, src, pages);
  }

  lemma SharerShape(s: State, dst: nat, src: nat, pages: nat)
    requires Inv(s) && IsReady(s, dst) && IsReady(s, src) && dst != src && s.holders[dst].mapped == 0
    requires pages <= s.holders[src].mapped && HolderShape(s.holders[src]) && pages <= |s.holders[dst].table|
    ensures var y := Sharing(s.holders[dst], s.holders[src].table[..pages]);
            HolderShape(y) && CapacityHeld(y) && OncePerHolder(y)
  {
    assert HolderInv(s.holders, dst, Totals(s.holders));
    SharedAccount(s.holders[dst], s.holders[src].table[..pages]);
    IncomingIsCounted(s, src, pages);
  }

  lemma SharerSolo(s: State, dst: nat, src: nat, pages: nat)
    requires Inv(s) && IsReady(s, dst) && IsReady(s, src) && dst != src && s.holders[dst].mapped == 0
    requires pages <= s.holders[src].mapped && HolderShape(s.holders[src]) && pages <= |s.holders[dst].table|
    ensures var y := Sharing(s.holders[dst], s.holders[src].table[..pages]);
            SoloHeld(y, Totals(s.holders[dst := y]).refs)
  {
    var incoming := s.holders[src].table[..pages];
    assert HolderInv(s.holders, dst, Totals(s.holders));
    SharedAccount(s.holders[dst], incoming);
    IncomingIsCounted(s, src, pages);
    Shift(s.holders, dst, Sharing(s.holders[dst], incoming));
  }

  lemma SharerServed(s: State, dst: nat, src: nat, pages: nat)
    requires Inv(s) && IsReady(s, dst) && IsReady(s, src) && dst != src && s.holders[dst].mapped == 0
    requires pages <= s.holders[src].mapped && HolderShape(s.holders[src]) && pages <= |s.holders[dst].table|
    ensures ReaderServed(s.holders[dst := Sharing(s.holders[dst], s.holders[src].table[..pages])], dst)
  {
    assert HolderInv(s.holders, dst, Totals(s.holders));
  }

  lemma ShareOthersHold(s: State, dst: nat, src: nat, pages: nat)
    requires Inv(s) && IsReady(s, dst) && IsReady(s, src) && dst != src && s.holders[dst].mapped == 0
    requires pages <= s.holders[src].mapped && HolderShape(s.holders[src]) && pages <= |s.holders[dst].table|
    ensures OthersHold(s.holders[dst := Sharing(s.holders[dst], s.holders[src].table[..pages])], dst)
  {
    var incoming := s.holders[src].table[..pages];
    var y := Sharing(s.holders[dst], incoming);
    assert HolderInv(s.holders, dst, Totals(s.holders));
    SharedAccount(s.holders[dst], incoming);
    IncomingIsCounted(s, src, pages);
    Shift(s.holders, dst, y);
    EmptyServes(s, dst, y);
    OthersKeep(s.holders, s.holders[dst := y], dst, multiset(incoming));
  }

  lemma IncomingFits(s: State, src: nat, pages: nat)
    requires src < |s.holders| && Fits(s.pool, s.holders[src]) && pages <= s.holders[src].mapped
    ensures InPool(s.pool, s.holders[src].table[..pages])
  {
    var x := s.holders[src];
    forall i | 0 <= i < pages
      ensures x.table[..pages][i] < |s.pool.refcount|
    {
      assert x.table[..x.mapped][i] == x.table[i];
    }
  }

  /** Whoever reads from a holder with nothing mapped reads nothing. */
  lemma EmptyServes(s: State, h: nat, y: Holder)
    requires Inv(s) && IsReady(s, h) && s.holders[h].mapped == 0 && HolderShape(y) && y.phase.Ready?
    ensures Serves(s.holders, h, y)
  {
    forall k | 0 <= k < |s.holders| && k != h && ReadsFrom(s.holders[k], h)
      ensures Readable(y, s.holders[k].phase.op.incoming)
    {
      assert HolderInv(s.holders, k, Totals(s.holders));
    }
  }

  // Unmap

  function Unmapping(x: Holder, freed: seq<nat>): Holder
    requires |freed| <= |x.table|
  {
    x.(table := freed + x.table[|freed|..], phase := Busy(Unmap, freed, false))
  }

  lemma UnmapAccount(x: Holder, freed: seq<nat>)
    requires HolderShape(x) && x.phase.Ready? && |freed| <= PoolPath(x)
    ensures var y := Unmapping(x, freed);
            AccountOf(y) == Account(Private(x) + multiset(x.reserve), multiset(freed), multiset{})
                && Solo(y) == AccountOf(y).refs
            && (CapacityHeld(x) ==> CapacityHeld(y))
  {
    PrivateStays(x, freed, Unmapping(x, freed));
  }

  lemma PrivateStays(x: Holder, freed: seq<nat>, y: Holder)
    requires HolderShape(x) && |freed| <= PoolPath(x) && y == x.(table := freed + x.table[|freed|..], phase := y.phase)
    ensures HolderShape(y) && Private(y) == Private(x)
  {
    assert y.table[PoolPath(x)..y.mapped] == x.table[PoolPath(x)..x.mapped];
  }

  lemma Rotate(a: multiset<nat>, b: multiset<nat>, c: multiset<nat>)
    ensures a + b + c == b + c + a
  {}

  lemma TableSplits(x: Holder)
    requires HolderShape(x)
    ensures multiset(x.table[..x.mapped]) == multiset(x.table[..PoolPath(x)]) + Private(x)
  {
    var n := PoolPath(x);
    assert x.table[..x.mapped][..n] == x.table[..n] && x.table[..x.mapped][n..] == x.table[n..x.mapped];
    SplitAt(x.table[..x.mapped], n);
  }

  /** A counting-down section over entries that are all accounted for reports nothing and accounts for every page. */
  lemma DownThrough(pool: Pool, pages: seq<nat>, shared: nat, t: Account, t': Account)
    requires InPool(pool, pages) && Accounted(pool, t)
    requires multiset(pages) <= t.refs && multiset(Lead(pages, shared)) <= t.shared
    requires t'.refs + multiset(pages) == t.refs && t'.shared + multiset(Lead(pages, shared)) == t.shared
    requires t'.limbo == t.limbo + multiset(CountDown(pool, pages, shared).freed)
    ensures var d := CountDown(pool, pages, shared); d.status == Ok && Accounted(d.pool, t')
  {
    CountDownCounts(pool, pages, shared);
    forall p
      ensures t'.refs[p] + multiset(pages)[p] == t.refs[p]
    {
      assert (t'.refs + multiset(pages))[p] == t.refs[p];
    }
    forall p ensures t'.shared[p] + multiset(Lead(pages, shared))[p] == t.shared[p] {
      assert (t'.shared + multiset(Lead(pages, shared)))[p] == t.shared[p];
    }
    DownAccounts(pool, CountDown(pool, pages, shared), multiset(pages), multiset(Lead(pages, shared)), t, t');
  }

  /** The totals move by exactly what the one account moves by. */
  lemma TotalsMove(hs: seq<Holder>, h: nat, x: Holder, plus: Account, minus: Account)
    requires h < |hs| && Plus(AccountOf(x), minus) == Plus(AccountOf(hs[h]), plus)
    ensures Plus(Totals(hs[h := x]), minus) == Plus(Totals(hs), plus)
  {
    var t, t', a, a' := Totals(hs), Totals(hs[h := x]), AccountOf(hs[h]), AccountOf(x);
    TotalsUpdate(hs, h, x);
    CancelMiddle(t.refs, t'.refs, a.refs, a'.refs, plus.refs, minus.refs);
    CancelMiddle(t.limbo, t'.limbo, a.limbo, a'.limbo, plus.limbo, minus.limbo);
    CancelMiddle(t.shared, t'.shared, a.shared, a'.shared, plus.shared, minus.shared);
  }

  lemma CancelMiddle(t: multiset<nat>, t': multiset<nat>, a: multiset<nat>, a': multiset<nat>, plus: multiset<nat>,
                     minus: multiset<nat>)
    requires t' + a == t + a' && a' + minus == a + plus
    ensures t' + minus == t + plus
  {
    forall p ensures (t' + minus)[p] == (t + plus)[p] {
      assert (t' + a)[p] == (t + a')[p] && (a' + minus)[p] == (a + plus)[p];
    }
  }

  lemma UnmapKeeps(s: State, h: nat)
    requires Inv(s) && IsReady(s, h) && NotReadFrom(s, h) && PrivateUnshared(s, h) && Fits(s.pool, s.holders[h])
    ensures var r := UnmapBegin(s.pool, s.holders[h]); r.status == Ok && Inv(State(r.pool, s.holders[h := r.holder]))
  {
    var x := s.holders[h];
    LeadingInPool(s.pool, x, PoolPath(x));
    var d := CountDown(s.pool, x.table[..PoolPath(x)], x.shared);
    var s' := State(d.pool, s.holders[h := Unmapping(x, d.freed)]);
    UnmapAccounts(s, h);
    FreeStaysClean(s, d.pool);
    PendingStayClean(s, s', h);
    UnmapperHolds(s, h, d.freed);
    Assemble(s', h);
  }

  lemma UnmapAccounts(s: State, h: nat)
    requires Inv(s) && IsReady(s, h) && HolderShape(s.holders[h])
        && InPool(s.pool, s.holders[h].table[..PoolPath(s.holders[h])])
    ensures var x := s.holders[h];
            var d := CountDown(s.pool, x.table[..PoolPath(x)], x.shared);
            d.status == Ok && Accounted(d.pool, Totals(s.holders[h := Unmapping(x, d.freed)]))
  {
    var x := s.holders[h];
    var leading := x.table[..PoolPath(x)];
    var d := CountDown(s.pool, leading, x.shared);
    UnmapTotals(s.holders, h, d.freed);
    LeadingCounted(s, h);
    DownThrough(s.pool, leading, x.shared, Totals(s.holders), Totals(s.holders[h := Unmapping(x, d.freed)]));
  }

  lemma UnmapTotals(hs: seq<Holder>, h: nat, freed: seq<nat>)
    requires h < |hs| && HolderShape(hs[h]) && hs[h].phase.Ready? && |freed| <= PoolPath(hs[h])
    ensures var x := hs[h]; var leading := x.table[..PoolPath(x)]; var t' := Totals(hs[h := Unmapping(x, freed)]);
            Plus(t', Account(multiset(leading), multiset{}, multiset(Lead(leading, x.shared))))
            == Plus(Totals(hs), Account(multiset{}, multiset(freed), multiset{}))
  {
    var x := hs[h];
    var leading := x.table[..PoolPath(x)];
    UnmapAccount(x, freed);
    TableSplits(x);
    Rotate(multiset(leading), Private(x), multiset(x.reserve));
    assert Lead(leading, x.shared) == x.table[..x.shared];
    TotalsMove(hs, h, Unmapping(x, freed), Account(multiset{}, multiset(freed), multiset{}),
               Account(multiset(leading), multiset{}, multiset(Lead(leading, x.shared))));
  }

  lemma LeadingCounted(s: State, h: nat)
    requires Inv(s) && IsReady(s, h) && HolderShape(s.holders[h])
    ensures var x := s.holders[h]; var leading := x.table[..PoolPath(x)];
            multiset(leading) <= Totals(s.holders).refs && multiset(Lead(leading, x.shared)) <= Totals(s.holders).shared
  {
    var x := s.holders[h];
    assert Lead(x.table[..PoolPath(x)], x.shared) == x.table[..x.shared];
    TotalsHas(s.holders, h);
    TableSplits(x);
  }

  lemma UnmapperHolds(s: State, h: nat, freed: seq<nat>)
    requires Inv(s) && IsReady(s, h) && NotReadFrom(s, h) && PrivateUnshared(s, h) && HolderShape(s.holders[h])
    requires |freed| <= PoolPath(s.holders[h])
    ensures var hs' := s.holders[h := Unmapping(s.holders[h], freed)];
            HolderInv(hs', h, Totals(hs')) && OthersHold(hs', h)
  {
    var x := s.holders[h];
    var y := Unmapping(x, freed);
    assert HolderInv(s.holders, h, Totals(s.holders));
    UnmapAccount(x, freed);
    TableSplits(x);
    Shift(s.holders, h, y);
    TotalsHas(s.holders[h := y], h);
    PrivateCountsOne(s, h);
    OthersKeep(s.holders, s.holders[h := y], h, multiset{});
  }

  /** Under the caller's rule every page of the holder that no one else may name has count 1. */
  lemma PrivateCountsOne(s: State, h: nat)
    requires Inv(s) && IsReady(s, h) && PrivateUnshared(s, h) && HolderShape(s.holders[h])
    ensures forall p :: p in Private(s.holders[h]) ==> Totals(s.holders).refs[p] == 1
  {
    var x := s.holders[h];
    assert HolderInv(s.holders, h, Totals(s.holders));
    TableSplits(x);
    forall p | p in Private(x) ensures Totals(s.holders).refs[p] == 1 {
      PrivateEntry(x, p);
      Held(s.holders, h, p);
    }
  }

  lemma PrivateEntry(x: Holder, p: nat)
    requires HolderShape(x) && p in Private(x)
    ensures exists i :: PoolPath(x) <= i < x.mapped && x.table[i] == p
  {
    var n := PoolPath(x);
    var i :| 0 <= i < |x.table[n..x.mapped]| && x.table[n..x.mapped][i] == p;
    assert x.table[n + i] == p;
  }

  // Return and release

  /** Zeroing a reserve takes its references and sends its pages to limbo, with no report. */
  lemma ZeroAccounts(pool: Pool, reserve: seq<nat>, t: Account, t': Account)
    requires InPool(pool, reserve) && Accounted(pool, t)
    requires forall p :: p in multiset(reserve) ==> multiset(reserve)[p] == 1 && t.refs[p] == 1
    requires t'.refs + multiset(reserve) == t.refs && t'.limbo == t.limbo + multiset(reserve) && t'.shared == t.shared
    ensures var z := ZeroReserve(pool, reserve, 0, |reserve|);
            z.status == Ok && z.n == |reserve| && z.reserve == reserve && Accounted(z.pool, t')
  {
    assert reserve[0..] == reserve;
    forall j | 0 <= j < |reserve| ensures pool.refcount[reserve[j]] > 0 { assert reserve[j] in multiset(reserve); }
    forall j, k | 0 <= j < k < |reserve| ensures reserve[j] != reserve[k] { TwiceIn(reserve, j, k); }
    ZeroReserveZeroes(pool, reserve, 0);
    ZeroedAccounts(pool, reserve, t, t', ZeroReserve(pool, reserve, 0, |reserve|).pool);
  }

  lemma ZeroedAccounts(pool: Pool, reserve: seq<nat>, t: Account, t': Account, zeroed: Pool)
    requires InPool(pool, reserve) && Accounted(pool, t)
    requires forall p :: p in multiset(reserve) ==> multiset(reserve)[p] == 1 && t.refs[p] == 1
    requires t'.refs + multiset(reserve) == t.refs && t'.limbo == t.limbo + multiset(reserve) && t'.shared == t.shared
    requires zeroed == pool.(refcount := zeroed.refcount) && |zeroed.refcount| == |pool.refcount|
    requires forall p :: 0 <= p < |pool.refcount| ==>
               zeroed.refcount[p] == if p in multiset(reserve) then 0 else pool.refcount[p]
    ensures Accounted(zeroed, t')
  {
    assert forall p: nat :: t'.refs[p] + multiset(reserve)[p] == t.refs[p];
    forall p | p in t'.refs || p in t'.limbo || p in multiset(pool.freeList) ensures p < |pool.refcount| {
      if p in multiset(reserve) { var i :| 0 <= i < |reserve| && reserve[i] == p; }
      else { assert p in t.refs || p in t.limbo || p in multiset(pool.freeList); }
    }
  }

  lemma TwiceIn(s: seq<nat>, j: nat, k: nat)
    requires j < k < |s| && multiset(s)[s[j]] == 1
    ensures s[j] != s[k]
  {
    SplitAt(s, k);
    assert s[j] in multiset(s[..k]) by { assert s[..k][j] == s[j]; }
    assert s[k] in multiset(s[k..]) by { assert s[k..][0] == s[k]; }
  }

  /** A holder's reserve pages are distinct, with its one reference each, and not in its table. */
  lemma ReserveCountsOne(s: State, h: nat)
    requires Inv(s) && IsReady(s, h) && HolderShape(s.holders[h])
    ensures var x := s.holders[h];
            forall p :: p in multiset(x.reserve) ==>
              multiset(x.reserve)[p] == 1 && Totals(s.holders).refs[p] == 1 && p !in multiset(x.table[..x.mapped])
  {
    var x := s.holders[h];
    assert HolderInv(s.holders, h, Totals(s.holders));
    assert AccountOf(x).refs == multiset(x.table[..x.mapped]) + multiset(x.reserve);
    forall p | p in multiset(x.reserve)
      ensures multiset(x.reserve)[p] == 1 && Totals(s.holders).refs[p] == 1 && p !in multiset(x.table[..x.mapped])
    {
      assert p in Solo(x) && AccountOf(x).refs[p] <= 1;
    }
  }

  function Returning(x: Holder): Holder { x.(phase := Busy(Return, x.reserve, false)) }

  lemma ReturnKeeps(s: State, h: nat)
    requires Inv(s) && IsReady(s, h) && Fits(s.pool, s.holders[h])
    ensures var r := ReturnBegin(s.pool, s.holders[h]); r.status == Ok && Inv(State(r.pool, s.holders[h := r.holder]))
  {
    var x := s.holders[h];
    var z := ZeroReserve(s.pool, x.reserve, 0, |x.reserve|);
    var s' := State(z.pool, s.holders[h := Returning(x)]);
    ReturnAccounts(s, h);
    assert z.reserve[..z.n] == x.reserve;
    FreeStaysClean(s, z.pool);
    PendingStayClean(s, s', h);
    ReturnerHolds(s, h, Returning(x));
    Assemble(s', h);
  }

  lemma ReturnAccounts(s: State, h: nat)
    requires Inv(s) && IsReady(s, h) && Fits(s.pool, s.holders[h])
    ensures var x := s.holders[h];
            var z := ZeroReserve(s.pool, x.reserve, 0, |x.reserve|);
            z.status == Ok && z.n == |x.reserve| && z.reserve == x.reserve
            && Accounted(z.pool, Totals(s.holders[h := Returning(x)]))
  {
    var x := s.holders[h];
    var y := Returning(x);
    var t, t' := Totals(s.holders), Totals(s.holders[h := y]);
    ReserveCountsOne(s, h);
    assert AccountOf(x)
        == Account(multiset(x.table[..x.mapped]) + multiset(x.reserve), multiset{}, AccountOf(y).shared);
    assert AccountOf(y) == Account(multiset(x.table[..x.mapped]), multiset(x.reserve), AccountOf(y).shared);
    ReturnTotals(s.holders, h);
    ZeroAccounts(s.pool, x.reserve, t, t');
  }

  lemma ReturnTotals(hs: seq<Holder>, h: nat)
    requires h < |hs| && HolderShape(hs[h]) && hs[h].phase.Ready?
    ensures var t' := Totals(hs[h := Returning(hs[h])]); var reserve := multiset(hs[h].reserve);
            t'.refs + reserve == Totals(hs).refs && t'.limbo == Totals(hs).limbo + reserve
                && t'.shared == Totals(hs).shared
  {
    var none, reserve := multiset{}, multiset(hs[h].reserve);
    var t, t' := Totals(hs), Totals(hs[h := Returning(hs[h])]);
    var pages := multiset(hs[h].table[..hs[h].mapped]);
    assert pages + reserve == pages + reserve + none && reserve + none == none + reserve;
    TotalsMove(hs, h, Returning(hs[h]), Account(none, reserve, none), Account(reserve, none, none));
    assert t.refs + none == t.refs && t'.limbo + none == t'.limbo && t'.shared + none == t'.shared
        && t.shared + none == t.shared;
  }

  lemma ReturnerHolds(s: State, h: nat, y: Holder)
    requires Inv(s) && IsReady(s, h) && y == s.holders[h].(phase := Busy(Return, s.holders[h].reserve, false))
    ensures var hs' := s.holders[h := y]; HolderInv(hs', h, Totals(hs')) && OthersHold(hs', h)
  {
    var x := s.holders[h];
    assert HolderInv(s.holders, h, Totals(s.holders));
    Shift(s.holders, h, y);
    forall p ensures AccountOf(y).refs[p] <= AccountOf(x).refs[p] {}
    forall k | 0 <= k < |s.holders| && k != h && ReadsFrom(s.holders[k], h)
      ensures Readable(y, s.holders[k].phase.op.incoming)
    {
      assert HolderInv(s.holders, k, Totals(s.holders));
    }
    OthersKeep(s.holders, s.holders[h := y], h, multiset{});
  }

  function Releasing(x: Holder, freed: seq<nat>): Holder
    requires |freed| <= |x.table|
  {
    x.(table := freed + x.table[|freed|..], phase := Busy(Release, freed + x.reserve, false))
  }

  lemma ReleaseKeeps(s: State, h: nat)
    requires Inv(s) && IsReady(s, h) && NotReadFrom(s, h) && Fits(s.pool, s.holders[h])
    ensures var r := ReleaseBegin(s.pool, s.holders[h]); r.status == Ok && Inv(State(r.pool, s.holders[h := r.holder]))
  {
    var x := s.holders[h];
    var pages := x.table[..x.mapped];
    var d := CountDown(s.pool, pages, x.shared);
    var z := ZeroReserve(d.pool, x.reserve, 0, |x.reserve|);
    var y := Releasing(x, d.freed);
    var s' := State(z.pool, s.holders[h := y]);
    ReleaseAccounts(s, h);
    assert z.reserve[..z.n] == x.reserve;
    FreeStaysClean(s, z.pool);
    PendingStayClean(s, s', h);
    ReleaserHolds(s, h, d.freed);
    Assemble(s', h);
  }

  lemma ReleaseAccounts(s: State, h: nat)
    requires Inv(s) && IsReady(s, h) && Fits(s.pool, s.holders[h])
    ensures var x := s.holders[h];
            var d := CountDown(s.pool, x.table[..x.mapped], x.shared);
            var z := ZeroReserve(d.pool, x.reserve, 0, |x.reserve|);
            d.status == z.status == Ok && z.n == |x.reserve| && z.reserve == x.reserve
            && Accounted(z.pool, Totals(s.holders[h := Releasing(x, d.freed)]))
  {
    var x := s.holders[h];
    var pages := x.table[..x.mapped];
    var d := CountDown(s.pool, pages, x.shared);
    var t, t' := Totals(s.holders), Totals(s.holders[h := Releasing(x, d.freed)]);
    var t1 := Account(t.refs - multiset(pages), t.limbo + multiset(d.freed), t.shared - multiset(x.table[..x.shared]));
    MappedCounted(s, h);
    DownThrough(s.pool, pages, x.shared, t, t1);
    ReserveCountsOne(s, h);
    ReleaseTotals(s.holders, h, d.freed, t1);
    ZeroAccounts(d.pool, x.reserve, t1, t');
  }

  lemma MappedCounted(s: State, h: nat)
    requires Inv(s) && IsReady(s, h) && HolderShape(s.holders[h])
    ensures var x := s.holders[h]; var pages := x.table[..x.mapped];
            multiset(pages) <= Totals(s.holders).refs && multiset(Lead(pages, x.shared)) <= Totals(s.holders).shared
            && Lead(pages, x.shared) == x.table[..x.shared]
  {
    var x := s.holders[h];
    assert Lead(x.table[..x.mapped], x.shared) == x.table[..x.shared];
    TotalsHas(s.holders, h);
  }

  lemma ReleaseTotals(hs: seq<Holder>, h: nat, freed: seq<nat>, t1: Account)
    requires h < |hs| && HolderShape(hs[h]) && hs[h].phase.Ready? && |freed| <= |hs[h].table|
    requires var x := hs[h];
             t1 == Account(Totals(hs).refs - multiset(x.table[..x.mapped]), Totals(hs).limbo + multiset(freed),
                           Totals(hs).shared - multiset(x.table[..x.shared]))
    ensures var x := hs[h]; var t' := Totals(hs[h := Releasing(x, freed)]);
            t'.refs + multiset(x.reserve) == t1.refs && t'.limbo == t1.limbo + multiset(x.reserve)
                && t'.shared == t1.shared
  {
    var x := hs[h];
    var t, t', none := Totals(hs), Totals(hs[h := Releasing(x, freed)]), multiset{};
    var pages, reserve, lead := multiset(x.table[..x.mapped]), multiset(x.reserve), multiset(x.table[..x.shared]);
    TotalsHas(hs, h);
    ReleaseAccount(x, freed);
    ReleaseBalance(multiset(freed), pages, reserve, lead);
    TotalsMove(hs, h, Releasing(x, freed), Account(none, multiset(freed) + reserve, none),
        Account(pages + reserve, none, lead));
    TakeAway(t.refs, t'.refs, pages, reserve);
    assert lead + none == lead;
    TakeAway(t.shared, t'.shared, lead, none);
    LimboGrows(t.limbo, t'.limbo, multiset(freed), reserve);
    assert t'.shared + none == t'.shared;
  }

  lemma ReleaseBalance(freed: multiset<nat>, pages: multiset<nat>, reserve: multiset<nat>, lead: multiset<nat>)
    ensures var none: multiset<nat> := multiset{};
            Plus(Account(none, freed + reserve, none), Account(pages + reserve, none, lead))
            == Plus(Account(pages + reserve, none, lead), Account(none, freed + reserve, none))
    ensures lead + multiset{} == lead
  {}

  lemma LimboGrows(t: multiset<nat>, t': multiset<nat>, freed: multiset<nat>, reserve: multiset<nat>)
    requires t' + multiset{} == t + (freed + reserve)
    ensures t' == t + freed + reserve
  {
    assert t' + multiset{} == t';
  }

  lemma TakeAway(t: multiset<nat>, t': multiset<nat>, a: multiset<nat>, b: multiset<nat>)
    requires t' + (a + b) == t + multiset{}
    ensures t' + b == t - a
  {
    forall p ensures (t' + b)[p] == (t - a)[p] { assert (t' + (a + b))[p] == (t + multiset{})[p]; }
  }

  lemma ReleaseAccount(x: Holder, freed: seq<nat>)
    requires HolderShape(x) && |freed| <= |x.table|
    ensures AccountOf(Releasing(x, freed)) == Account(multiset{}, multiset(freed) + multiset(x.reserve), multiset{})
  {
    assert multiset(freed + x.reserve) == multiset(freed) + multiset(x.reserve);
  }

  lemma ReleaserHolds(s: State, h: nat, freed: seq<nat>)
    requires Inv(s) && IsReady(s, h) && NotReadFrom(s, h) && HolderShape(s.holders[h])
        && |freed| <= |s.holders[h].table|
    ensures var hs' := s.holders[h := Releasing(s.holders[h], freed)];
            HolderInv(hs', h, Totals(hs')) && OthersHold(hs', h)
  {
    var y := Releasing(s.holders[h], freed);
    ReleaseAccount(s.holders[h], freed);
    Shift(s.holders, h, y);
    OthersKeep(s.holders, s.holders[h := y], h, multiset{});
  }

  // Adopt

  function Adopting(x: Holder, freed: seq<nat>, src: nat, incoming: seq<nat>): Holder
    requires |freed| <= |x.table|
  {
    x.(table := freed + x.table[|freed|..], phase := Busy(Adopt(src, incoming), freed, false))
  }

  lemma AdoptAccount(x: Holder, freed: seq<nat>, src: nat, incoming: seq<nat>)
    requires HolderShape(x) && x.phase.Ready? && |freed| <= PoolPath(x)
    ensures var y := Adopting(x, freed, src, incoming);
            AccountOf(y)
                == Account(Private(x) + multiset(x.reserve) + multiset(incoming), multiset(freed), multiset(incoming))
            && Solo(y) == Private(x) + multiset(x.reserve) && (CapacityHeld(x) ==> CapacityHeld(y)) && HolderShape(y)
  {
    PrivateStays(x, freed, Adopting(x, freed, src, incoming));
  }

  lemma AdoptAccounts(s: State, dst: nat, src: nat, pages: nat)
    requires Inv(s) && IsReady(s, dst) && IsReady(s, src) && dst != src && BothFit(s, dst, src)
    requires pages <= s.holders[src].mapped && pages <= |s.holders[dst].table|
    requires InPool(s.pool, s.holders[src].table[..pages])
        && CheckShareable(s.pool, s.holders[src].table[..pages]) == Ok
    requires InPool(s.pool, s.holders[dst].table[..PoolPath(s.holders[dst])])
    ensures var x := s.holders[dst];
            var incoming := s.holders[src].table[..pages];
            var d := CountDown(CountUp(s.pool, incoming), x.table[..PoolPath(x)], x.shared);
            d.status == Ok && Accounted(d.pool, Totals(s.holders[dst := Adopting(x, d.freed, src, incoming)]))
  {
    var x := s.holders[dst];
    var incoming, leading := s.holders[src].table[..pages], x.table[..PoolPath(x)];
    var up := CountUp(s.pool, incoming);
    var d := CountDown(up, leading, x.shared);
    var y := Adopting(x, d.freed, src, incoming);
    var t, t' := Totals(s.holders), Totals(s.holders[dst := y]);
    var t1 := Account(t.refs + multiset(incoming), t.limbo, t.shared + multiset(incoming));
    IncomingIsCounted(s, src, pages);
    UpAccounts(s.pool, incoming, t, t1);
    LeadingCounted(s, dst);
    AdoptTotals(s.holders, dst, d.freed, src, incoming);
    DownThrough(up, leading, x.shared, t1, t');
  }

  lemma AdoptTotals(hs: seq<Holder>, h: nat, freed: seq<nat>, src: nat, incoming: seq<nat>)
    requires h < |hs| && HolderShape(hs[h]) && hs[h].phase.Ready? && |freed| <= PoolPath(hs[h])
    ensures var x := hs[h]; var leading := x.table[..PoolPath(x)];
            var t' := Totals(hs[h := Adopting(x, freed, src, incoming)]);
            Plus(t', Account(multiset(leading), multiset{}, multiset(Lead(leading, x.shared))))
            == Plus(Totals(hs), Account(multiset(incoming), multiset(freed), multiset(incoming)))
  {
    var x := hs[h];
    var leading := x.table[..PoolPath(x)];
    AdoptAccount(x, freed, src, incoming);
    TableSplits(x);
    RotateTwo(multiset(leading), Private(x), multiset(x.reserve), multiset(incoming));
    assert Lead(leading, x.shared) == x.table[..x.shared];
    TotalsMove(hs, h, Adopting(x, freed, src, incoming),
        Account(multiset(incoming), multiset(freed), multiset(incoming)),
               Account(multiset(leading), multiset{}, multiset(Lead(leading, x.shared))));
  }

  lemma RotateTwo(a: multiset<nat>, b: multiset<nat>, c: multiset<nat>, d: multiset<nat>)
    ensures b + c + d + a == a + b + c + d && d + a == a + d
  {}

  lemma AdopterHolds(s: State, dst: nat, src: nat, pages: nat, freed: seq<nat>)
    requires Inv(s) && IsReady(s, dst) && IsReady(s, src) && dst != src && BothFit(s, dst, src)
        && PrivateUnshared(s, dst)
    requires pages <= s.holders[src].mapped && pages <= |s.holders[dst].table| && |freed| <= PoolPath(s.holders[dst])
    ensures var hs' := s.holders[dst := Adopting(s.holders[dst], freed, src, s.holders[src].table[..pages])];
            HolderInv(hs', dst, Totals(hs'))
  {
    var x := s.holders[dst];
    var incoming := s.holders[src].table[..pages];
    var y := Adopting(x, freed, src, incoming);
    assert HolderInv(s.holders, dst, Totals(s.holders));
    AdoptAccount(x, freed, src, incoming);
    AdopterAlone(s, dst, src, pages);
    AdoptGrows(s.holders, dst, freed, src, incoming);
    TotalsHas(s.holders[dst := y], dst);
  }

  lemma AdoptGrows(hs: seq<Holder>, h: nat, freed: seq<nat>, src: nat, incoming: seq<nat>)
    requires h < |hs| && HolderShape(hs[h]) && hs[h].phase.Ready? && |freed| <= PoolPath(hs[h])
    ensures forall p ::
        Totals(hs[h := Adopting(hs[h], freed, src, incoming)]).refs[p] <= Totals(hs).refs[p] + multiset(incoming)[p]
  {
    AdoptAccount(hs[h], freed, src, incoming);
    TableSplits(hs[h]);
    Shift(hs, h, Adopting(hs[h], freed, src, incoming));
  }

  lemma AdoptOthersHold(s: State, dst: nat, src: nat, pages: nat, freed: seq<nat>)
    requires Inv(s) && IsReady(s, dst) && IsReady(s, src) && dst != src && BothFit(s, dst, src) && NotReadFrom(s, dst)
    requires pages <= s.holders[src].mapped && pages <= |s.holders[dst].table| && |freed| <= PoolPath(s.holders[dst])
    ensures OthersHold(s.holders[dst := Adopting(s.holders[dst], freed, src, s.holders[src].table[..pages])], dst)
  {
    var incoming := s.holders[src].table[..pages];
    AdoptGrows(s.holders, dst, freed, src, incoming);
    IncomingIsCounted(s, src, pages);
    OthersKeep(s.holders, s.holders[dst := Adopting(s.holders[dst], freed, src, incoming)], dst, multiset(incoming));
  }

  /** The pages an adopter keeps to itself are counted once and are not among those it adopts. */
  lemma AdopterAlone(s: State, dst: nat, src: nat, pages: nat)
    requires Inv(s) && IsReady(s, dst) && IsReady(s, src) && dst != src && BothFit(s, dst, src)
    requires PrivateUnshared(s, dst) && pages <= s.holders[src].mapped
    ensures var x, inc := s.holders[dst], multiset(s.holders[src].table[..pages]);
            (forall p :: p in inc ==> inc[p] == 1 && p !in Private(x) && p !in multiset(x.reserve))
            && (forall p :: p in Private(x) || p in multiset(x.reserve) ==>
                  (Private(x) + multiset(x.reserve))[p] == 1 && Totals(s.holders).refs[p] == 1)
  {
    var x, inc := s.holders[dst], multiset(s.holders[src].table[..pages]);
    assert HolderInv(s.holders, dst, Totals(s.holders));
    TableSplits(x);
    IncomingIsCounted(s, src, pages);
    PrivateCountsOne(s, dst);
    assert Solo(x) == multiset(x.reserve);
    assert forall p :: p in Private(x) || p in multiset(x.reserve) ==> p in AccountOf(x).refs;
  }

  lemma AdoptKeeps(s: State, dst: nat, src: nat, pages: nat)
    requires Inv(s) && IsReady(s, dst) && IsReady(s, src) && dst != src && BothFit(s, dst, src)
    requires NotReadFrom(s, dst) && PrivateUnshared(s, dst)
    requires pages <= s.holders[src].mapped && pages <= |s.holders[dst].table|
    requires CheckShareable(s.pool, s.holders[src].table[..pages]) == Ok
    ensures var r := AdoptBegin(s.pool, s.holders[dst], s.holders[src], src, pages);
            r.status == Ok && Inv(State(r.pool, s.holders[dst := r.holder]))
  {
    var x := s.holders[dst];
    var incoming := s.holders[src].table[..pages];
    IncomingFits(s, src, pages);
    LeadingInPool(s.pool, x, PoolPath(x));
    var d := CountDown(CountUp(s.pool, incoming), x.table[..PoolPath(x)], x.shared);
    var y := Adopting(x, d.freed, src, incoming);
    var s' := State(d.pool, s.holders[dst := y]);
    AdoptAccounts(s, dst, src, pages);
    FreeStaysClean(s, d.pool);
    PendingStayClean(s, s', dst);
    AdopterHolds(s, dst, src, pages, d.freed);
    AdoptOthersHold(s, dst, src, pages, d.freed);
    Assemble(s', dst);
  }

  // Tail rollback, fill, push, end

  lemma DropTailAccount(x: Holder, keep: nat)
    requires HolderShape(x) && x.phase.Ready?
    ensures AccountOf(UnmapTail(x, keep)) == AccountOf(x)
  {
    var floor := Max(x.shared + x.materialized, keep);
    if floor >= x.mapped {
      assert UnmapTail(x, keep) == x;
    } else {
      assert UnmapTail(x, keep) == DropTo(x, floor);
      DroppedAccount(x, floor);
    }
  }

  lemma DroppedAccount(x: Holder, floor: nat)
    requires HolderShape(x) && x.phase.Ready? && x.shared + x.materialized <= floor < x.mapped
    ensures AccountOf(DropTo(x, floor)) == AccountOf(x)
  {
    TailMoves(x.table, floor, x.mapped, x.reserve);
  }

  lemma TailMoves(s: seq<nat>, i: nat, j: nat, r: seq<nat>)
    requires i <= j <= |s|
    ensures multiset(s[..i]) + multiset(r + Reversed(s[i..j])) == multiset(s[..j]) + multiset(r)
  {
    assert s[..j] == s[..i] + s[i..j];
    ReversedPermutes(s[i..j]);
    SwapLast(multiset(s[..i]), multiset(r), multiset(s[i..j]));
  }

  lemma SwapLast(a: multiset<nat>, b: multiset<nat>, c: multiset<nat>)
    ensures a + (b + c) == a + c + b
  {}

  lemma DropTailShape(x: Holder, keep: nat)
    requires HolderShape(x)
    ensures var y := UnmapTail(x, keep);
            HolderShape(y) && PoolPath(y) == PoolPath(x) && (CapacityHeld(x) ==> CapacityHeld(y))
            && y.phase == x.phase && PoolPath(x) <= y.mapped <= x.mapped && y.table == x.table
  {}

  lemma DropTailSolo(x: Holder, keep: nat)
    requires HolderShape(x) && x.phase.Ready?
    ensures multiset(UnmapTail(x, keep).reserve) <= multiset(x.reserve) + Private(x)
  {
    var floor := Max(x.shared + x.materialized, keep);
    if floor < x.mapped {
      assert UnmapTail(x, keep).reserve == x.reserve + Reversed(x.table[floor..x.mapped]);
      TailSplits(x.table, PoolPath(x), floor, x.mapped);
      AppendReversed(x.reserve, x.table[floor..x.mapped]);
    }
  }

  lemma AppendReversed(a: seq<nat>, b: seq<nat>)
    ensures multiset(a + Reversed(b)) == multiset(a) + multiset(b)
  {
    ReversedPermutes(b);
  }

  lemma TailSplits(s: seq<nat>, i: nat, j: nat, k: nat)
    requires i <= j <= k <= |s|
    ensures multiset(s[i..k]) == multiset(s[i..j]) + multiset(s[j..k]) && s[0..k] == s[..k] && s[0..j] == s[..j]
  {
    assert s[i..k] == s[i..j] + s[j..k];
  }

  lemma DropTailKeeps(s: State, h: nat, keep: nat)
    requires Inv(s) && IsReady(s, h) && PrivateUnshared(s, h) && HolderShape(s.holders[h])
    ensures Inv(State(s.pool, s.holders[h := UnmapTail(s.holders[h], keep)]))
  {
    var x := s.holders[h];
    var y := UnmapTail(x, keep);
    assert HolderInv(s.holders, h, Totals(s.holders));
    DropTailAccount(x, keep);
    DropTailShape(x, keep);
    DropTailSolo(x, keep);
    PrivateCountsOne(s, h);
    DropTailServes(s, h, keep);
    MoveKeeps(s, h, s.pool, y);
  }

  /** A page that an adopt is reading has a second reference, so it is not in the tail the rule lets go. */
  lemma DropTailServes(s: State, h: nat, keep: nat)
    requires Inv(s) && IsReady(s, h) && PrivateUnshared(s, h) && HolderShape(s.holders[h])
    ensures Serves(s.holders, h, UnmapTail(s.holders[h], keep))
  {
    var x := s.holders[h];
    var y := UnmapTail(x, keep);
    DropTailShape(x, keep);
    forall k | 0 <= k < |s.holders| && k != h && ReadsFrom(s.holders[k], h)
      ensures Readable(y, s.holders[k].phase.op.incoming)
    {
      assert HolderInv(s.holders, k, Totals(s.holders));
      if |s.holders[k].phase.op.incoming| > y.mapped { ReadPageIsShared(s, h, k, y.mapped); }
    }
  }

  /** A private page that an adopt is reading has a second reference. */
  lemma ReadPageIsShared(s: State, h: nat, k: nat, i: nat)
    requires Inv(s) && IsReady(s, h) && HolderShape(s.holders[h]) && k < |s.holders| && k != h
        && ReadsFrom(s.holders[k], h)
    requires PoolPath(s.holders[h]) <= i < |s.holders[k].phase.op.incoming|
    ensures !PrivateUnshared(s, h)
  {
    var x, incoming := s.holders[h], s.holders[k].phase.op.incoming;
    assert HolderInv(s.holders, k, Totals(s.holders));
    var p := x.table[i];
    assert p in AccountOf(s.holders[k]).refs by { assert incoming[i] == p && p in multiset(incoming); }
    PrivateNamed(x, i);
    SharedByTwo(s.holders, h, k, p);
  }

  lemma PrivateNamed(x: Holder, i: nat)
    requires HolderShape(x) && x.phase.Ready? && PoolPath(x) <= i < x.mapped
    ensures x.table[i] in Private(x) && x.table[i] in AccountOf(x).refs
  {
    assert x.table[PoolPath(x)..x.mapped][i - PoolPath(x)] == x.table[i];
    assert x.table[..x.mapped][i] == x.table[i];
  }

  lemma FillKeeps(s: State, h: nat)
    requires Inv(s) && Allowed(s, Fill(h))
    ensures Inv(FillStep(s, h).state)
  {
    var x := s.holders[h];
    var y := x.(phase := x.phase.(filled := true));
    assert HolderInv(s.holders, h, Totals(s.holders));
    FilledAccount(x);
    SamePhaseHolds(s.holders, h, y, Totals(s.holders), Totals(s.holders));
    PhaseServes(s, h, y);
    MoveKeeps(s, h, Clean(s.pool, x.phase.pending), y);
  }

  lemma FilledAccount(x: Holder)
    requires HolderShape(x) && x.phase.Busy?
    ensures var y := x.(phase := x.phase.(filled := true)); AccountOf(y) == AccountOf(x) && Solo(y) == Solo(x)
  {
    match x.phase.op
    case Unmap =>
    case Adopt(_, _) =>
    case Release =>
    case Return =>
  }

  lemma PushKeeps(s: State, h: nat)
    requires Inv(s) && Allowed(s, Push(h))
    ensures Inv(PushStep(s, h).state)
  {
    var x := s.holders[h];
    var pending := x.phase.pending;
    var s' := State(PushFree(s.pool, pending), s.holders[h := Pushed(x)]);
    assert HolderInv(s.holders, h, Totals(s.holders));
    PushTotals(s.holders, h);
    PushAccounts(s.pool, pending, Totals(s.holders), Totals(s'.holders));
    PushedClean(s, h);
    PushedHolds(s, h);
    PushOthersHold(s, h);
    Assemble(s', h);
  }

  lemma PushedClean(s: State, h: nat)
    requires Inv(s) && Allowed(s, Push(h))
    ensures FreeIsClean(State(PushFree(s.pool, s.holders[h].phase.pending), s.holders[h := Pushed(s.holders[h])]))
  {
    var s' := State(PushFree(s.pool, s.holders[h].phase.pending), s.holders[h := Pushed(s.holders[h])]);
    assert AllClean(s.pool, s.holders[h].phase.pending);
    PendingStayClean(s, s', h);
  }

  function Pushed(x: Holder): Holder
    requires x.phase.Busy?
  {
    x.(phase := x.phase.(pending := []))
  }

  lemma PushedAccount(x: Holder)
    requires HolderShape(x) && x.phase.Busy?
    ensures AccountOf(x).limbo == multiset(x.phase.pending)
        && AccountOf(Pushed(x)) == AccountOf(x).(limbo := multiset{})
    ensures Solo(Pushed(x)) == Solo(x)
  {
    assert multiset(Pushed(x).phase.pending) == multiset{};
    match x.phase.op
    case Unmap =>
    case Adopt(_, _) =>
    case Release =>
    case Return =>
  }

  lemma PushTotals(hs: seq<Holder>, h: nat)
    requires h < |hs| && HolderShape(hs[h]) && hs[h].phase.Busy?
    ensures var t' := Totals(hs[h := Pushed(hs[h])]);
            Totals(hs) == t'.(limbo := t'.limbo + multiset(hs[h].phase.pending))
  {
    var none, pending := multiset{}, multiset(hs[h].phase.pending);
    var t' := Totals(hs[h := Pushed(hs[h])]);
    PushedAccount(hs[h]);
    TotalsMove(hs, h, Pushed(hs[h]), Account(none, none, none), Account(none, pending, none));
    assert t'.refs + none == t'.refs && t'.shared + none == t'.shared;
    assert Totals(hs).refs + none == Totals(hs).refs && Totals(hs).shared + none == Totals(hs).shared
           && Totals(hs).limbo + none == Totals(hs).limbo;
  }

  lemma PushAccounts(pool: Pool, pending: seq<nat>, t: Account, t': Account)
    requires Accounted(pool, t) && t == t'.(limbo := t'.limbo + multiset(pending))
    ensures Accounted(PushFree(pool, pending), t')
  {
    var free := multiset(pool.freeList + pending);
    assert free == multiset(pool.freeList) + multiset(pending);
    forall p | p in t'.refs || p in t'.limbo || p in free ensures p < |pool.refcount| {
      assert p in t.refs || p in t.limbo || p in multiset(pool.freeList);
    }
  }

  lemma PushedHolds(s: State, h: nat)
    requires Inv(s) && Allowed(s, Push(h)) && HolderShape(s.holders[h])
    ensures var hs' := s.holders[h := Pushed(s.holders[h])]; HolderInv(hs', h, Totals(hs'))
  {
    var x := s.holders[h];
    assert HolderInv(s.holders, h, Totals(s.holders));
    PushTotals(s.holders, h);
    PushedAccount(x);
    assert Totals(s.holders[h := Pushed(x)]).refs == Totals(s.holders).refs;
    SamePhaseHolds(s.holders, h, Pushed(x), Totals(s.holders), Totals(s.holders[h := Pushed(x)]));
  }

  /** A holder that moves on within its verb, with the same references, keeps its conditions. */
  lemma SamePhaseHolds(hs: seq<Holder>, h: nat, y: Holder, t: Account, t': Account)
    requires h < |hs| && HolderInv(hs, h, t) && t'.refs == t.refs
    requires hs[h].phase.Busy? && y == hs[h].(phase := y.phase) && y.phase.Busy? && y.phase.op == hs[h].phase.op
    requires AccountOf(y).refs == AccountOf(hs[h]).refs && Solo(y) == Solo(hs[h])
    ensures HolderInv(hs[h := y], h, t')
  {}

  lemma PushOthersHold(s: State, h: nat)
    requires Inv(s) && Allowed(s, Push(h)) && HolderShape(s.holders[h])
    ensures OthersHold(s.holders[h := Pushed(s.holders[h])], h)
  {
    PushTotals(s.holders, h);
    PhaseServes(s, h, Pushed(s.holders[h]));
    OthersKeep(s.holders, s.holders[h := Pushed(s.holders[h])], h, multiset{});
  }

  /** A holder that keeps its table and its kind of verb serves its readers as before. */
  lemma PhaseServes(s: State, h: nat, y: Holder)
    requires Inv(s) && h < |s.holders| && s.holders[h].phase.Busy? && y.phase.Busy?
        && y.phase.op == s.holders[h].phase.op
    requires y.(phase := s.holders[h].phase) == s.holders[h]
    ensures Serves(s.holders, h, y)
  {
    forall k | 0 <= k < |s.holders| && k != h && ReadsFrom(s.holders[k], h)
      ensures Readable(y, s.holders[k].phase.op.incoming)
    {
      assert HolderInv(s.holders, k, Totals(s.holders));
    }
  }

  lemma FinishAccount(x: Holder, srcTable: seq<nat>)
    requires HolderShape(x) && x.phase.Busy? && x.phase.pending == []
    requires x.phase.op.Adopt? ==> |x.phase.op.incoming| <= |x.table| && x.phase.op.incoming <= srcTable
    ensures AccountOf(Finish(x, srcTable)) == AccountOf(x) && Solo(Finish(x, srcTable)) <= Solo(x)
  {
    assert multiset(x.phase.pending) == multiset{};
    if x.phase.op.Unmap? {
      UnmappedAccount(x);
    } else if x.phase.op.Adopt? {
      AdoptedAccount(x, srcTable);
    }
  }

  lemma FinishShape(x: Holder, srcTable: seq<nat>)
    requires HolderShape(x) && x.phase.Busy?
    requires x.phase.op.Adopt? ==> |x.phase.op.incoming| <= |x.table| && x.phase.op.incoming <= srcTable
    ensures var y := Finish(x, srcTable);
            HolderShape(y) && (CapacityHeld(x) ==> CapacityHeld(y)) && !y.phase.Busy?
                && (x.phase.op.Return? ==> y.table == x.table && y.mapped == x.mapped && y.phase.Ready?)
  {}

  lemma UnmappedAccount(x: Holder)
    requires HolderShape(x) && x.phase.Busy? && x.phase.op.Unmap? && x.phase.pending == []
    ensures AccountOf(Finish(x, [])) == AccountOf(x) && Solo(Finish(x, [])) == Solo(x)
  {
    ReversedPermutes(x.table[PoolPath(x)..x.mapped]);
    assert Finish(x, []).table[..0] == [];
  }

  lemma AdoptedAccount(x: Holder, srcTable: seq<nat>)
    requires HolderShape(x) && x.phase.Busy? && x.phase.pending == [] && x.phase.op.Adopt?
    requires |x.phase.op.incoming| <= |x.table| && x.phase.op.incoming <= srcTable
    ensures AccountOf(Finish(x, srcTable)) == AccountOf(x) && Solo(Finish(x, srcTable)) == Solo(x)
  {
    var y := Finish(x, srcTable);
    var incoming := x.phase.op.incoming;
    assert y.table[..|incoming|] == incoming;
    AdoptedReserve(x, srcTable);
    Rotate(Private(x), multiset(x.reserve), multiset(incoming));
  }

  lemma AdoptedReserve(x: Holder, srcTable: seq<nat>)
    requires HolderShape(x) && x.phase.Busy? && x.phase.pending == [] && x.phase.op.Adopt?
    requires |x.phase.op.incoming| <= |x.table| && x.phase.op.incoming <= srcTable
    ensures multiset(Finish(x, srcTable).reserve) == multiset(x.reserve) + Private(x)
  {
    ReversedPermutes(x.table[PoolPath(x)..x.mapped]);
  }

  lemma EndKeeps(s: State, h: nat)
    requires Inv(s) && Allowed(s, End(h)) && HolderShape(s.holders[h]) && ReaderServed(s.holders, h)
    ensures Inv(EndStep(s, h).state)
  {
    var x := s.holders[h];
    var srcTable := if x.phase.op.Adopt? then s.holders[x.phase.op.src].table else [];
    var y := Finish(x, srcTable);
    assert HolderInv(s.holders, h, Totals(s.holders));
    FinishAccount(x, srcTable);
    FinishShape(x, srcTable);
    forall k | 0 <= k < |s.holders| && k != h && ReadsFrom(s.holders[k], h)
      ensures Readable(y, s.holders[k].phase.op.incoming)
    {
      assert HolderInv(s.holders, k, Totals(s.holders));
    }
    MoveKeeps(s, h, s.pool, y);
  }

  // Create

  lemma CreateKeeps(s: State, table: seq<nat>, reservePages: nat)
    requires Inv(s) && InPool(s.pool, s.pool.freeList) && reservePages <= |s.pool.freeList|
    ensures var d := Draw(s.pool, reservePages);
            Inv(State(d.pool, s.holders + [Holder(table, 0, 0, 0, d.reserve, reservePages, Ready)]))
  {
    var d := Draw(s.pool, reservePages);
    var x := Holder(table, 0, 0, 0, d.reserve, reservePages, Ready);
    var hs' := s.holders + [x];
    var t, t' := Totals(s.holders), Totals(hs');
    DrawnPages(s, reservePages);
    TotalsCreated(s.holders, x);
    DrawAccounts(s.pool, reservePages, t);
    CreatedHold(s, x, t');
    CreatedClean(s, reservePages, x);
  }

  lemma TotalsCreated(hs: seq<Holder>, x: Holder)
    requires x.phase.Ready? && x.mapped == x.shared == x.materialized == 0
    ensures Totals(hs + [x]) == Account(Totals(hs).refs + multiset(x.reserve), Totals(hs).limbo, Totals(hs).shared)
  {
    assert x.table[..0] == [];
    assert AccountOf(x) == Account(multiset(x.reserve), multiset{}, multiset{});
    TotalsAppend(hs, x);
    assert Totals(hs).limbo + multiset{} == Totals(hs).limbo && Totals(hs).shared + multiset{} == Totals(hs).shared;
  }

  lemma CreatedClean(s: State, n: nat, x: Holder)
    requires Inv(s) && InPool(s.pool, s.pool.freeList) && n <= |s.pool.freeList| && x.phase.Ready?
    ensures FreeIsClean(State(Draw(s.pool, n).pool, s.holders + [x]))
  {
    var hs' := s.holders + [x];
    forall k | 0 <= k < |hs'| && hs'[k].phase.Busy? && hs'[k].phase.filled
      ensures AllClean(Draw(s.pool, n).pool, hs'[k].phase.pending)
    {
      assert hs'[k] == s.holders[k];
    }
  }

  /** Drawn pages are distinct, free before the draw, and referenced by nobody. */
  lemma DrawnPages(s: State, n: nat)
    requires Inv(s) && InPool(s.pool, s.pool.freeList) && n <= |s.pool.freeList|
    ensures var drawn := multiset(Draw(s.pool, n).reserve);
            forall p :: p in drawn ==> p < |s.pool.refcount| && drawn[p] == 1 && Totals(s.holders).refs[p] == 0
  {
    DrawSplits(s.pool, n);
    var drawn, free := multiset(Draw(s.pool, n).reserve), multiset(s.pool.freeList);
    forall p | p in drawn ensures p < |s.pool.refcount| && drawn[p] == 1 && Totals(s.holders).refs[p] == 0 {
      assert free[p] >= drawn[p];
    }
  }

  lemma DrawAccounts(pool: Pool, n: nat, t: Account)
    requires Accounted(pool, t) && InPool(pool, pool.freeList) && n <= |pool.freeList|
    ensures var d := Draw(pool, n); Accounted(d.pool, Account(t.refs + multiset(d.reserve), t.limbo, t.shared))
  {
    var d := Draw(pool, n);
    var t' := Account(t.refs + multiset(d.reserve), t.limbo, t.shared);
    DrawSplits(pool, n);
    DrawSetsOne(pool, n);
    MoveAccounts(pool, d.pool, multiset(d.reserve), t, t');
    assert SharesAccounted(d.pool, t');
  }

  /** Pages moved from the free list with one reference each are accounted for. */
  lemma MoveAccounts(pool: Pool, pool': Pool, drawn: multiset<nat>, t: Account, t': Account)
    requires PagesAccounted(pool, t) && WellFormed(pool') && |pool'.refcount| == |pool.refcount|
    requires t' == t.(refs := t.refs + drawn)
    requires multiset(pool'.freeList) + drawn == multiset(pool.freeList)
    requires forall p :: 0 <= p < |pool.refcount| ==> pool'.refcount[p] == if p in drawn then 1 else pool.refcount[p]
    ensures PagesAccounted(pool', t')
  {
    assert forall p: nat :: multiset(pool'.freeList)[p] + drawn[p] == multiset(pool.freeList)[p];
    forall p | p in t'.refs || p in t'.limbo || p in multiset(pool'.freeList) ensures p < |pool.refcount| {
      assert p in t.refs || p in t.limbo || p in multiset(pool.freeList);
    }
  }

  lemma DrawSplits(pool: Pool, n: nat)
    requires InPool(pool, pool.freeList) && n <= |pool.freeList|
    ensures var d := Draw(pool, n); multiset(d.pool.freeList) + multiset(d.reserve) == multiset(pool.freeList)
  {
    var d, cut := Draw(pool, n), |pool.freeList| - n;
    assert d.pool.freeList == pool.freeList[..cut];
    DrawMoves(pool, n);
    CutReversed(pool.freeList, cut);
  }

  lemma CutReversed(s: seq<nat>, cut: nat)
    requires cut <= |s|
    ensures multiset(s[..cut]) + multiset(Reversed(s[cut..])) == multiset(s)
  {
    ReversedPermutes(s[cut..]);
    SplitAt(s, cut);
  }

  lemma CreatedHold(s: State, x: Holder, t': Account)
    requires Inv(s) && x.phase.Ready? && x.mapped == x.shared == x.materialized == 0 && |x.reserve| <= x.cap
    requires forall p :: p in multiset(x.reserve) ==> multiset(x.reserve)[p] == 1 && Totals(s.holders).refs[p] == 0
    requires t'.refs == Totals(s.holders).refs + multiset(x.reserve)
    ensures var hs' := s.holders + [x]; forall k :: 0 <= k < |hs'| ==> HolderInv(hs', k, t')
  {
    var hs' := s.holders + [x];
    assert x.table[..0] == [];
    forall k | 0 <= k < |hs'| ensures HolderInv(hs', k, t') {
      if k < |s.holders| {
        assert HolderInv(s.holders, k, Totals(s.holders)) && hs'[k] == s.holders[k];
        forall p | p in Solo(hs'[k]) ensures t'.refs[p] == 1 { assert Totals(s.holders).refs[p] == 1; }
      }
    }
  }
}
