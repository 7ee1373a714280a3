/** The reference parallel-for of docs/parallel_for_reference.hpp lines 64-118, as a state machine.

One step is one mutex section, one `fetch_add`, or one return of a task. The caller is participant 0 and
the workers are participants 1 .. |pcs| - 1. `run_mutex_` serialises callers, so at most one job record is
live; its stack address is chosen anew at every dispatch and may repeat. A step that reads a record which
is no longer live is a `Fault`.

Some fields of a record steer nothing and only remember what happened: `dispatch` numbers the dispatches
without wrapping, `claimed` counts the indices handed out, `over` and `joined` are the participants that
fetched past the end and that took the record, `started` and `finished` count task invocations. */
module ParallelFor {
  import opened Arith
  import opened Wrappers

  datatype Job = Job(addr: int, dispatch: nat)

  datatype Pc =
    | Idle
    | Claiming(job: Job)
    | Running(job: Job, index: int)
    | Drained(job: Job)
    | Withdrawn(job: Job, asleep: bool)
    | Stopped

  datatype Record = Record(
    addr: int, taskCount: I32, generation: U64, next: I32, participants: int,
    dispatch: nat, claimed: nat, over: set<nat>, joined: set<nat>,
    started: multiset<int>, finished: multiset<int>)

  datatype Report = Report(taskCount: I32, started: multiset<int>, finished: multiset<int>)

  datatype State = State(
    pcs: seq<Pc>, seen: seq<U64>, current: Option<int>, generation: U64, stop: bool,
    record: Option<Record>, dispatches: nat, returned: seq<Report>)

  datatype Action =
    | Dispatch(addr: int, taskCount: I32)
    | Join(worker: nat)
    | Claim(who: nat)
    | Finish(who: nat)
    | Withdraw
    | Wake
    | Recheck
    | Leave(worker: nat)
    | Stop

  datatype Outcome = Next(state: State) | Fault

  function Init(workers: nat): State {
    State(seq(workers + 1, _ => Idle), seq(workers + 1, _ => 0), None, 0, false, None, 0, [])
  }

  predicate Live(s: State, addr: int) { s.record.Some? && s.record.value.addr == addr }

  predicate HoldsJob(pc: Pc) { pc.Claiming? || pc.Running? || pc.Drained? }

  predicate IsWorker(s: State, w: nat) { 1 <= w < |s.pcs| == |s.seen| }

  /** Whether the thread is at the program point of the action, and its wait, if any, may end. */
  predicate Enabled(s: State, a: Action)
    requires |s.pcs| >= 1 && |s.seen| == |s.pcs|
  {
    match a
    case Dispatch(addr, _) => s.pcs[0].Idle?
    case Join(w) => IsWorker(s, w) && s.pcs[w].Idle? && (s.stop || s.current.Some?)
    case Claim(p) => p < |s.pcs| && s.pcs[p].Claiming?
    case Finish(p) => p < |s.pcs| && s.pcs[p].Running?
    case Withdraw => s.pcs[0].Drained?
    case Wake => s.pcs[0].Withdrawn? && s.pcs[0].asleep
    case Recheck => s.pcs[0].Withdrawn? && !s.pcs[0].asleep
    case Leave(w) => IsWorker(s, w) && s.pcs[w].Drained?
    case Stop => true
  }

  function Step(s: State, a: Action): Outcome
    requires |s.pcs| >= 1 && |s.seen| == |s.pcs| && Enabled(s, a)
  {
    match a
    case Dispatch(addr, taskCount) =>
      var g := (s.generation + 1) % 0x1_0000_0000_0000_0000;
      var r := Record(addr, taskCount, g, 0, 1, s.dispatches, 0, {}, {}, multiset{}, multiset{});
      Next(s.(pcs := s.pcs[0 := Claiming(Job(addr, s.dispatches))], current := Some(addr), generation := g,
              record := Some(r), dispatches := s.dispatches + 1))
    case Join(w) =>
      if s.stop then Next(s.(pcs := s.pcs[w := Stopped]))
      else if !Live(s, s.current.value) then Fault
      else
        var r := s.record.value;
        if r.generation == s.seen[w] then Next(s)
        else Next(s.(pcs := s.pcs[w := Claiming(Job(r.addr, r.dispatch))], seen := s.seen[w := r.generation],
                     record := Some(r.(participants := r.participants + 1, joined := r.joined + {w}))))
    case Claim(p) =>
      var job := s.pcs[p].job;
      if !Live(s, job.addr) then Fault
      else
        var r := s.record.value;
        var r' := r.(next := WrapI32(r.next + 1));
        if r.next < r.taskCount then
          Next(s.(pcs := s.pcs[p := Running(job, r.next)],
                  record := Some(r'.(claimed := r.claimed + 1, started := r.started + multiset{r.next}))))
        else
          Next(s.(pcs := s.pcs[p := Drained(job)], record := Some(r'.(over := r.over + {p}))))
    case Finish(p) =>
      var job := s.pcs[p].job;
      if !Live(s, job.addr) then Fault
      else
        var r := s.record.value;
        Next(s.(pcs := s.pcs[p := Claiming(job)],
                record := Some(r.(finished := r.finished + multiset{s.pcs[p].index}))))
    case Withdraw =>
      var job := s.pcs[0].job;
      if !Live(s, job.addr) then Fault
      else
        var r := s.record.value.(participants := s.record.value.participants - 1);
        AfterWait(s.(current := None, record := Some(r)), job)
    case Wake => Next(s.(pcs := s.pcs[0 := Withdrawn(s.pcs[0].job, false)]))
    case Recheck =>
      if !Live(s, s.pcs[0].job.addr) then Fault else AfterWait(s, s.pcs[0].job)
    case Leave(w) =>
      if !Live(s, s.pcs[w].job.addr) then Fault
      else
        var r := s.record.value.(participants := s.record.value.participants - 1);
        var pcs := s.pcs[w := Idle];
        var notified := r.participants == 0 && pcs[0].Withdrawn?;
        Next(s.(pcs := if notified then pcs[0 := Withdrawn(pcs[0].job, false)] else pcs, record := Some(r)))
    case Stop => Next(s.(stop := true))
  }

  /** The caller's wait on the released condition: return when no participant is left, else sleep. */
  function AfterWait(s: State, job: Job): Outcome
    requires |s.pcs| >= 1 && s.record.Some?
  {
    var r := s.record.value;
    if r.participants == 0 then
      Next(s.(pcs := s.pcs[0 := Idle], record := None,
              returned := s.returned + [Report(r.taskCount, r.started, r.finished)]))
    else Next(s.(pcs := s.pcs[0 := Withdrawn(job, true)]))
  }

  // ----- The invariant

  /** The workers that hold a job. */
  function Joiners(pcs: seq<Pc>): set<nat> { set w | 1 <= w < |pcs| && HoldsJob(pcs[w]) }

  function Total(taskCount: int): nat { Max(0, taskCount) }

  predicate Runs(pcs: seq<Pc>, p: nat, i: int) { p < |pcs| && pcs[p].Running? && pcs[p].index == i }

  ghost predicate SomeoneRuns(pcs: seq<Pc>, i: int) { exists p: nat :: Runs(pcs, p, i) }

  /** Every index below `claimed` started once, and is finished exactly when nobody runs it any more. */
  ghost predicate TasksAccounted(pcs: seq<Pc>, r: Record) {
    && (forall i :: r.started[i] == if 0 <= i < r.claimed then 1 else 0)
    && (forall i :: r.finished[i] == if 0 <= i < r.claimed && !SomeoneRuns(pcs, i) then 1 else 0)
    && (forall p: nat, q: nat, i: int :: Runs(pcs, p, i) && Runs(pcs, q, i) ==> p == q)
    && (forall p: nat, i: int :: Runs(pcs, p, i) ==> 0 <= i < r.claimed)
  }

  predicate CallerInside(pc: Pc) { HoldsJob(pc) }

  ghost predicate RecordInv(s: State, r: Record)
    requires |s.pcs| >= 1 && |s.seen| == |s.pcs|
  {
    var job := Job(r.addr, r.dispatch);
    && r.dispatch + 1 == s.dispatches
    && (HoldsJob(s.pcs[0]) || s.pcs[0].Withdrawn?) && s.pcs[0].job == job
    && (forall w :: 1 <= w < |s.pcs| && HoldsJob(s.pcs[w]) ==> s.pcs[w].job == job && w in r.joined)
    && (forall w :: w in r.joined ==> 1 <= w < |s.pcs| && s.seen[w] == r.generation)
    && r.participants == |Joiners(s.pcs)| + (if CallerInside(s.pcs[0]) then 1 else 0)
    && (if CallerInside(s.pcs[0]) then s.current == Some(r.addr) else s.current == None)
    && CounterFits(|s.pcs| - 1, r.taskCount)
    && (forall p :: p in r.over ==>
        p < |s.pcs| && !s.pcs[p].Claiming? && !s.pcs[p].Running? && (p == 0 || p in r.joined))
    && (s.pcs[0].Withdrawn? && s.pcs[0].asleep ==> r.participants > 0)
    && (forall p :: 0 <= p < |s.pcs| && s.pcs[p].Drained? ==> p in r.over)
    && (s.pcs[0].Withdrawn? ==> 0 in r.over)
    && r.claimed <= Total(r.taskCount)
    && (r.over != {} ==> r.claimed == Total(r.taskCount))
    && r.next == WrapI32(r.claimed + |r.over|)
    && TasksAccounted(s.pcs, r)
  }

  /** A report of a dispatch that ran every index of [0, taskCount) once, to its end, and no other. */
  ghost predicate Complete(d: Report) {
    forall i :: d.started[i] == d.finished[i] == if 0 <= i < d.taskCount then 1 else 0
  }

  ghost predicate Inv(s: State) {
    && |s.pcs| >= 1 && |s.seen| == |s.pcs|
    && (forall w :: 1 <= w < |s.pcs| ==> !s.pcs[w].Withdrawn?)
    && (s.record.Some? ==> RecordInv(s, s.record.value))
    && (s.record.None? ==> s.current.None? && (forall p :: 0 <= p < |s.pcs| ==> s.pcs[p].Idle? || s.pcs[p].Stopped?))
    && (forall d :: d in s.returned ==> Complete(d))
  }

  /** The index counter is an int32: with this room above the task count it never wraps into a claim. */
  predicate CounterFits(workers: nat, taskCount: int) { Total(taskCount) + workers < 0x8000_0000 }

  predicate Admitted(s: State, a: Action) {
    |s.pcs| >= 1 && (a.Dispatch? ==> CounterFits(|s.pcs| - 1, a.taskCount))
  }

  // ----- Every step keeps it

  lemma SetBound(s: set<nat>, n: nat)
    requires forall p :: p in s ==> p < n
    ensures |s| <= n
  {
    if n == 0 { assert s == {}; }
    else { SetBound(s - {n - 1}, n - 1); }
  }

  lemma JoinersUpdate(pcs: seq<Pc>, w: nat, pc: Pc)
    requires 1 <= w < |pcs|
    ensures |Joiners(pcs[w := pc])|
         == |Joiners(pcs)| + (if HoldsJob(pc) then 1 else 0) - (if HoldsJob(pcs[w]) then 1 else 0)
  {
    var pcs' := pcs[w := pc];
    assert Joiners(pcs') - {w} == Joiners(pcs) - {w};
    WithoutOne(Joiners(pcs), w);
    WithoutOne(Joiners(pcs'), w);
  }

  lemma WithoutOne(s: set<nat>, w: nat)
    ensures |s| == |s - {w}| + if w in s then 1 else 0
  {
    if w in s { assert s == (s - {w}) + {w}; } else { assert s - {w} == s; }
  }

  lemma JoinersOfCaller(pcs: seq<Pc>, pc: Pc)
    requires |pcs| >= 1
    ensures Joiners(pcs[0 := pc]) == Joiners(pcs)
  {}

  /** A step that starts and ends no run keeps the tasks' account. */
  lemma TasksUnmoved(pcs: seq<Pc>, pcs': seq<Pc>, r: Record, r': Record)
    requires TasksAccounted(pcs, r)
    requires forall q: nat, i: int :: Runs(pcs', q, i) <==> Runs(pcs, q, i)
    requires r'.started == r.started && r'.finished == r.finished && r'.claimed == r.claimed
    ensures TasksAccounted(pcs', r')
  {
    forall i ensures SomeoneRuns(pcs', i) <==> SomeoneRuns(pcs, i) {
      if p: nat :| Runs(pcs', p, i) { assert Runs(pcs, p, i); }
      if p: nat :| Runs(pcs, p, i) { assert Runs(pcs', p, i); }
    }
  }

  lemma KeepsDispatch(s: State, addr: int, taskCount: I32)
    requires Inv(s) && s.pcs[0].Idle? && CounterFits(|s.pcs| - 1, taskCount)
    ensures Inv(Step(s, Dispatch(addr, taskCount)).state)
  {
    var s' := Step(s, Dispatch(addr, taskCount)).state;
    assert Joiners(s'.pcs) == {};
    assert forall i :: !SomeoneRuns(s'.pcs, i);
  }

  lemma KeepsJoin(s: State, w: nat)
    requires Inv(s) && Enabled(s, Join(w))
    ensures Step(s, Join(w)).Next? && Inv(Step(s, Join(w)).state)
  {
    var s' := Step(s, Join(w)).state;
    JoinersUpdate(s.pcs, w, s'.pcs[w]);
    if s.record.Some? { TasksUnmoved(s.pcs, s'.pcs, s.record.value, s'.record.value); }
  }

  /** The counter has not wrapped when a participant fetches from it. */
  lemma FetchIsExact(s: State, p: nat)
    requires Inv(s) && Enabled(s, Claim(p))
    ensures s.record.Some? && Live(s, s.pcs[p].job.addr)
    ensures var r := s.record.value;
            r.next == r.claimed + |r.over| && p !in r.over && |r.over| <= |s.pcs| - 1
            && (r.next < r.taskCount <==> r.claimed < Total(r.taskCount))
            && (r.next < r.taskCount ==> r.over == {})
  {
    var r := s.record.value;
    SetBound(r.over + {p}, |s.pcs|);
    assert |r.over + {p}| == |r.over| + 1;
    Wrap32(r.claimed + |r.over|);
  }

  lemma Wrap32(x: int)
    requires 0 <= x < 0x8000_0000
    ensures WrapI32(x) == x
  {}

  lemma KeepsClaim(s: State, p: nat)
    requires Inv(s) && Enabled(s, Claim(p))
    ensures Step(s, Claim(p)).Next? && Inv(Step(s, Claim(p)).state)
  {
    FetchIsExact(s, p);
    if s.record.value.next < s.record.value.taskCount { KeepsClaimOfIndex(s, p); } else { KeepsPastEnd(s, p); }
  }

  lemma KeepsClaimOfIndex(s: State, p: nat)
    requires Inv(s) && Enabled(s, Claim(p)) && s.record.Some? && Live(s, s.pcs[p].job.addr)
    requires s.record.value.next < s.record.value.taskCount
    ensures Step(s, Claim(p)).Next? && Inv(Step(s, Claim(p)).state)
  {
    FetchIsExact(s, p);
    ClaimKeepsTasks(s, p);
    var s' := Step(s, Claim(p)).state;
    if p == 0 { JoinersOfCaller(s.pcs, s'.pcs[0]); } else { JoinersUpdate(s.pcs, p, s'.pcs[p]); }
  }

  lemma KeepsPastEnd(s: State, p: nat)
    requires Inv(s) && Enabled(s, Claim(p)) && s.record.Some? && Live(s, s.pcs[p].job.addr)
    requires s.record.value.next >= s.record.value.taskCount
    ensures Step(s, Claim(p)).Next? && Inv(Step(s, Claim(p)).state)
  {
    FetchIsExact(s, p);
    PastEndKeepsTasks(s, p);
    var s' := Step(s, Claim(p)).state;
    var r, r' := s.record.value, s'.record.value;
    assert |r'.over| == |r.over| + 1;
    if p == 0 { JoinersOfCaller(s.pcs, s'.pcs[0]); } else { JoinersUpdate(s.pcs, p, s'.pcs[p]); }
    assert RecordInv(s', r');
  }

  lemma ClaimKeepsTasks(s: State, p: nat)
    requires Inv(s) && Enabled(s, Claim(p)) && s.record.Some? && Live(s, s.pcs[p].job.addr)
    requires s.record.value.next < s.record.value.taskCount && s.record.value.next == s.record.value.claimed
    ensures var s' := Step(s, Claim(p)).state; s'.record.Some? && TasksAccounted(s'.pcs, s'.record.value)
  {
    var s' := Step(s, Claim(p)).state;
    var r := s.record.value;
    assert Runs(s'.pcs, p, r.next);
    assert forall q: nat, i: int :: q != p ==> (Runs(s'.pcs, q, i) <==> Runs(s.pcs, q, i));
    assert forall i :: i != r.next ==> (SomeoneRuns(s'.pcs, i) <==> SomeoneRuns(s.pcs, i));
  }

  lemma PastEndKeepsTasks(s: State, p: nat)
    requires Inv(s) && Enabled(s, Claim(p)) && s.record.Some? && Live(s, s.pcs[p].job.addr)
    requires s.record.value.next >= s.record.value.taskCount
    ensures var s' := Step(s, Claim(p)).state; s'.record.Some? && TasksAccounted(s'.pcs, s'.record.value)
  {
    var s' := Step(s, Claim(p)).state;
    TasksUnmoved(s.pcs, s'.pcs, s.record.value, s'.record.value);
  }

  lemma KeepsFinish(s: State, p: nat)
    requires Inv(s) && Enabled(s, Finish(p))
    ensures Step(s, Finish(p)).Next? && Inv(Step(s, Finish(p)).state)
  {
    FinishKeepsTasks(s, p);
    var s' := Step(s, Finish(p)).state;
    if p == 0 { JoinersOfCaller(s.pcs, s'.pcs[0]); } else { JoinersUpdate(s.pcs, p, s'.pcs[p]); }
  }

  lemma FinishKeepsTasks(s: State, p: nat)
    requires Inv(s) && Enabled(s, Finish(p))
    ensures s.record.Some? && Live(s, s.pcs[p].job.addr)
    ensures var s' := Step(s, Finish(p)).state; s'.record.Some? && TasksAccounted(s'.pcs, s'.record.value)
  {
    var s' := Step(s, Finish(p)).state;
    var k := s.pcs[p].index;
    assert Runs(s.pcs, p, k);
    assert forall q: nat, i: int :: q != p ==> (Runs(s'.pcs, q, i) <==> Runs(s.pcs, q, i));
    assert !SomeoneRuns(s'.pcs, k);
    assert forall i :: i != k ==> (SomeoneRuns(s'.pcs, i) <==> SomeoneRuns(s.pcs, i));
  }

  /** Once nobody holds the record, the dispatch it served is complete. */
  lemma CompleteAtReturn(s: State)
    requires Inv(s) && s.record.Some? && s.pcs[0].Withdrawn? && s.record.value.participants == 0
    ensures var r := s.record.value; Complete(Report(r.taskCount, r.started, r.finished))
    ensures forall p :: 1 <= p < |s.pcs| ==> s.pcs[p].Idle? || s.pcs[p].Stopped?
  {
    assert Joiners(s.pcs) == {};
    assert forall w :: 1 <= w < |s.pcs| && HoldsJob(s.pcs[w]) ==> w in Joiners(s.pcs);
    assert forall i :: !SomeoneRuns(s.pcs, i);
  }

  lemma KeepsWithdraw(s: State)
    requires Inv(s) && Enabled(s, Withdraw)
    ensures Step(s, Withdraw).Next? && Inv(Step(s, Withdraw).state)
  {
    var r := s.record.value;
    var job := s.pcs[0].job;
    var mid := s.(current := None, pcs := s.pcs[0 := Withdrawn(job, false)],
                  record := Some(r.(participants := r.participants - 1)));
    WithdrawnKeeps(s, mid);
    KeepsRecheck(mid);
    assert Step(s, Withdraw).state == Step(mid, Recheck).state;
  }

  lemma WithdrawnKeeps(s: State, mid: State)
    requires Inv(s) && Enabled(s, Withdraw)
    requires mid == s.(current := None, pcs := s.pcs[0 := Withdrawn(s.pcs[0].job, false)],
                       record := Some(s.record.value.(participants := s.record.value.participants - 1)))
    ensures Inv(mid)
  {
    JoinersOfCaller(s.pcs, mid.pcs[0]);
    TasksUnmoved(s.pcs, mid.pcs, s.record.value, mid.record.value);
  }

  lemma KeepsRecheck(s: State)
    requires Inv(s) && Enabled(s, Recheck)
    ensures Step(s, Recheck).Next? && Inv(Step(s, Recheck).state)
  {
    var s' := Step(s, Recheck).state;
    JoinersOfCaller(s.pcs, s'.pcs[0]);
    if s'.record.Some? { TasksUnmoved(s.pcs, s'.pcs, s.record.value, s'.record.value); }
    if s.record.value.participants == 0 { CompleteAtReturn(s); }
  }

  lemma KeepsWake(s: State)
    requires Inv(s) && Enabled(s, Wake)
    ensures Inv(Step(s, Wake).state)
  {
    var s' := Step(s, Wake).state;
    JoinersOfCaller(s.pcs, s'.pcs[0]);
    assert forall q: nat, i: int :: Runs(s'.pcs, q, i) <==> Runs(s.pcs, q, i);
    assert forall i :: SomeoneRuns(s'.pcs, i) <==> SomeoneRuns(s.pcs, i);
  }

  lemma KeepsLeave(s: State, w: nat)
    requires Inv(s) && Enabled(s, Leave(w))
    ensures Step(s, Leave(w)).Next? && Inv(Step(s, Leave(w)).state)
  {
    var s' := Step(s, Leave(w)).state;
    JoinersUpdate(s.pcs, w, Idle);
    JoinersOfCaller(s.pcs[w := Idle], s'.pcs[0]);
    assert s.pcs[w := Idle][0 := s'.pcs[0]] == s'.pcs;
    assert forall q: nat, i: int :: Runs(s'.pcs, q, i) <==> Runs(s.pcs, q, i);
    assert forall i :: SomeoneRuns(s'.pcs, i) <==> SomeoneRuns(s.pcs, i);
  }

  /** No step faults and every step keeps the invariant. */
  lemma StepKeeps(s: State, a: Action)
    requires Inv(s) && Enabled(s, a) && Admitted(s, a)
    ensures Step(s, a).Next? && Inv(Step(s, a).state)
  {
    match a
    case Dispatch(addr, taskCount) => KeepsDispatch(s, addr, taskCount);
    case Join(w) => KeepsJoin(s, w);
    case Claim(p) => KeepsClaim(s, p);
    case Finish(p) => KeepsFinish(s, p);
    case Withdraw => KeepsWithdraw(s);
    case Wake => KeepsWake(s);
    case Recheck => KeepsRecheck(s);
    case Leave(w) => KeepsLeave(s, w);
    case Stop =>
  }

  // ----- Whole runs

  /** Runs the actions in order; a fault or a disabled action ends the run without a state. */
  ghost function Run(s: State, actions: seq<Action>): (r: Option<State>)
    decreases |actions|
  {
    if actions == [] then Some(s)
    else if |s.pcs| >= 1 && |s.seen| == |s.pcs| && Enabled(s, actions[0]) then
      match Step(s, actions[0]) case Next(s') => Run(s', actions[1..]) case Fault => None
    else None
  }

  ghost predicate AllAdmitted(workers: nat, actions: seq<Action>) {
    forall a :: a in actions && a.Dispatch? ==> CounterFits(workers, a.taskCount)
  }

  lemma StepKeepsWorkers(s: State, a: Action)
    requires |s.pcs| >= 1 && |s.seen| == |s.pcs| && Enabled(s, a) && Step(s, a).Next?
    ensures |Step(s, a).state.pcs| == |s.pcs| == |Step(s, a).state.seen|
  {}

  lemma {:induction false} RunKeeps(s: State, actions: seq<Action>)
    requires Inv(s) && AllAdmitted(|s.pcs| - 1, actions)
    ensures Run(s, actions).Some? ==> Inv(Run(s, actions).value) && |Run(s, actions).value.pcs| == |s.pcs|
    decreases |actions|
  {
    if actions != [] && Enabled(s, actions[0]) {
      StepKeeps(s, actions[0]);
      StepKeepsWorkers(s, actions[0]);
      RunKeeps(Step(s, actions[0]).state, actions[1..]);
    }
  }

  /** Safety of every run: every dispatch that has returned ran each index of its range exactly once, to the end;
      and whatever is enabled next reads only the live record. */
  lemma EveryRunIsSafe(workers: nat, actions: seq<Action>, a: Action)
    requires AllAdmitted(workers, actions + [a]) && Run(Init(workers), actions).Some?
    ensures var s := Run(Init(workers), actions).value;
            |s.pcs| == |s.seen| == workers + 1
            && (forall d :: d in s.returned ==> Complete(d))
            && (Enabled(s, a) ==> Step(s, a).Next?)
  {
    assert a in actions + [a];
    assert forall x :: x in actions ==> x in actions + [a];
    RunKeeps(Init(workers), actions);
    var s := Run(Init(workers), actions).value;
    if Enabled(s, a) { StepKeeps(s, a); }
  }

  /** A participant's pointer always names the record of the dispatch it joined, even when a later dispatch
      reuses the stack address; and once that dispatch has returned no worker holds a pointer at all. */
  lemma PointersAreCurrent(workers: nat, actions: seq<Action>, p: nat)
    requires AllAdmitted(workers, actions) && Run(Init(workers), actions).Some?
    requires p <= workers
    ensures var s := Run(Init(workers), actions).value;
            |s.pcs| == workers + 1
            && (HoldsJob(s.pcs[p]) ==>
                  s.record.Some? && s.pcs[p].job == Job(s.record.value.addr, s.record.value.dispatch))
            && (s.record.None? ==> !HoldsJob(s.pcs[p]))
  {
    RunKeeps(Init(workers), actions);
  }

  /** A worker that has joined a dispatch does not join it again. */
  lemma JoinsAtMostOnce(s: State, w: nat)
    requires Inv(s) && Enabled(s, Join(w)) && !s.stop
    requires Step(s, Join(w)).state != s
    ensures s.record.Some? && w !in s.record.value.joined && w in Step(s, Join(w)).state.record.value.joined
  {}

  /** After withdrawal nobody joins, so the participant count only falls. */
  lemma NoJoinAfterWithdrawal(s: State, a: Action)
    requires Inv(s) && s.pcs[0].Withdrawn? && Enabled(s, a) && Admitted(s, a)
    ensures Step(s, a).Next?
    ensures var s' := Step(s, a).state;
            s.record.Some?
            && (s'.record.None? ==> s.record.value.participants == 0)
            && (s'.record.Some? ==> s'.record.value.participants <= s.record.value.participants)
  {
    StepKeeps(s, a);
  }

  /** No wake-up is lost: while the caller sleeps, some worker holds the record and can take a step. */
  lemma SleepingCallerIsAwaited(s: State)
    requires Inv(s) && s.pcs[0].Withdrawn? && s.pcs[0].asleep
    ensures exists w :: w in Joiners(s.pcs)
                        && (Enabled(s, Claim(w)) || Enabled(s, Finish(w)) || Enabled(s, Leave(w)))
  {
    assert |Joiners(s.pcs)| > 0;
    var w :| w in Joiners(s.pcs);
  }

  // ----- Why the counter's room is needed

  ghost predicate Reaches(workers: nat, s: State) {
    exists actions :: Run(Init(workers), actions) == Some(s)
  }

  lemma {:induction false} RunAppend(s: State, actions: seq<Action>, a: Action)
    requires Run(s, actions).Some?
    ensures Run(s, actions + [a]) == Run(Run(s, actions).value, [a])
    decreases |actions|
  {
    if actions == [] {
      assert [] + [a] == [a];
    } else {
      assert (actions + [a])[1..] == actions[1..] + [a];
      RunAppend(Step(s, actions[0]).state, actions[1..], a);
    }
  }

  lemma ReachesNext(workers: nat, s: State, a: Action)
    requires Reaches(workers, s)
    requires |s.pcs| >= 1 && |s.seen| == |s.pcs| && Enabled(s, a) && Step(s, a).Next?
    ensures Reaches(workers, Step(s, a).state)
  {
    var actions :| Run(Init(workers), actions) == Some(s);
    RunAppend(Init(workers), actions, a);
    assert [a][1..] == [];
  }

  /** A dispatch in which `joined` workers have joined and participants 0 .. over - 1 have fetched past the end. */
  predicate Partway(s: State, workers: nat, taskCount: int, joined: nat, fetches: nat, over: nat) {
    && |s.pcs| == |s.seen| == workers + 1 && !s.stop && s.current == Some(0) && s.generation == 1
    && s.record.Some? && s.record.value.addr == 0 && s.record.value.taskCount == taskCount
    && s.record.value.generation == 1 && s.record.value.next == WrapI32(fetches)
    && forall p :: 0 <= p <= workers ==>
         (p < over ==> s.pcs[p].Drained? && s.pcs[p].job.addr == 0)
         && (over <= p <= joined ==> s.pcs[p].Claiming? && s.pcs[p].job.addr == 0)
         && (joined < p ==> s.pcs[p].Idle? && s.seen[p] == 0)
  }

  lemma {:induction false} AllJoin(workers: nat, taskCount: I32, joined: nat) returns (s: State)
    requires joined <= workers
    ensures Reaches(workers, s) && Partway(s, workers, taskCount, joined, 0, 0)
  {
    if joined == 0 {
      assert Run(Init(workers), []) == Some(Init(workers));
      s := Step(Init(workers), Dispatch(0, taskCount)).state;
      ReachesNext(workers, Init(workers), Dispatch(0, taskCount));
    } else {
      var t := AllJoin(workers, taskCount, joined - 1);
      ReachesNext(workers, t, Join(joined));
      s := Step(t, Join(joined)).state;
    }
  }

  lemma {:induction false} CallerRunsAll(workers: nat, taskCount: I32, k: nat) returns (s: State)
    requires k <= taskCount
    ensures Reaches(workers, s) && Partway(s, workers, taskCount, workers, k, 0)
  {
    if k == 0 {
      s := AllJoin(workers, taskCount, workers);
    } else {
      var t := CallerRunsAll(workers, taskCount, k - 1);
      Wrap32(k - 1);
      ReachesNext(workers, t, Claim(0));
      var u := Step(t, Claim(0)).state;
      ReachesNext(workers, u, Finish(0));
      s := Step(u, Finish(0)).state;
    }
  }

  lemma {:induction false} FetchPastEnd(workers: nat, taskCount: I32, over: nat) returns (s: State)
    requires taskCount >= 0 && over <= workers && taskCount + over <= 0x8000_0000
    ensures Reaches(workers, s) && Partway(s, workers, taskCount, workers, taskCount + over, over)
  {
    if over == 0 {
      s := CallerRunsAll(workers, taskCount, taskCount);
    } else {
      var t := FetchPastEnd(workers, taskCount, over - 1);
      Wrap32(taskCount + over - 1);
      ReachesNext(workers, t, Claim(over - 1));
      s := Step(t, Claim(over - 1)).state;
    }
  }

  /** Without that room the protocol breaks: once the counter has reached 2^31 the next fetch reads a negative
      index, and a worker runs a task that does not exist. So `CounterFits` is exactly what keeps every run safe. */
  lemma CounterWrapRunsBadIndex(workers: nat, taskCount: I32)
    requires taskCount >= 0 && !CounterFits(workers, taskCount)
    ensures exists s: State, p: nat :: Reaches(workers, s) && Runs(s.pcs, p, -0x8000_0000)
  {
    var over := 0x8000_0000 - taskCount;
    var t := FetchPastEnd(workers, taskCount, over);
    ReachesNext(workers, t, Claim(over));
    var s := Step(t, Claim(over)).state;
    assert WrapI32(0x8000_0000) == -0x8000_0000;
    assert Reaches(workers, s) && Runs(s.pcs, over, -0x8000_0000);
  }
}
