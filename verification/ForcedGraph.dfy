/** The functional step graph of the forced-table builder: cycle clearing and chain lengths
(src/forced_table.h lines 143-180). `step[s]` is a byte or -1, `succ[s]` the state it leads to. */
module ForcedGraph {
  import opened FiniteSets

  /** `k` steps along the successors. */
  function Iter(succ: seq<nat>, s: nat, k: nat): (t: nat)
    requires InRange(succ) && s < |succ|
    ensures t < |succ|
  {
    if k == 0 then s else succ[Iter(succ, s, k - 1)]
  }

  predicate InRange(succ: seq<nat>) { forall s :: 0 <= s < |succ| ==> succ[s] < |succ| }

  predicate Graph(step: seq<int>, succ: seq<nat>) { |step| == |succ| && InRange(succ) }

  /** The chain from `s` returns to it through forced states only. */
  ghost predicate OnCycle(step: seq<int>, succ: seq<nat>, s: nat)
    requires Graph(step, succ) && s < |succ|
  {
    exists k: nat :: k > 0 && Returns(step, succ, s, k)
  }

  ghost predicate Returns(step: seq<int>, succ: seq<nat>, s: nat, k: nat)
    requires Graph(step, succ) && s < |succ|
  {
    Iter(succ, s, k) == s && forall j :: 0 <= j < k ==> step[Iter(succ, s, j)] >= 0
  }

  /** A rank that every remaining step lowers: no chain is infinite. */
  ghost predicate Ranked(step: seq<int>, succ: seq<nat>, rank: seq<nat>)
    requires Graph(step, succ)
  {
    |rank| == |step| && forall s :: 0 <= s < |step| && step[s] >= 0 ==> rank[succ[s]] < rank[s]
  }

  lemma {:induction false} IterStep(succ: seq<nat>, s: nat, k: nat)
    requires InRange(succ) && s < |succ|
    ensures Iter(succ, s, k + 1) == Iter(succ, succ[s], k)
  {
    if k > 0 { IterStep(succ, s, k - 1); }
  }

  lemma {:induction false} RankFalls(step: seq<int>, succ: seq<nat>, rank: seq<nat>, s: nat, k: nat)
    requires Graph(step, succ) && Ranked(step, succ, rank) && s < |succ|
    requires forall j :: 0 <= j < k ==> step[Iter(succ, s, j)] >= 0
    ensures rank[Iter(succ, s, k)] <= rank[s] && (k > 0 ==> rank[Iter(succ, s, k)] < rank[s])
  {
    if k > 0 {
      RankFalls(step, succ, rank, s, k - 1);
      assert step[Iter(succ, s, k - 1)] >= 0;
    }
  }

  /** A ranked graph has no forced cycle. */
  lemma RankedHasNoCycle(step: seq<int>, succ: seq<nat>, rank: seq<nat>, s: nat)
    requires Graph(step, succ) && Ranked(step, succ, rank) && s < |succ|
    ensures !OnCycle(step, succ, s)
  {
    forall k: nat | k > 0 ensures !Returns(step, succ, s, k) {
      if Returns(step, succ, s, k) { RankFalls(step, succ, rank, s, k); }
    }
  }

  // ----- Clearing

  /** What has been cleared is closed under successors and lies on cycles. */
  ghost predicate ClearedWell(step0: seq<int>, step: seq<int>, succ: seq<nat>)
    requires Graph(step0, succ) && Graph(step, succ)
  {
    forall s :: 0 <= s < |succ| ==>
      step[s] == step0[s] || (step[s] == -1 && step0[s] >= 0 && step[succ[s]] == -1 && OnCycle(step0, succ, s))
  }

  lemma {:induction false} ClearedOrbit(step0: seq<int>, step: seq<int>, succ: seq<nat>, s: nat, k: nat)
    requires Graph(step0, succ) && Graph(step, succ) && ClearedWell(step0, step, succ) && s < |succ| && step[s] == -1
    requires forall j :: 0 <= j < k ==> step0[Iter(succ, s, j)] >= 0
    ensures step[Iter(succ, s, k)] == -1
  {
    if k > 0 {
      ClearedOrbit(step0, step, succ, s, k - 1);
      assert step0[Iter(succ, s, k - 1)] >= 0;
    }
  }

  /** With a rank left and only cycles cleared, exactly the states on a forced cycle were cleared. */
  lemma ExactlyTheCycles(step0: seq<int>, step: seq<int>, succ: seq<nat>, rank: seq<nat>, s: nat)
    requires Graph(step0, succ) && Graph(step, succ) && ClearedWell(step0, step, succ) && Ranked(step, succ, rank)
    requires s < |succ|
    ensures step[s] == if OnCycle(step0, succ, s) then -1 else step0[s]
  {
    if OnCycle(step0, succ, s) && step[s] != -1 {
      var k: nat :| k > 0 && Returns(step0, succ, s, k);
      AllUncleared(step0, step, succ, s, k);
      RankFalls(step, succ, rank, s, k);
    }
  }

  /** If one state of a cycle is uncleared, every state of it is. */
  lemma AllUncleared(step0: seq<int>, step: seq<int>, succ: seq<nat>, s: nat, k: nat)
    requires Graph(step0, succ) && Graph(step, succ) && ClearedWell(step0, step, succ) && s < |succ|
    requires k > 0 && Returns(step0, succ, s, k) && step[s] != -1
    ensures forall j :: 0 <= j < k ==> step[Iter(succ, s, j)] >= 0
  {
    forall j | 0 <= j < k ensures step[Iter(succ, s, j)] >= 0 {
      var t := Iter(succ, s, j);
      assert step0[t] >= 0;
      if step[t] == -1 {
        forall i | 0 <= i < k - j ensures step0[Iter(succ, t, i)] >= 0 { IterAdd(succ, s, j, i); }
        ClearedOrbit(step0, step, succ, t, k - j);
        IterAdd(succ, s, j, k - j);
      }
    }
  }

  lemma {:induction false} IterAdd(succ: seq<nat>, s: nat, a: nat, b: nat)
    requires InRange(succ) && s < |succ|
    ensures Iter(succ, Iter(succ, s, a), b) == Iter(succ, s, a + b)
  {
    if b > 0 { IterAdd(succ, s, a, b - 1); }
  }

  // ----- The walks

  /** Colors: 0 unvisited, 1 on the current walk, 2 done. */
  ghost predicate Colored(step: seq<int>, succ: seq<nat>, color: seq<nat>)
    requires Graph(step, succ)
  {
    |color| == |step| && forall s :: 0 <= s < |color| ==> color[s] <= 2
  }

  /** A settled state is done or unforced; nothing later changes its rank. */
  predicate Settled(step: seq<int>, color: seq<nat>, s: nat)
    requires s < |step| == |color|
  {
    step[s] < 0 || color[s] == 2
  }

  /** Every finished state's step leads to a settled state of lower rank. */
  ghost predicate Finished(step: seq<int>, succ: seq<nat>, color: seq<nat>, rank: seq<nat>)
    requires Graph(step, succ) && |color| == |step| == |rank|
  {
    forall s :: 0 <= s < |step| && color[s] == 2 && step[s] >= 0 ==>
      Settled(step, color, succ[s]) && rank[succ[s]] < rank[s]
  }

  /** The current walk: distinct forced states, each the successor of the one before, ending just before `w`. */
  ghost predicate Walking(step: seq<int>, succ: seq<nat>, color: seq<nat>, pos: seq<nat>, walk: seq<nat>, w: nat)
    requires Graph(step, succ)
  {
    && |color| == |pos| == |step| && w < |step|
    && (forall k :: 0 <= k < |walk| ==>
        walk[k] < |step| && color[walk[k]] == 1 && pos[walk[k]] == k && step[walk[k]] >= 0)
    && (forall s :: 0 <= s < |step| && color[s] == 1 ==> pos[s] < |walk| && walk[pos[s]] == s)
    && (forall k :: 0 < k < |walk| ==> succ[walk[k - 1]] == walk[k])
    && (|walk| > 0 ==> succ[walk[|walk| - 1]] == w)
  }

  ghost function Unvisited(color: seq<nat>): set<int> { set s | 0 <= s < |color| && color[s] == 0 }

  /** The inner loop: follows the chain from `s0` to the first unforced or already colored state. */
  method WalkChain(step: seq<int>, succ: seq<nat>, color0: seq<nat>, pos0: seq<nat>, s0: nat)
    returns (color: seq<nat>, pos: seq<nat>, walk: seq<nat>, w: nat)
    requires Graph(step, succ) && Colored(step, succ, color0) && |pos0| == |step| && s0 < |step|
    requires forall s :: 0 <= s < |step| ==> color0[s] != 1
    ensures Walking(step, succ, color, pos, walk, w) && (step[w] < 0 || color[w] != 0)
    ensures forall s :: 0 <= s < |step| ==> color[s] == color0[s] || (color0[s] == 0 && color[s] == 1)
    ensures step[s0] >= 0 && color0[s0] == 0 ==> color[s0] == 1
  {
    color, pos, walk, w := color0, pos0, [], s0;
    while step[w] >= 0 && color[w] == 0
      invariant Walking(step, succ, color, pos, walk, w)
      invariant forall s :: 0 <= s < |step| ==> color[s] == color0[s] || (color0[s] == 0 && color[s] == 1)
      invariant w == s0 || color[s0] == 1 || !(step[s0] >= 0 && color0[s0] == 0)
      decreases Unvisited(color)
    {
      assert w in Unvisited(color) && w !in Unvisited(color[w := 1]);
      assert forall s :: s in Unvisited(color[w := 1]) ==> s in Unvisited(color);
      color := color[w := 1];
      pos := pos[w := |walk|];
      walk := walk + [w];
      w := succ[w];
    }
  }

  lemma {:induction false} AlongWalk(step: seq<int>, succ: seq<nat>, color: seq<nat>, pos: seq<nat>, walk: seq<nat>,
                                     w: nat,
                                     k: nat, i: nat)
    requires Graph(step, succ) && Walking(step, succ, color, pos, walk, w) && k + i <= |walk| && k < |walk|
    ensures Iter(succ, walk[k], i) == if k + i < |walk| then walk[k + i] else w
  {
    if i > 0 { AlongWalk(step, succ, color, pos, walk, w, k, i - 1); }
  }

  /** When the walk comes back to `w`, every state from `w` on lies on the cycle. */
  lemma ClosedWalkIsCycle(step: seq<int>, succ: seq<nat>, color: seq<nat>, pos: seq<nat>, walk: seq<nat>, w: nat,
                          k: nat)
    requires Graph(step, succ) && Walking(step, succ, color, pos, walk, w) && color[w] == 1 && pos[w] <= k < |walk|
    ensures OnCycle(step, succ, walk[k])
  {
    var n := |walk| - pos[w];
    forall j | 0 <= j <= n
      ensures Iter(succ, walk[k], j) == if k + j < |walk| then walk[k + j] else walk[k + j - n]
    {
      if k + j <= |walk| {
        AlongWalk(step, succ, color, pos, walk, w, k, j);
      } else {
        AlongWalk(step, succ, color, pos, walk, w, k, |walk| - k);
        AlongWalk(step, succ, color, pos, walk, w, pos[w], j - (|walk| - k));
        IterAdd(succ, walk[k], |walk| - k, j - (|walk| - k));
      }
    }
    assert Iter(succ, walk[k], n) == walk[k];
    assert Returns(step, succ, walk[k], n);
  }

  /** The states of the walk from position `p` on. */
  predicate Tail(color: seq<nat>, pos: seq<nat>, s: nat, p: nat)
    requires s < |color| == |pos|
  {
    color[s] == 1 && pos[s] >= p
  }

  /** Clears a closed walk's cycle and marks the walk done. */
  method FinishWalk(step: seq<int>, succ: seq<nat>, color: seq<nat>, pos: seq<nat>, walk: seq<nat>, w: nat)
    returns (cleared: seq<int>, done: seq<nat>, ghost p: nat)
    requires Graph(step, succ) && Walking(step, succ, color, pos, walk, w) && (step[w] < 0 || color[w] != 0)
    ensures p == (if step[w] >= 0 && color[w] == 1 then pos[w] else |walk|) && |cleared| == |done| == |step|
    ensures forall s :: 0 <= s < |step| ==> cleared[s] == if Tail(color, pos, s, p) then -1 else step[s]
    ensures forall s :: 0 <= s < |step| ==> done[s] == if color[s] == 1 then 2 else color[s]
  {
    cleared, p := step, |walk|;
    if step[w] >= 0 && color[w] == 1 {
      p := pos[w];
      var k := pos[w];
      while k < |walk|
        invariant p <= k <= |walk| && |cleared| == |step|
        invariant forall s :: 0 <= s < |step| ==> cleared[s] == if Tail(color, pos, s, p) && pos[s] < k then -1
            else step[s]
      {
        cleared := cleared[walk[k] := -1];
        k := k + 1;
      }
    }
    done := color;
    for k := 0 to |walk|
      invariant |done| == |step|
      invariant forall s :: 0 <= s < |step| ==> done[s] == if color[s] == 1 && pos[s] < k then 2 else color[s]
    {
      done := done[walk[k] := 2];
    }
  }

  /** The ranks of the walk's uncleared states: counted back from where it stopped. */
  ghost function NewRank(color: seq<nat>, pos: seq<nat>, rank: seq<nat>, w: nat, p: nat): (r: seq<nat>)
    requires |color| == |pos| == |rank| && w < |rank|
    ensures |r| == |rank|
  {
    seq(|rank|, s requires 0 <= s < |rank| =>
      if color[s] == 1 && pos[s] < p then rank[w] + (p - pos[s]) else rank[s])
  }

  lemma FinishedAfter(step: seq<int>, succ: seq<nat>, color: seq<nat>, pos: seq<nat>, walk: seq<nat>, w: nat,
                      rank: seq<nat>, cleared: seq<int>, done: seq<nat>, p: nat)
    requires Graph(step, succ) && Walking(step, succ, color, pos, walk, w) && (step[w] < 0 || color[w] != 0)
    requires p == (if step[w] >= 0 && color[w] == 1 then pos[w] else |walk|) && |cleared| == |done| == |step| == |rank|
    requires forall s :: 0 <= s < |step| ==> cleared[s] == if Tail(color, pos, s, p) then -1 else step[s]
    requires forall s :: 0 <= s < |step| ==> done[s] == if color[s] == 1 then 2 else color[s]
    requires Colored(step, succ, color) && Finished(step, succ, color, rank)
    ensures Finished(cleared, succ, done, NewRank(color, pos, rank, w, p))
  {
    var r := NewRank(color, pos, rank, w, p);
    forall s | 0 <= s < |step| && done[s] == 2 && cleared[s] >= 0
      ensures Settled(cleared, done, succ[s]) && r[succ[s]] < r[s]
    {
      if color[s] == 2 {
        assert Settled(step, color, succ[s]);
      } else {
        var k := pos[s];
        assert walk[k] == s && k < p;
        if k + 1 < |walk| { assert succ[walk[k]] == walk[k + 1]; }
      }
    }
  }

  lemma CycleBefore(step0: seq<int>, step: seq<int>, succ: seq<nat>, s: nat)
    requires Graph(step0, succ) && Graph(step, succ) && ClearedWell(step0, step, succ) && s < |succ|
        && OnCycle(step, succ, s)
    ensures OnCycle(step0, succ, s)
  {
    var k: nat :| k > 0 && Returns(step, succ, s, k);
    forall j | 0 <= j < k ensures step0[Iter(succ, s, j)] >= 0 {
      assert step[Iter(succ, s, j)] >= 0;
    }
    assert Returns(step0, succ, s, k);
  }

  lemma ClearedWellAfter(step0: seq<int>, step: seq<int>, succ: seq<nat>, color: seq<nat>, pos: seq<nat>,
                         walk: seq<nat>, w: nat, cleared: seq<int>, p: nat)
    requires Graph(step0, succ) && Graph(step, succ) && ClearedWell(step0, step, succ)
    requires Walking(step, succ, color, pos, walk, w) && (step[w] < 0 || color[w] != 0)
    requires p == (if step[w] >= 0 && color[w] == 1 then pos[w] else |walk|) && |cleared| == |step|
    requires forall s :: 0 <= s < |step| ==> cleared[s] == if Tail(color, pos, s, p) then -1 else step[s]
    ensures ClearedWell(step0, cleared, succ)
  {
    forall s | 0 <= s < |succ| && cleared[s] != step0[s]
      ensures cleared[s] == -1 && step0[s] >= 0 && cleared[succ[s]] == -1 && OnCycle(step0, succ, s)
    {
      if Tail(color, pos, s, p) {
        var k := pos[s];
        assert walk[k] == s;
        ClosedWalkIsCycle(step, succ, color, pos, walk, w, k);
        CycleBefore(step0, step, succ, s);
        if k + 1 < |walk| { assert succ[walk[k]] == walk[k + 1]; }
      } else {
        assert step[s] != step0[s] && step[succ[s]] == -1;
      }
    }
  }

  /** Between walks: nothing is on a walk, only cycles are cleared, the finished states are ranked. */
  ghost predicate Between(step0: seq<int>, step: seq<int>, succ: seq<nat>, color: seq<nat>, rank: seq<nat>) {
    && Graph(step0, succ) && Graph(step, succ) && |color| == |rank| == |step|
    && ClearedWell(step0, step, succ) && Finished(step, succ, color, rank)
    && forall s :: 0 <= s < |step| ==> color[s] == 0 || color[s] == 2
  }

  /** One unvisited chain: walked, its cycle cleared, its states done. */
  method OneWalk(ghost step0: seq<int>, step: seq<int>, succ: seq<nat>, color: seq<nat>, pos: seq<nat>, s0: nat,
                 ghost rank: seq<nat>)
    returns (cleared: seq<int>, done: seq<nat>, at: seq<nat>, ghost newRank: seq<nat>)
    requires Between(step0, step, succ, color, rank) && s0 < |step| == |pos| && color[s0] == 0 && step[s0] >= 0
    ensures Between(step0, cleared, succ, done, newRank) && |at| == |step|
    ensures forall s :: 0 <= s < |step| && Settled(step, color, s) ==> Settled(cleared, done, s)
    ensures Settled(cleared, done, s0)
  {
    var onWalk, walk, w;
    onWalk, at, walk, w := WalkChain(step, succ, color, pos, s0);
    SameFinished(step, succ, color, onWalk, rank);
    ghost var p;
    cleared, done, p := FinishWalk(step, succ, onWalk, at, walk, w);
    FinishedAfter(step, succ, onWalk, at, walk, w, rank, cleared, done, p);
    ClearedWellAfter(step0, step, succ, onWalk, at, walk, w, cleared, p);
    newRank := NewRank(onWalk, at, rank, w, p);
  }

  /** The whole pass: exactly the states on a forced cycle lose their step, and what is left is ranked. */
  method ClearCycles(step0: seq<int>, succ: seq<nat>) returns (step: seq<int>, ghost rank: seq<nat>)
    requires Graph(step0, succ)
    ensures |step| == |step0| && Ranked(step, succ, rank)
    ensures forall s :: 0 <= s < |step| ==> step[s] == if OnCycle(step0, succ, s) then -1 else step0[s]
  {
    step := step0;
    var color: seq<nat> := seq(|step0|, _ => 0);
    var pos: seq<nat> := seq(|step0|, _ => 0);
    rank := seq(|step0|, _ => 0);
    for s0 := 0 to |step0|
      invariant Between(step0, step, succ, color, rank) && |pos| == |step|
      invariant forall s :: 0 <= s < s0 ==> Settled(step, color, s)
    {
      if color[s0] == 0 && step[s0] >= 0 {
        step, color, pos, rank := OneWalk(step0, step, succ, color, pos, s0, rank);
      }
    }
    AllSettled(step0, step, succ, color, rank);
  }

  lemma AllSettled(step0: seq<int>, step: seq<int>, succ: seq<nat>, color: seq<nat>, rank: seq<nat>)
    requires Between(step0, step, succ, color, rank) && forall s :: 0 <= s < |step| ==> Settled(step, color, s)
    ensures Ranked(step, succ, rank)
    ensures forall s :: 0 <= s < |step| ==> step[s] == if OnCycle(step0, succ, s) then -1 else step0[s]
  {
    forall s | 0 <= s < |step| && step[s] >= 0 ensures rank[succ[s]] < rank[s] {
      assert Settled(step, color, s);
    }
    forall s | 0 <= s < |step| ensures step[s] == if OnCycle(step0, succ, s) then -1 else step0[s] {
      ExactlyTheCycles(step0, step, succ, rank, s);
    }
  }

  /** Starting a walk leaves the finished states finished. */
  lemma SameFinished(step: seq<int>, succ: seq<nat>, color: seq<nat>, onWalk: seq<nat>, rank: seq<nat>)
    requires Graph(step, succ) && |color| == |onWalk| == |rank| == |step| && Finished(step, succ, color, rank)
    requires forall s :: 0 <= s < |step| ==> onWalk[s] == color[s] || (color[s] == 0 && onWalk[s] == 1)
    ensures Finished(step, succ, onWalk, rank)
  {
    forall s | 0 <= s < |step| && onWalk[s] == 2 && step[s] >= 0
      ensures Settled(step, onWalk, succ[s]) && rank[succ[s]] < rank[s]
    {
      assert Settled(step, color, succ[s]);
    }
  }

  // ----- Forced texts and their lengths

  /** F(s): the bytes of the chain from `s`, up to its first unforced state. */
  ghost function Text(step: seq<int>, succ: seq<nat>, rank: seq<nat>, s: nat): seq<int>
    requires Graph(step, succ) && Ranked(step, succ, rank) && s < |step|
    decreases rank[s]
  {
    if step[s] < 0 then [] else [step[s]] + Text(step, succ, rank, succ[s])
  }

  /** It is what the chain spells, whatever the ranks: the steps of the successive
      states, and then a state without one. */
  lemma {:induction false} TextIsTheChain(step: seq<int>, succ: seq<nat>, rank: seq<nat>, s: nat)
    requires Graph(step, succ) && Ranked(step, succ, rank) && s < |step|
    ensures forall j :: 0 <= j < |Text(step, succ, rank, s)| ==>
        step[Iter(succ, s, j)] == Text(step, succ, rank, s)[j] >= 0
    ensures step[Iter(succ, s, |Text(step, succ, rank, s)|)] < 0
    decreases rank[s]
  {
    if step[s] >= 0 {
      var f, g := Text(step, succ, rank, s), Text(step, succ, rank, succ[s]);
      TextIsTheChain(step, succ, rank, succ[s]);
      forall j | 0 <= j < |f| ensures step[Iter(succ, s, j)] == f[j] >= 0 {
        if j > 0 { IterStep(succ, s, j - 1); }
      }
      IterStep(succ, s, |g|);
    }
  }

  ghost function Below(rank: seq<nat>, s: nat): set<int>
    requires s < |rank|
  {
    set t | 0 <= t < |rank| && rank[t] < rank[s]
  }

  lemma {:induction false} TextWithinBelow(step: seq<int>, succ: seq<nat>, rank: seq<nat>, s: nat)
    requires Graph(step, succ) && Ranked(step, succ, rank) && s < |step|
    ensures |Text(step, succ, rank, s)| <= |Below(rank, s)|
    decreases rank[s]
  {
    if step[s] >= 0 {
      TextWithinBelow(step, succ, rank, succ[s]);
      var small, large := Below(rank, succ[s]), Below(rank, s);
      assert succ[s] in large && succ[s] !in small && small <= large - {succ[s]};
      SubsetSize(small, large - {succ[s]});
    }
  }

  lemma {:induction false} RangeSize(a: set<int>, n: nat)
    requires forall x :: x in a ==> 0 <= x < n
    ensures |a| <= n
  {
    if n > 0 {
      RangeSize(a - {n - 1}, n - 1);
    } else {
      assert forall x :: x !in a;
    }
  }

  /** Every chain ends within the state count. */
  lemma TextIsShort(step: seq<int>, succ: seq<nat>, rank: seq<nat>, s: nat)
    requires Graph(step, succ) && Ranked(step, succ, rank) && s < |step|
    ensures |Text(step, succ, rank, s)| < |step|
  {
    TextWithinBelow(step, succ, rank, s);
    var below := Below(rank, s);
    RangeSize(below + {s}, |step|);
  }

  const UNSET: nat := 0xFFFF_FFFF

  ghost predicate Known(step: seq<int>, succ: seq<nat>, rank: seq<nat>, flen: seq<nat>)
    requires Graph(step, succ) && Ranked(step, succ, rank)
  {
    |flen| == |step| && forall s :: 0 <= s < |step| && flen[s] != UNSET ==> flen[s] == |Text(step, succ, rank, s)|
  }

  /** The memoized lengths. */
  method FillLengths(step: seq<int>, succ: seq<nat>, ghost rank: seq<nat>) returns (flen: seq<nat>)
    requires Graph(step, succ) && Ranked(step, succ, rank) && |step| <= UNSET
    ensures |flen| == |step| && forall s :: 0 <= s < |step| ==> flen[s] == |Text(step, succ, rank, s)|
  {
    flen := seq(|step|, _ => UNSET);
    for s0 := 0 to |step|
      invariant Known(step, succ, rank, flen) && forall s :: 0 <= s < s0 ==> flen[s] != UNSET
    {
      flen := OneChain(step, succ, rank, flen, s0);
    }
  }

  /** Follows one chain to a known length or its end, then fills the lengths back to its start. */
  method OneChain(step: seq<int>, succ: seq<nat>, ghost rank: seq<nat>, flen0: seq<nat>, s0: nat)
                  returns (flen: seq<nat>)
    requires Graph(step, succ) && Ranked(step, succ, rank) && |step| <= UNSET && s0 < |step|
    requires Known(step, succ, rank, flen0)
    ensures Known(step, succ, rank, flen) && flen[s0] != UNSET
    ensures forall s :: 0 <= s < |step| && flen0[s] != UNSET ==> flen[s] != UNSET
  {
    flen := flen0;
    var walk: seq<nat>, w: nat := [], s0;
    while flen[w] == UNSET && step[w] >= 0
      invariant w < |step| && (walk == [] ==> w == s0) && (walk != [] ==> walk[0] == s0)
      invariant forall k :: 0 <= k < |walk| ==>
          walk[k] < |step| && step[walk[k]] >= 0 && succ[walk[k]] == WalkAt(walk, w, k + 1)
      decreases rank[w]
    {
      walk := walk + [w];
      w := succ[w];
    }
    var len := if flen[w] == UNSET then 0 else flen[w];
    if step[w] < 0 { flen := flen[w := 0]; }
    TextIsShort(step, succ, rank, w);
    flen := FillBack(step, succ, rank, flen, walk, w, len);
  }

  /** State `k` of a walk, `w` past its end. */
  function WalkAt(walk: seq<nat>, w: nat, k: nat): nat { if k < |walk| then walk[k] else w }

  method SetLength(step: seq<int>, succ: seq<nat>, ghost rank: seq<nat>, flen0: seq<nat>, s: nat, len: nat)
    returns (flen: seq<nat>)
    requires Graph(step, succ) && Ranked(step, succ, rank) && |step| <= UNSET && Known(step, succ, rank, flen0)
    requires s < |step| && step[s] >= 0 && len == |Text(step, succ, rank, succ[s])| + 1
    ensures Known(step, succ, rank, flen) && flen[s] != UNSET && len == |Text(step, succ, rank, s)|
    ensures forall t :: 0 <= t < |step| && flen0[t] != UNSET ==> flen[t] != UNSET
  {
    TextIsShort(step, succ, rank, s);
    flen := flen0[s := len];
  }

  method FillBack(step: seq<int>, succ: seq<nat>, ghost rank: seq<nat>, flen0: seq<nat>, walk: seq<nat>, w: nat,
                  len0: nat)
    returns (flen: seq<nat>)
    requires Graph(step, succ) && Ranked(step, succ, rank) && |step| <= UNSET && Known(step, succ, rank, flen0)
    requires w < |step| && forall k :: 0 <= k < |walk| ==>
        walk[k] < |step| && step[walk[k]] >= 0 && succ[walk[k]] == WalkAt(walk, w, k + 1)
    requires len0 == |Text(step, succ, rank, w)|
    ensures Known(step, succ, rank, flen)
    ensures |walk| > 0 ==> flen[walk[0]] != UNSET
    ensures forall s :: 0 <= s < |step| && flen0[s] != UNSET ==> flen[s] != UNSET
  {
    flen := flen0;
    var k, len := |walk|, len0;
    while k > 0
      invariant 0 <= k <= |walk| && Known(step, succ, rank, flen)
      invariant WalkAt(walk, w, k) < |step| && len == |Text(step, succ, rank, WalkAt(walk, w, k))|
      invariant k < |walk| ==> flen[walk[k]] != UNSET
      invariant forall s :: 0 <= s < |step| && flen0[s] != UNSET ==> flen[s] != UNSET
    {
      k := k - 1;
      len := len + 1;
      flen := SetLength(step, succ, rank, flen, walk[k], len);
    }
  }

  /** The text of one chain. */
  method ChainText(step: seq<int>, succ: seq<nat>, ghost rank: seq<nat>, s: nat) returns (f: seq<int>)
    requires Graph(step, succ) && Ranked(step, succ, rank) && s < |step|
    ensures f == Text(step, succ, rank, s)
  {
    f := [];
    var w: nat := s;
    while step[w] >= 0
      invariant w < |step| && f + Text(step, succ, rank, w) == Text(step, succ, rank, s)
      decreases rank[w]
    {
      f := f + [step[w]];
      w := succ[w];
    }
  }
}
