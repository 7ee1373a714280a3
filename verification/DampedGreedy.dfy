/** Damped-greedy decoding over the selected candidates: src/damped_greedy_topk.cpp lines 91-136 (renormalization),
222-251 (exact ratio) and 280-354 (the two score-and-select bodies). */
module DampedGreedy {
  import opened Arith
  import opened Sums
  import opened SoftmaxExp
  import opened SoftmaxRow
  import opened TopK
  import AntiLm

  // ----- Renormalization of the picks

  predicate Int32Row(r: Row) {
    r.Valid() && forall i :: 0 <= i < |r.value| ==> -0x8000_0000 <= r.value[i] < 0x8000_0000
  }

  /** The picks' own scores. */
  function Gathered(r: Row, picks: seq<int>): (s: seq<I64>)
    requires Int32Row(r) && r.All(picks)
    ensures |s| == |picks| && forall i :: 0 <= i < |s| ==> s[i] == r.value[picks[i]]
  {
    seq<I64>(|picks|, i requires 0 <= i < |picks| => r.value[picks[i]])
  }

  /** The row-width gate every softmax caller applies. */
  predicate WidthAdmits(qB: int, qC: int, k: nat) {
    qC >= 0 && k > 0 && qB * qB + qC <= MAX_PEAK && k * (qB * qB + qC) < 0x8000_0000_0000_0000
  }

  lemma GatheredFits(r: Row, picks: seq<int>, qB: int, qC: int)
    requires Int32Row(r) && r.All(picks) && WidthAdmits(qB, qC, |picks|)
    ensures Shiftable(Gathered(r, picks)) && SumFits(Gathered(r, picks), qB, qC)
  {
    RowMaxIsMaximum(Gathered(r, picks));
  }

  /** What the peak evaluation must give for the elements to be judged as in the shipped softmax. */
  predicate PeakRight(qLn2: int, qB: int, qC: int, peak: int, usable: bool) {
    if 1 <= qLn2 <= MAX_Q_LN2 then
      (usable <==> UsablePeak(qB, qC) != 0) && (usable ==> peak == UsablePeak(qB, qC))
    else
      !usable
  }

  /** The peak is the exponential at the maximum itself. */
  method EvaluatePeak(qLn2: I64, qB: I64, qC: I64) returns (peak: I64, usable: bool)
    requires 0 <= qB * qB + qC <= MAX_PEAK
    ensures PeakRight(qLn2, qB, qC, peak, usable)
  {
    var zero: I64 := 0;
    var d, construction := IExpConstruct(zero, qLn2, qB, qC);
    EvaluateAny(zero, qLn2, qB, qC);
    var constructed := d != BadQ && d != BadQLn2 && d != BadQB;
    if constructed {
      EvaluateConstruction(zero, qLn2, qB, qC);
      PeakExponential(qLn2, qB, qC);
      peak := IExpEvaluate(construction);
    } else {
      peak := 0;
      NotConstructed(qLn2, qB, qC);
    }
    usable := peak >= 1 && peak <= MAX_PEAK;
  }

  lemma PeakExponential(qLn2: int, qB: int, qC: int)
    requires qLn2 >= 1 && 0 <= qB * qB + qC <= MAX_PEAK
    ensures WrapI64(ExpOf(0, qLn2, qB, qC)) == qB * qB + qC
  {
    MulMono(1, qLn2, CLIP_N);
    assert Clipped(0, qLn2) == 0;
    DivUnique(0, qLn2, 0);
    assert Pow2(0) == 1;
  }

  /** At distance zero only a bad ln 2 is refused. */
  lemma NotConstructed(qLn2: I64, qB: I64, qC: I64)
    ensures var d := ConstructionOf(0, qLn2, qB, qC).domain;
            d == BadQ || d == BadQLn2 || d == BadQB ==> !(1 <= qLn2 <= MAX_Q_LN2)
  {
    if 1 <= qLn2 <= MAX_Q_LN2 {
      MulMono(1, qLn2, CLIP_N);
      assert Clipped(0, qLn2) == 0;
      DivUnique(0, qLn2, 0);
    }
  }

  method EvaluatePick(q: I64, qLn2: I64, qB: I64, qC: I64, peak: I64, usable: bool) returns (value: I64, ok: bool)
    requires PeakRight(qLn2, qB, qC, peak, usable)
    ensures Element(value, ok) == SlowElement(q, qLn2, qB, qC)
  {
    EvaluateAny(q, qLn2, qB, qC);
    var d, construction := IExpConstruct(q, qLn2, qB, qC);
    if d == BadQ || d == BadQLn2 || d == BadQB { return 0, false; }
    value := IExpEvaluate(construction);
    if !usable || value < 0 || value > peak { return 0, false; }
    ok := true;
  }

  /** What the renormalization leaves: the shipped softmax of the gathered scores. */
  function Renormalized(r: Row, picks: seq<int>, qLn2: I64, qB: I64, qC: I64): (p: seq<int>)
    requires Int32Row(r) && r.All(picks)
    ensures |p| == |picks|
  {
    RowsShift(r, picks);
    Probabilities(Numerators(Gathered(r, picks), qLn2, qB, qC))
  }

  predicate Renormalizes(r: Row, picks: seq<int>, qLn2: I64, qB: I64, qC: I64)
    requires Int32Row(r) && r.All(picks)
  {
    RowsShift(r, picks);
    WidthAdmits(qB, qC, |picks|) && WellFormedRow(Gathered(r, picks), qLn2, qB, qC)
  }

  lemma RowsShift(r: Row, picks: seq<int>)
    requires Int32Row(r) && r.All(picks)
    ensures Shiftable(Gathered(r, picks))
  {
    if picks != [] { RowMaxIsMaximum(Gathered(r, picks)); }
  }

  /** Gate, peak, numerators and division. The refused rows are those the gate or the shipped softmax refuses. */
  method TopKRenormalizeQ15(r: Row, picks: seq<int>, qLn2: I64, qB: I64, qC: I64, out: array<I64>) returns (ok: bool)
    requires Int32Row(r) && r.All(picks) && out.Length == |picks|
    modifies out
    ensures ok <==> picks == [] || Renormalizes(r, picks, qLn2, qB, qC)
    ensures WidthAdmits(qB, qC, |picks|) ==> out[..] == Renormalized(r, picks, qLn2, qB, qC)
    ensures !WidthAdmits(qB, qC, |picks|) ==> forall i :: 0 <= i < |picks| ==> out[i] == 0
  {
    if |picks| == 0 { return true; }
    if !WidthAdmits(qB, qC, |picks|) {
      for i := 0 to |picks|
        invariant forall j :: 0 <= j < i ==> out[j] == 0
      {
        out[i] := 0;
      }
      return false;
    }
    SquareNotNegative(qB);
    var s := Gathered(r, picks);
    GatheredFits(r, picks, qB, qC);
    var rowMax := RowMaximum(s);
    var peak, usable := EvaluatePeak(qLn2, qB, qC);
    var exps, total;
    exps, total, ok := PickPass(s, rowMax, qLn2, qB, qC, peak, usable);
    var denom: I64 := if total > 1 then total else 1;
    Divide(exps, denom, out);
  }

  lemma SquareNotNegative(x: int)
    ensures x * x >= 0
  {
    if x < 0 { assert x * x == (-x) * (-x); MulMono(0, -x, -x); } else { MulMono(0, x, x); }
  }

  method RowMaximum(s: seq<I64>) returns (m: I64)
    requires s != []
    ensures m == RowMax(s)
  {
    m := s[0];
    assert s[..1] == [s[0]];
    for i := 1 to |s|
      invariant m == RowMax(s[..i])
    {
      assert s[..i + 1][..i] == s[..i];
      if s[i] > m { m := s[i]; }
    }
    assert s[..|s|] == s;
  }

  /** The accumulation pass, which starts unwell formed when the peak is unusable. */
  method PickPass(s: seq<I64>, rowMax: I64, qLn2: I64, qB: I64, qC: I64, peak: I64, usable: bool)
    returns (exps: seq<I64>, total: I64, ok: bool)
    requires s != [] && Shiftable(s) && SumFits(s, qB, qC) && rowMax == RowMax(s)
        && PeakRight(qLn2, qB, qC, peak, usable)
    ensures exps == Numerators(s, qLn2, qB, qC) && total == Sum(exps)
    ensures ok <==> WellFormedRow(s, qLn2, qB, qC)
  {
    ghost var all := Numerators(s, qLn2, qB, qC);
    SumBounds(all, UsablePeak(qB, qC));
    exps, total, ok := [], 0, usable;
    var k := 0;
    while k < |s|
      invariant 0 <= k == |exps| <= |s| && total == Sum(all[..k])
      invariant exps == all[..k]
      invariant ok <==> usable && WellFormedBefore(s, qLn2, qB, qC, k)
    {
      SumStep(all, k);
      var value, good := PickNumerator(s, k, rowMax, qLn2, qB, qC, peak, usable);
      ok := ok && good;
      assert all[..k + 1] == all[..k] + [value];
      exps, total := exps + [value], total + value;
      k := k + 1;
    }
    assert all[..k] == all;
    NoneUsable(s, qLn2, qB, qC, peak, usable);
  }

  method PickNumerator(s: seq<I64>, k: nat, rowMax: I64, qLn2: I64, qB: I64, qC: I64, peak: I64, usable: bool)
    returns (value: I64, good: bool)
    requires k < |s| && Shiftable(s) && rowMax == RowMax(s) && PeakRight(qLn2, qB, qC, peak, usable)
    ensures value == Numerators(s, qLn2, qB, qC)[k]
    ensures WellFormedBefore(s, qLn2, qB, qC, k + 1) <==> WellFormedBefore(s, qLn2, qB, qC, k) && good
  {
    WellFormedOneMore(s, qLn2, qB, qC, k);
    value, good := PickValue(s, k, rowMax, qLn2, qB, qC, peak, usable);
  }

  method PickValue(s: seq<I64>, k: nat, rowMax: I64, qLn2: I64, qB: I64, qC: I64, peak: I64, usable: bool)
    returns (value: I64, good: bool)
    requires k < |s| && Shiftable(s) && rowMax == RowMax(s) && PeakRight(qLn2, qB, qC, peak, usable)
    ensures Element(value, good) == SlowElement(Distance(s, k), qLn2, qB, qC)
  {
    RowMaxIsMaximum(s);
    var shifted: I64 := s[k] - rowMax;
    value, good := EvaluatePick(shifted, qLn2, qB, qC, peak, usable);
  }

  /** With an unusable peak no element is well formed. */
  lemma NoneUsable(s: seq<I64>, qLn2: I64, qB: I64, qC: I64, peak: I64, usable: bool)
    requires s != [] && Shiftable(s) && PeakRight(qLn2, qB, qC, peak, usable)
    ensures WellFormedRow(s, qLn2, qB, qC) ==> usable
  {
    var first := SlowElement(Distance(s, 0), qLn2, qB, qC);
    assert !usable ==> !first.ok;
  }

  // ----- Score and select

  const NEVER: int := -0x8000_0000_0000_0000

  /** A legal pick loses its damped penalty; a masked one can never win. */
  function Score(legal: bool, q: int, alpha: int, penalty: int): int {
    if legal then q - alpha * penalty / 0x8000 else NEVER
  }

  /** Everything the selection depends on. */
  datatype Step = Step(row: Row, picks: seq<int>, q: seq<int>, penalties: seq<int>, alpha: int) {
    predicate Valid() {
      && row.Valid() && row.All(picks) && |q| == |penalties| == |picks| > 0 && 0 <= alpha < 0x10_0000
      && (forall i :: 0 <= i < |q| ==> 0 <= q[i] <= 0x8000) && forall i :: 0 <= i < |q| ==> 0 <= penalties[i] <= 0x8000
    }

    function ScoreAt(i: nat): int
      requires Valid() && i < |picks|
    {
      Score(row.legal[picks[i]], q[i], alpha, penalties[i])
    }

    /** Pick `i` wins over the first `n`: no higher score, and none as high at a lower index. */
    predicate Wins(i: nat, n: nat)
      requires Valid() && i < n <= |picks|
    {
      forall j :: 0 <= j < n ==> ScoreAt(j) < ScoreAt(i) || (ScoreAt(j) == ScoreAt(i) && picks[i] <= picks[j])
    }

    ghost predicate Selects(token: int)
      requires Valid()
    {
      exists i: nat :: i < |picks| && picks[i] == token && Wins(i, |picks|)
    }
  }

  lemma ScoreRange(s: Step, i: nat)
    requires s.Valid() && i < |s.picks|
    ensures s.row.legal[s.picks[i]] ==> -0x10_0000 <= s.ScoreAt(i) <= 0x8000
    ensures 0 <= s.alpha * s.penalties[i] / 0x8000 < 0x10_0000
  {
    MulMono(s.penalties[i], 0x8000, s.alpha);
    MulMono(0, s.penalties[i], s.alpha);
    DivMono(s.alpha * s.penalties[i], s.alpha * 0x8000, 0x8000);
    DivMono(0, s.alpha * s.penalties[i], 0x8000);
    DivAddMultiple(0, s.alpha, 0x8000);
  }

  /** A legal score is the share less the damped penalty, rounded down: the share itself without a penalty, all of
      `alpha` less at a full one, and never higher under a greater penalty. A masked one is below every legal one. */
  lemma ScoreFalls(q: int, alpha: int, penalty: int, greater: int)
    requires 0 <= alpha && 0 <= penalty <= greater
    ensures Score(true, q, alpha, 0) == q && Score(true, q, alpha, 0x8000) == q - alpha
    ensures Score(true, q, alpha, greater) <= Score(true, q, alpha, penalty) <= q
    ensures 0 <= alpha * penalty - (q - Score(true, q, alpha, penalty)) * 0x8000 < 0x8000
    ensures Score(false, q, alpha, penalty) == -0x8000_0000_0000_0000
  {
    MulMono(0, penalty, alpha);
    MulMono(penalty, greater, alpha);
    DivMono(0, alpha * penalty, 0x8000);
    DivMono(alpha * penalty, alpha * greater, 0x8000);
    DivBounds(alpha * penalty, 0x8000);
    DivUnique(alpha * 0x8000, 0x8000, alpha);
  }

  /** The selected token's score is at least every pick's, and its index the lowest of those with that score. */
  lemma SelectedIsBest(s: Step, token: int, j: nat)
    requires s.Valid() && s.Selects(token) && j < |s.picks|
    ensures exists i: nat :: i < |s.picks| && s.picks[i] == token
                             && (s.ScoreAt(i) > s.ScoreAt(j) || (s.ScoreAt(i) == s.ScoreAt(j) && token <= s.picks[j]))
  {
    var i: nat :| i < |s.picks| && s.picks[i] == token && s.Wins(i, |s.picks|);
    assert s.ScoreAt(j) < s.ScoreAt(i) || (s.ScoreAt(j) == s.ScoreAt(i) && s.picks[i] <= s.picks[j]);
  }

  /** At most one token is selected. */
  lemma SelectedOnce(s: Step, a: int, b: int)
    requires s.Valid() && s.Selects(a) && s.Selects(b)
    ensures a == b
  {
    var i: nat :| i < |s.picks| && s.picks[i] == a && s.Wins(i, |s.picks|);
    var j: nat :| j < |s.picks| && s.picks[j] == b && s.Wins(j, |s.picks|);
    assert s.ScoreAt(j) <= s.ScoreAt(i) && s.ScoreAt(i) <= s.ScoreAt(j);
  }

  /** The selected token is legal whenever any pick is. */
  lemma SelectedIsLegal(s: Step, token: int)
    requires s.Valid() && s.Selects(token) && exists j :: 0 <= j < |s.picks| && s.row.legal[s.picks[j]]
    ensures s.row.Has(token) && s.row.legal[token]
  {
    var i: nat :| i < |s.picks| && s.picks[i] == token && s.Wins(i, |s.picks|);
    var j: nat :| j < |s.picks| && s.row.legal[s.picks[j]];
    ScoreRange(s, j);
    assert s.ScoreAt(j) <= s.ScoreAt(i);
  }

  /** The running best over the picks. */
  method Argmax(s: Step) returns (token: int, winner: nat)
    requires s.Valid()
    ensures winner < |s.picks| && s.picks[winner] == token && s.Wins(winner, |s.picks|) && s.Selects(token)
  {
    var haveBest, bestScore := false, 0;
    token, winner := -1, 0;
    for i := 0 to |s.picks|
      invariant haveBest <==> i > 0
      invariant haveBest ==>
          winner < i && s.picks[winner] == token && bestScore == s.ScoreAt(winner) && s.Wins(winner, i)
    {
      ScoreRange(s, i);
      var legal := s.row.legal[s.picks[i]];
      var alphaEff: I32 := s.alpha * s.penalties[i] / 0x8000;
      var score: I64 := if legal then s.q[i] - alphaEff else NEVER;
      if !haveBest || score > bestScore || (score == bestScore && s.picks[i] < token) {
        haveBest, bestScore, token, winner := true, score, s.picks[i], i;
      }
    }
  }

  /** The first `k` indices of the full sort. */
  function Picks(r: Row, k: nat): (p: seq<int>)
    requires r.Valid() && k <= |r.value|
    ensures |p| == k && r.All(p)
  {
    SortBest(r, Indices(|r.value|))[..k]
  }

  function PenaltiesOf(h: seq<int>, orders: nat, picks: seq<int>): (p: seq<int>)
    requires AntiLm.Divides(h, orders)
    ensures |p| == |picks|
  {
    seq(|picks|, i requires 0 <= i < |picks| => AntiLm.Penalty(h, orders, orders, picks[i]))
  }

  /** The step both bodies compute. */
  function StepOf(r: Row, k: nat, h: seq<int>, orders: nat, alpha: int, qLn2: I64, qB: I64, qC: I64): Step
    requires Int32Row(r) && 0 < k <= |r.value| && AntiLm.Divides(h, orders)
  {
    var picks := Picks(r, k);
    Step(r, picks, Renormalized(r, picks, qLn2, qB, qC), PenaltiesOf(h, orders, picks), alpha)
  }

  lemma StepIsValid(r: Row, k: nat, h: seq<int>, orders: nat, alpha: int, qLn2: I64, qB: I64, qC: I64)
    requires Int32Row(r) && 0 < k <= |r.value| && AntiLm.Divides(h, orders) && 0 <= alpha < 0x10_0000
    ensures StepOf(r, k, h, orders, alpha, qLn2, qB, qC).Valid()
  {
    var s := StepOf(r, k, h, orders, alpha, qLn2, qB, qC);
    RowsShift(r, s.picks);
    OutputsAreBounded(Numerators(Gathered(r, s.picks), qLn2, qB, qC));
    forall i | 0 <= i < |s.penalties| ensures 0 <= s.penalties[i] <= 0x8000 {
      AntiLm.PenaltyRange(h, orders, s.picks[i]);
    }
  }

  datatype Outcome = OutOfDomain | Refused | Token(token: int)

  /** Selection, gate and renormalization: the part both bodies share. */
  method PicksAndShares(r: Row, k: nat, qLn2: I64, qB: I64, qC: I64) returns (picks: seq<int>, q: seq<int>, ok: bool)
    requires Int32Row(r) && 0 < k <= |r.value|
    ensures picks == Picks(r, k) && (ok <==> Renormalizes(r, picks, qLn2, qB, qC))
    ensures ok ==> q == Renormalized(r, picks, qLn2, qB, qC)
  {
    var indices := new int[k](_ => -1);
    FsdTopK(r, k, indices);
    picks := indices[..];
    assert picks == Picks(r, k);
    var shares := new I64[k](_ => 0);
    ok := TopKRenormalizeQ15(r, picks, qLn2, qB, qC, shares);
    q := shares[..];
  }

  /** The body with its own storage: every pick penalized in one call. */
  method ScoreAndSelect(r: Row, k: nat, lm: AntiLm.AntiLmState, alpha: int, qLn2: I64, qB: I64, qC: I64)
    returns (outcome: Outcome)
    requires Int32Row(r) && 0 < k <= |r.value| && 0 <= alpha < 0x10_0000
    requires lm.Valid() && AntiLm.Divides(lm.history, lm.maxOrder) && |lm.history| < 0x8000_0000_0000
    ensures outcome.Refused? <==> !Renormalizes(r, Picks(r, k), qLn2, qB, qC)
    ensures StepOf(r, k, lm.history, lm.maxOrder, alpha, qLn2, qB, qC).Valid()
    ensures outcome.Refused? || outcome.Token?
    ensures outcome.Token? ==> StepOf(r, k, lm.history, lm.maxOrder, alpha, qLn2, qB, qC).Selects(outcome.token)
  {
    StepIsValid(r, k, lm.history, lm.maxOrder, alpha, qLn2, qB, qC);
    var picks, q, ok := PicksAndShares(r, k, qLn2, qB, qC);
    if !ok { return Refused; }
    var penalties := new I64[k](_ => 0);
    lm.Penalize(picks, penalties);
    assert penalties[..] == PenaltiesOf(lm.history, lm.maxOrder, picks);
    var token, winner := Argmax(Step(r, picks, q, penalties[..], alpha));
    outcome := Token(token);
  }

  /** The body with the caller's scratch: one pick penalized at a time. It selects the same token. */
  method ScoreAndSelectWithScratch(r: Row, k: nat, lm: AntiLm.AntiLmState, alpha: int, qLn2: I64, qB: I64, qC: I64)
    returns (outcome: Outcome)
    requires Int32Row(r) && 0 < k <= |r.value| && 0 <= alpha < 0x10_0000
    requires lm.Valid() && AntiLm.Divides(lm.history, lm.maxOrder) && |lm.history| < 0x8000_0000_0000
    ensures outcome.Refused? <==> !Renormalizes(r, Picks(r, k), qLn2, qB, qC)
    ensures StepOf(r, k, lm.history, lm.maxOrder, alpha, qLn2, qB, qC).Valid()
    ensures outcome.Refused? || outcome.Token?
    ensures outcome.Token? ==> StepOf(r, k, lm.history, lm.maxOrder, alpha, qLn2, qB, qC).Selects(outcome.token)
  {
    StepIsValid(r, k, lm.history, lm.maxOrder, alpha, qLn2, qB, qC);
    ghost var s := StepOf(r, k, lm.history, lm.maxOrder, alpha, qLn2, qB, qC);
    var picks, q, ok := PicksAndShares(r, k, qLn2, qB, qC);
    if !ok { return Refused; }
    var token := ArgmaxOneByOne(r, picks, q, lm, alpha, s);
    outcome := Token(token);
  }

  /** The running best, each pick's penalty asked for as it is reached. */
  method ArgmaxOneByOne(r: Row, picks: seq<int>, q: seq<int>, lm: AntiLm.AntiLmState, alpha: int, ghost s: Step)
    returns (bestToken: int)
    requires lm.Valid() && AntiLm.Divides(lm.history, lm.maxOrder) && |lm.history| < 0x8000_0000_0000
    requires s.Valid() && s == Step(r, picks, q, PenaltiesOf(lm.history, lm.maxOrder, picks), alpha)
    ensures s.Selects(bestToken)
  {
    var haveBest, bestScore := false, 0;
    bestToken := -1;
    ghost var winner: nat := 0;
    for i := 0 to |picks|
      invariant haveBest <==> i > 0
      invariant haveBest ==>
          winner < i && picks[winner] == bestToken && bestScore == s.ScoreAt(winner) && s.Wins(winner, i)
    {
      var score := OneScore(r, picks, q, i, lm, alpha, s);
      if !haveBest || score > bestScore || (score == bestScore && picks[i] < bestToken) {
        haveBest, bestScore, bestToken, winner := true, score, picks[i], i;
      }
    }
  }

  method OneScore(r: Row, picks: seq<int>, q: seq<int>, i: nat, lm: AntiLm.AntiLmState, alpha: int, ghost s: Step)
    returns (score: I64)
    requires lm.Valid() && AntiLm.Divides(lm.history, lm.maxOrder) && |lm.history| < 0x8000_0000_0000
    requires s.Valid() && i < |picks| && s == Step(r, picks, q, PenaltiesOf(lm.history, lm.maxOrder, picks), alpha)
    ensures score == s.ScoreAt(i)
  {
    var penalty := new I64[1](_ => 0);
    lm.Penalize([picks[i]], penalty);
    assert penalty[0] == s.penalties[i] by { assert [picks[i]][0] == picks[i]; }
    ScoreRange(s, i);
    var alphaEff: I32 := alpha * penalty[0] / 0x8000;
    score := if r.legal[picks[i]] then q[i] - alphaEff else NEVER;
  }

  /** The two bodies choose the same token. */
  method BodiesAgree(r: Row, k: nat, lm: AntiLm.AntiLmState, alpha: int, qLn2: I64, qB: I64, qC: I64)
    returns (a: Outcome, b: Outcome)
    requires Int32Row(r) && 0 < k <= |r.value| && 0 <= alpha < 0x10_0000
    requires lm.Valid() && AntiLm.Divides(lm.history, lm.maxOrder) && |lm.history| < 0x8000_0000_0000
    ensures a == b
  {
    a := ScoreAndSelect(r, k, lm, alpha, qLn2, qB, qC);
    b := ScoreAndSelectWithScratch(r, k, lm, alpha, qLn2, qB, qC);
    if a.Token? && b.Token? {
      SelectedOnce(StepOf(r, k, lm.history, lm.maxOrder, alpha, qLn2, qB, qC), a.token, b.token);
    }
  }

  predicate InDomain(r: Row, k: int, alpha: int) { 0 < k <= |r.value| && 0 <= alpha < 0x10_0000 }

  /** The public entry, for an anti-LM of at most 82 orders: rejects what is out of domain, and otherwise returns the
      selected token, a legal one whenever a legal index is among the picks. */
  method DampedGreedyScoreAndArgmax(r: Row, k: int, lm: AntiLm.AntiLmState, alpha: int, qLn2: I64, qB: I64, qC: I64)
    returns (outcome: Outcome)
    requires Int32Row(r) && lm.Valid() && lm.maxOrder <= 82 && |lm.history| < 0x8000_0000_0000
    ensures outcome.OutOfDomain? <==> !InDomain(r, k, alpha)
    ensures InDomain(r, k, alpha) ==> (outcome.Refused? <==> !Renormalizes(r, Picks(r, k), qLn2, qB, qC))
    ensures outcome.Token? ==> AntiLm.Divides(lm.history, lm.maxOrder)
    ensures outcome.Token? ==> StepOf(r, k, lm.history, lm.maxOrder, alpha, qLn2, qB, qC).Valid()
    ensures outcome.Token? ==> StepOf(r, k, lm.history, lm.maxOrder, alpha, qLn2, qB, qC).Selects(outcome.token)
    ensures outcome.Token? && (exists j :: 0 <= j < k && r.legal[Picks(r, k)[j]]) ==>
        r.Has(outcome.token) && r.legal[outcome.token]
  {
    if r.value == [] || k <= 0 || k > |r.value| || alpha < 0 || alpha >= 0x10_0000 { return OutOfDomain; }
    AntiLm.FewOrdersDivide(lm.history, lm.maxOrder);
    outcome := ScoreAndSelect(r, k, lm, alpha, qLn2, qB, qC);
    ghost var s := StepOf(r, k, lm.history, lm.maxOrder, alpha, qLn2, qB, qC);
    if outcome.Token? && exists j :: 0 <= j < k && r.legal[s.picks[j]] {
      SelectedIsLegal(s, outcome.token);
    }
  }
}
