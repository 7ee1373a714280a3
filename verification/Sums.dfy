/** Sums of sequences: rows, accumulator lanes. */
module Sums {
  function Sum(s: seq<int>): int {
    if s == [] then 0 else Sum(s[..|s| - 1]) + s[|s| - 1]
  }

  lemma {:induction false} SumAppend(a: seq<int>, b: seq<int>)
    ensures Sum(a + b) == Sum(a) + Sum(b)
  {
    if b == [] { assert a + b == a; }
    else {
      var k := |b| - 1;
      assert (a + b)[..|a| + k] == a + b[..k];
      SumAppend(a, b[..k]);
    }
  }

  lemma {:induction false} SumPointwise(a: seq<int>, b: seq<int>, c: seq<int>)
    requires |a| == |b| == |c| && forall i :: 0 <= i < |a| ==> c[i] == a[i] + b[i]
    ensures Sum(c) == Sum(a) + Sum(b)
  {
    if a != [] { SumPointwise(a[..|a| - 1], b[..|b| - 1], c[..|c| - 1]); }
  }

  lemma {:induction false} SumBounds(s: seq<int>, m: int)
    requires forall k :: 0 <= k < |s| ==> 0 <= s[k] <= m
    ensures 0 <= Sum(s) <= |s| * m
    ensures forall k :: 0 <= k < |s| ==> s[k] <= Sum(s)
  {
    if s != [] {
      SumBounds(s[..|s| - 1], m);
      assert |s| * m == (|s| - 1) * m + m;
    }
  }
}
