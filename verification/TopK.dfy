/** The damped-greedy top-k selection: src/damped_greedy_topk.cpp lines 65-89, with the heap and sort of the C++
standard library behind their own contracts. */
module TopK {
  import opened FiniteSets

  /** A scored row: one value per vocabulary index, and which indices the mask leaves legal. */
  datatype Row = Row(value: seq<int>, legal: seq<bool>) {
    predicate Valid() { |value| == |legal| }

    predicate Has(i: int) { 0 <= i < |value| }

    /** The published order: higher value, then legal before masked, then the lower index. */
    predicate Better(a: int, b: int)
      requires Valid() && Has(a) && Has(b)
    {
      if value[a] != value[b] then value[a] > value[b] else if legal[a] != legal[b] then legal[a] else a < b
    }

    predicate All(s: seq<int>) { forall i :: 0 <= i < |s| ==> Has(s[i]) }
  }

  /** It is a strict total order. */
  lemma BetterIsStrictOrder(r: Row, a: int, b: int, c: int)
    requires r.Valid() && r.Has(a) && r.Has(b) && r.Has(c)
    ensures a != b ==> (r.Better(a, b) <==> !r.Better(b, a))
    ensures !r.Better(a, a)
    ensures r.Better(a, b) && r.Better(b, c) ==> r.Better(a, c)
  {}

  predicate Distinct(s: seq<int>) { forall i, j :: 0 <= i < j < |s| ==> s[i] != s[j] }

  predicate Ordered(r: Row, s: seq<int>)
    requires r.Valid() && r.All(s)
  {
    forall i, j :: 0 <= i < j < |s| ==> r.Better(s[i], s[j])
  }

  // ----- The full sort, as the reference

  function Insert(r: Row, x: int, s: seq<int>): (t: seq<int>)
    requires r.Valid() && r.Has(x) && r.All(s)
    ensures |t| == |s| + 1 && r.All(t)
  {
    if s == [] || r.Better(x, s[0]) then [x] + s else [s[0]] + Insert(r, x, s[1..])
  }

  function SortBest(r: Row, s: seq<int>): (t: seq<int>)
    requires r.Valid() && r.All(s)
    ensures |t| == |s| && r.All(t)
  {
    if s == [] then [] else Insert(r, s[0], SortBest(r, s[1..]))
  }

  function Indices(n: nat): (s: seq<int>)
    ensures |s| == n && Distinct(s) && forall i :: 0 <= i < n ==> s[i] == i
  {
    seq(n, i requires 0 <= i < n => i)
  }

  lemma {:induction false} InsertKeeps(r: Row, x: int, s: seq<int>)
    requires r.Valid() && r.Has(x) && r.All(s) && Ordered(r, s) && x !in s
    ensures Ordered(r, Insert(r, x, s))
    ensures forall y :: y in Insert(r, x, s) <==> y == x || y in s
  {
    if s != [] {
      BetterIsStrictOrder(r, x, s[0], x);
      if r.Better(x, s[0]) {
        forall j | 0 <= j < |s| ensures r.Better(x, s[j]) { BetterIsStrictOrder(r, x, s[0], s[j]); }
      } else {
        InsertKeeps(r, x, s[1..]);
        var t := Insert(r, x, s[1..]);
        forall j | 0 <= j < |t| ensures r.Better(s[0], t[j]) { assert t[j] in t; }
      }
    }
  }

  lemma {:induction false} SortBestSorts(r: Row, s: seq<int>)
    requires r.Valid() && r.All(s) && Distinct(s)
    ensures Ordered(r, SortBest(r, s)) && forall y :: y in SortBest(r, s) <==> y in s
  {
    if s != [] {
      SortBestSorts(r, s[1..]);
      InsertKeeps(r, s[0], SortBest(r, s[1..]));
    }
  }

  lemma OrderedIsDistinct(r: Row, s: seq<int>)
    requires r.Valid() && r.All(s) && Ordered(r, s)
    ensures Distinct(s)
  {
    forall i, j | 0 <= i < j < |s| ensures s[i] != s[j] { BetterIsStrictOrder(r, s[i], s[j], s[i]); }
  }

  /** A sorted sequence is determined by its elements. */
  lemma {:induction false} OrderedUnique(r: Row, s: seq<int>, t: seq<int>)
    requires r.Valid() && r.All(s) && r.All(t) && Ordered(r, s) && Ordered(r, t) && |s| == |t|
    requires forall x :: x in s <==> x in t
    ensures s == t
  {
    if s != [] {
      assert s[0] in s && t[0] in t;
      var i: nat :| i < |t| && t[i] == s[0];
      var j: nat :| j < |s| && s[j] == t[0];
      BetterIsStrictOrder(r, s[0], t[0], s[0]);
      assert i == 0;
      RestSame(r, s, t);
      OrderedUnique(r, s[1..], t[1..]);
    }
  }

  lemma RestSame(r: Row, s: seq<int>, t: seq<int>)
    requires r.Valid() && r.All(s) && r.All(t) && Ordered(r, s) && Ordered(r, t) && |s| == |t| > 0 && s[0] == t[0]
    requires forall x :: x in s <==> x in t
    ensures forall x :: x in s[1..] <==> x in t[1..]
  {
    OrderedIsDistinct(r, s);
    OrderedIsDistinct(r, t);
    forall x ensures x in s[1..] <==> x in t[1..] {
      assert x in s[1..] <==> x in s && x != s[0];
      assert x in t[1..] <==> x in t && x != t[0];
    }
  }

  // ----- The best of a prefix of the vocabulary

  /** `s` holds distinct indices below `n`, each better than every index below `n` it leaves out. */
  ghost predicate Best(r: Row, s: seq<int>, n: nat)
    requires r.Valid() && r.All(s) && n <= |r.value|
  {
    && Distinct(s) && (forall i :: 0 <= i < |s| ==> s[i] < n)
    && forall x, i :: 0 <= x < n && x !in s && 0 <= i < |s| ==> r.Better(s[i], x)
  }

  /** Two selections of the same size have the same elements. */
  lemma BestUnique(r: Row, s: seq<int>, t: seq<int>, n: nat)
    requires r.Valid() && r.All(s) && r.All(t) && n <= |r.value| && Best(r, s, n) && Best(r, t, n) && |s| == |t|
    ensures forall x :: x in s ==> x in t
  {
    if x :| x in s && x !in t {
      var y := Missing(s, t, x);
      var i: nat :| i < |s| && s[i] == x;
      var j: nat :| j < |t| && t[j] == y;
      BetterIsStrictOrder(r, x, y, x);
      assert false;
    }
  }

  /** If `t` lacks an element of `s` and is as long, it has one that `s` lacks. */
  lemma Missing(s: seq<int>, t: seq<int>, x: int) returns (y: int)
    requires Distinct(s) && Distinct(t) && |s| == |t| && x in s && x !in t
    ensures y in t && y !in s
  {
    if forall z :: z in t ==> z in s {
      var a, b := Elements(s), Elements(t);
      ElementsCount(s);
      ElementsCount(t);
      assert b <= a - {x};
      SubsetSize(b, a - {x});
    }
    y :| y in t && y !in s;
  }

  ghost function Elements(s: seq<int>): set<int> { set x | x in s }

  lemma {:induction false} ElementsCount(s: seq<int>)
    requires Distinct(s)
    ensures |Elements(s)| == |s|
  {
    if |s| > 0 {
      var rest, last := s[..|s| - 1], s[|s| - 1];
      ElementsCount(rest);
      assert s == rest + [last];
      assert Elements(s) == Elements(rest) + {last};
    }
  }

  lemma InPrefix(s: seq<int>, k: nat, j: nat)
    requires j < k <= |s|
    ensures s[j] in s[..k]
  {
    assert s[..k][j] == s[j];
  }

  /** The first `k` of the full sort are the best `k`. */
  lemma PrefixIsBest(r: Row, k: nat)
    requires r.Valid() && k <= |r.value|
    ensures r.All(Indices(|r.value|)) && r.All(SortBest(r, Indices(|r.value|))[..k])
    ensures Best(r, SortBest(r, Indices(|r.value|))[..k], |r.value|) && Ordered(r, SortBest(r, Indices(|r.value|))[..k])
  {
    var n := |r.value|;
    var all := SortBest(r, Indices(n));
    SortBestSorts(r, Indices(n));
    OrderedIsDistinct(r, all);
    forall x, i | 0 <= x < n && x !in all[..k] && 0 <= i < k ensures r.Better(all[..k][i], x) {
      assert Indices(n)[x] == x;
      assert x in all;
      var j: nat :| j < |all| && all[j] == x;
      if j < k { InPrefix(all, k, j); }
    }
  }

  /** No index left out has a higher value than a selected one, or the same value and the better legality, or those
      two and a lower index. */
  lemma SelectedBeatRest(r: Row, k: nat, i: nat, x: int)
    requires r.Valid() && i < k <= |r.value| && r.Has(x)
    ensures r.All(Indices(|r.value|))
    ensures var p := SortBest(r, Indices(|r.value|))[..k];
            x !in p ==>
              && r.value[p[i]] >= r.value[x]
              && (r.value[p[i]] == r.value[x] ==> r.legal[p[i]] || !r.legal[x])
              && (r.value[p[i]] == r.value[x] && r.legal[p[i]] == r.legal[x] ==> p[i] < x)
  {
    PrefixIsBest(r, k);
  }

  /** The selected indices come in that order. */
  lemma SelectedInOrder(r: Row, k: nat, i: nat, j: nat)
    requires r.Valid() && i < j < k <= |r.value|
    ensures r.All(Indices(|r.value|))
    ensures var p := SortBest(r, Indices(|r.value|))[..k];
            && r.value[p[i]] >= r.value[p[j]]
            && (r.value[p[i]] == r.value[p[j]] ==> r.legal[p[i]] || !r.legal[p[j]])
            && (r.value[p[i]] == r.value[p[j]] && r.legal[p[i]] == r.legal[p[j]] ==> p[i] < p[j])
  {
    PrefixIsBest(r, k);
  }

  /** Any ordered best selection is that prefix. */
  lemma BestIsPrefix(r: Row, s: seq<int>)
    requires r.Valid() && r.All(s) && |s| <= |r.value| && Best(r, s, |r.value|) && Ordered(r, s)
    ensures r.All(Indices(|r.value|)) && s == SortBest(r, Indices(|r.value|))[..|s|]
  {
    PrefixIsBest(r, |s|);
    var p := SortBest(r, Indices(|r.value|))[..|s|];
    BestUnique(r, s, p, |r.value|);
    BestUnique(r, p, s, |r.value|);
    OrderedUnique(r, s, p);
  }

  // ----- The heap

  /** The library's heap: no parent is better than its child, so the root is the worst. */
  ghost predicate IsHeap(r: Row, h: seq<int>)
    requires r.Valid() && r.All(h)
  {
    forall i :: 0 < i < |h| ==> AboveParent(r, h, i)
  }

  /** The element is no worse than its parent. */
  ghost predicate AboveParent(r: Row, h: seq<int>, i: nat)
    requires r.Valid() && r.All(h) && 0 < i < |h|
  {
    !r.Better(h[(i - 1) / 2], h[i])
  }

  lemma {:induction false} RootIsWorst(r: Row, h: seq<int>, i: nat)
    requires r.Valid() && r.All(h) && IsHeap(r, h) && i < |h|
    ensures h[i] == h[0] || r.Better(h[i], h[0])
  {
    if i > 0 {
      assert AboveParent(r, h, i);
      RootIsWorst(r, h, (i - 1) / 2);
      BetterIsStrictOrder(r, h[i], h[(i - 1) / 2], h[0]);
    }
  }

  function Reverse(s: seq<int>): (t: seq<int>)
    ensures |t| == |s| && forall i :: 0 <= i < |s| ==> t[i] == s[|s| - 1 - i]
  {
    seq(|s|, i requires 0 <= i < |s| => s[|s| - 1 - i])
  }

  /** std::make_heap: the same elements as a heap. Any order that meets the contract serves; this one is sorted. */
  method MakeHeap(r: Row, s: seq<int>) returns (h: seq<int>)
    requires r.Valid() && r.All(s) && Distinct(s)
    ensures |h| == |s| && r.All(h) && IsHeap(r, h) && Distinct(h) && forall x :: x in h <==> x in s
  {
    var t := SortBest(r, s);
    SortBestSorts(r, s);
    OrderedIsDistinct(r, t);
    h := Reverse(t);
    forall i | 0 < i < |h| ensures AboveParent(r, h, i) {
      BetterIsStrictOrder(r, h[(i - 1) / 2], h[i], h[i]);
      assert r.Better(t[|t| - 1 - i], t[|t| - 1 - (i - 1) / 2]);
    }
    forall x ensures x in h <==> x in t {
      if x in t { var j: nat :| j < |t| && t[j] == x; assert h[|t| - 1 - j] == x; }
    }
  }

  /** std::pop_heap: the root moves to the end, the rest is a heap again. */
  method PopHeap(r: Row, h: seq<int>) returns (p: seq<int>)
    requires r.Valid() && r.All(h) && IsHeap(r, h) && Distinct(h) && |h| > 0
    ensures |p| == |h| && p[|h| - 1] == h[0] && r.All(p) && IsHeap(r, p[..|h| - 1]) && Distinct(p)
    ensures forall x :: x in p[..|h| - 1] <==> x in h && x != h[0]
  {
    var rest := MakeHeap(r, h[1..]);
    p := rest + [h[0]];
    assert p[..|h| - 1] == rest;
    forall x ensures x in rest <==> x in h && x != h[0] {
      assert x in h <==> x == h[0] || x in h[1..];
    }
    assert h[0] !in rest;
  }

  /** std::push_heap: the last element joins the heap before it. */
  method PushHeap(r: Row, p: seq<int>) returns (h: seq<int>)
    requires r.Valid() && r.All(p) && Distinct(p) && |p| > 0 && IsHeap(r, p[..|p| - 1])
    ensures |h| == |p| && r.All(h) && IsHeap(r, h) && Distinct(h) && forall x :: x in h <==> x in p
  {
    h := MakeHeap(r, p);
  }

  // ----- The scan

  /** Replacing the root by a better candidate keeps the selection best over one more index. */
  lemma ReplacedIsBest(r: Row, h: seq<int>, g: seq<int>, n: nat)
    requires r.Valid() && r.All(h) && r.All(g) && n < |r.value| && Best(r, h, n) && IsHeap(r, h) && |h| > 0
    requires Distinct(g) && r.Better(n, h[0]) && forall x :: x in g <==> (x in h && x != h[0]) || x == n
    ensures Best(r, g, n + 1)
  {
    forall i | 0 <= i < |g| ensures g[i] < n + 1 {
      assert g[i] in g;
    }
    forall x, i | 0 <= x < n + 1 && x !in g && 0 <= i < |g| ensures r.Better(g[i], x) {
      assert g[i] in g && n in g;
      LeftOut(r, h, n, x);
      if g[i] == n {
        BetterIsStrictOrder(r, n, h[0], x);
      } else {
        var j: nat :| j < |h| && h[j] == g[i];
        RootIsWorst(r, h, j);
        BetterIsStrictOrder(r, g[i], h[0], x);
      }
    }
  }

  /** What is left out below `n` is no better than the root. */
  lemma LeftOut(r: Row, h: seq<int>, n: nat, x: int)
    requires r.Valid() && r.All(h) && n <= |r.value| && Best(r, h, n) && |h| > 0 && 0 <= x < n && (x !in h || x == h[0])
    ensures x == h[0] || r.Better(h[0], x)
  {}

  /** A candidate no better than the root is left out. */
  lemma SkippedIsBest(r: Row, h: seq<int>, n: nat)
    requires r.Valid() && r.All(h) && n < |r.value| && Best(r, h, n) && IsHeap(r, h) && |h| > 0 && !r.Better(n, h[0])
    ensures Best(r, h, n + 1)
  {
    forall i | 0 <= i < |h| ensures h[i] < n && r.Better(h[i], n) {
      RootIsWorst(r, h, i);
      BetterIsStrictOrder(r, n, h[0], n);
      BetterIsStrictOrder(r, h[i], h[0], n);
    }
    forall x, i | 0 <= x < n + 1 && x !in h && 0 <= i < |h| ensures r.Better(h[i], x) {
      assert r.Better(h[i], n);
      if x < n { assert 0 <= x < n; }
    }
  }

  /** The scan writes the first min(k, V) indices of the full sort, and -1 after them. */
  method FsdTopK(r: Row, k: int, out: array<int>)
    requires r.Valid() && out.Length == if k < 0 then 0 else k
    modifies out
    ensures r.All(Indices(|r.value|))
    ensures k > 0 && |r.value| > 0 ==> forall i :: 0 <= i < k ==>
        out[i] == if i < |r.value| then SortBest(r, Indices(|r.value|))[i] else -1
  {
    var vocab := |r.value|;
    if k <= 0 || vocab <= 0 { return; }
    var kk := if k < vocab then k else vocab;
    var heap := Indices(kk);
    heap := MakeHeap(r, heap);
    FirstIsBest(r, heap, kk);
    for candidate := kk to vocab
      invariant |heap| == kk && r.All(heap) && IsHeap(r, heap) && Best(r, heap, candidate)
    {
      if r.Better(candidate, heap[0]) {
        heap := Replace(r, heap, candidate);
      } else {
        SkippedIsBest(r, heap, candidate);
      }
    }
    var sorted := SortBest(r, heap);
    SortBestSorts(r, heap);
    SameElementsBest(r, heap, sorted, vocab);
    BestIsPrefix(r, sorted);
    for i := 0 to k
      invariant forall j :: 0 <= j < i ==> out[j] == if j < kk then sorted[j] else -1
    {
      out[i] := if i < kk then sorted[i] else -1;
    }
  }

  method Replace(r: Row, heap: seq<int>, candidate: nat) returns (g: seq<int>)
    requires r.Valid() && r.All(heap) && IsHeap(r, heap) && |heap| > 0 && candidate < |r.value|
    requires Best(r, heap, candidate) && r.Better(candidate, heap[0])
    ensures |g| == |heap| && r.All(g) && IsHeap(r, g) && Best(r, g, candidate + 1)
  {
    var p := PopHeap(r, heap);
    var last := |p| - 1;
    var q := p[last := candidate];
    assert q[..last] == p[..last] && q == p[..last] + [candidate];
    forall i | 0 <= i < last ensures q[i] < candidate && q[i] == p[i] { FromHeap(r, heap, p, i, candidate); }
    g := PushHeap(r, q);
    forall x ensures x in g <==> (x in heap && x != heap[0]) || x == candidate {
      assert x in q <==> x in p[..last] || x == candidate;
    }
    ReplacedIsBest(r, heap, g, candidate);
  }

  lemma FromHeap(r: Row, heap: seq<int>, p: seq<int>, i: nat, n: nat)
    requires r.Valid() && r.All(heap) && n <= |r.value| && Best(r, heap, n) && |p| == |heap| && i < |p| - 1
    requires forall x :: x in p[..|heap| - 1] ==> x in heap
    ensures p[i] < n
  {
    var front := p[..|heap| - 1];
    assert front[i] == p[i];
    assert front[i] in front;
    assert p[i] in heap;
    var j: nat :| j < |heap| && heap[j] == p[i];
  }

  lemma FirstIsBest(r: Row, h: seq<int>, n: nat)
    requires r.Valid() && r.All(h) && n <= |r.value| && Distinct(h) && forall x :: x in h <==> x in Indices(n)
    ensures Best(r, h, n)
  {
    forall i | 0 <= i < |h| ensures h[i] < n { assert h[i] in Indices(n); }
    forall x | 0 <= x < n ensures x in h { assert Indices(n)[x] == x; }
  }

  lemma SameElementsBest(r: Row, s: seq<int>, t: seq<int>, n: nat)
    requires r.Valid() && r.All(s) && r.All(t) && n <= |r.value| && Best(r, s, n) && Ordered(r, t)
    requires forall x :: x in s <==> x in t
    ensures Best(r, t, n)
  {
    OrderedIsDistinct(r, t);
    forall i | 0 <= i < |t| ensures t[i] in s { assert t[i] in t; }
  }
}
