/** Normalisation (src/tokenizer.cpp lines 184-258): decomposition, canonical ordering in place, composition. The
Unicode data are parameters. */
module Nfc {
  import opened Arith
  import opened Utf8
  import opened Wrappers

  const S_BASE: nat := 0xAC00
  const L_BASE: nat := 0x1100
  const V_BASE: nat := 0x1161
  const T_BASE: nat := 0x11A7
  const L_COUNT: nat := 19
  const V_COUNT: nat := 21
  const T_COUNT: nat := 28
  const N_COUNT: nat := 588
  const S_COUNT: nat := 11172

  datatype Tables = Tables(ccc: map<nat, nat>, decomp: map<nat, seq<nat>>, compose: map<(nat, nat), nat>)

  function Ccc(t: Tables, cp: nat): nat { if cp in t.ccc then t.ccc[cp] else 0 }

  /** Data sets over Unicode scalar values. */
  predicate OverScalars(t: Tables) {
    && (forall cp :: cp in t.decomp ==> AllScalar(t.decomp[cp]))
    && (forall pair :: pair in t.compose ==> IsScalar(t.compose[pair]))
  }

  predicate IsSyllable(cp: nat) { S_BASE <= cp < S_BASE + S_COUNT }

  // ----- Decomposition

  function DecomposeOne(t: Tables, cp: nat): seq<nat> {
    if IsSyllable(cp) then
      var s := cp - S_BASE;
      [L_BASE + s / N_COUNT, V_BASE + s % N_COUNT / T_COUNT] + (if s % T_COUNT != 0 then [T_BASE + s % T_COUNT] else [])
    else if cp in t.decomp then t.decomp[cp]
    else [cp]
  }

  function Decompose(t: Tables, s: seq<nat>): seq<nat> {
    if s == [] then [] else Decompose(t, s[..|s| - 1]) + DecomposeOne(t, s[|s| - 1])
  }

  method DecomposeAll(t: Tables, s: seq<nat>) returns (out: seq<nat>)
    ensures out == Decompose(t, s)
  {
    out := [];
    for i := 0 to |s|
      invariant out == Decompose(t, s[..i])
    {
      assert s[..i + 1][..i] == s[..i];
      out := out + DecomposeOne(t, s[i]);
    }
    assert s[..|s|] == s;
  }

  // ----- Canonical ordering

  /** Whether `x` moves before `y` when it follows it. */
  predicate Passes(t: Tables, y: nat, x: nat) { Ccc(t, x) > 0 && Ccc(t, y) > Ccc(t, x) }

  function Insert(t: Tables, p: seq<nat>, x: nat): (r: seq<nat>)
    ensures |r| == |p| + 1
  {
    if p != [] && Passes(t, p[|p| - 1], x) then Insert(t, p[..|p| - 1], x) + [p[|p| - 1]] else p + [x]
  }

  function CanonicalOrder(t: Tables, s: seq<nat>): (r: seq<nat>)
    ensures |r| == |s|
  {
    if s == [] then [] else Insert(t, CanonicalOrder(t, s[..|s| - 1]), s[|s| - 1])
  }

  /** No mark is left after one of a higher class. */
  predicate Ordered(t: Tables, s: seq<nat>) { forall j :: 0 <= j < |s| - 1 ==> !Passes(t, s[j], s[j + 1]) }

  /** The characters of class 0 or `c`, in order. */
  function Project(t: Tables, s: seq<nat>, c: nat): seq<nat> {
    if s == [] then []
    else
      var front, last := Project(t, s[..|s| - 1], c), s[|s| - 1];
      if Ccc(t, last) == 0 || Ccc(t, last) == c then front + [last] else front
  }

  lemma {:induction false} InsertKeepsOrder(t: Tables, p: seq<nat>, x: nat)
    requires Ordered(t, p)
    ensures Ordered(t, Insert(t, p, x))
    ensures var r := Insert(t, p, x); r[|r| - 1] == x || (p != [] && r[|r| - 1] == p[|p| - 1])
  {
    if p != [] && Passes(t, p[|p| - 1], x) {
      var front, last := p[..|p| - 1], p[|p| - 1];
      InsertKeepsOrder(t, front, x);
      var r := Insert(t, front, x);
      assert !Passes(t, r[|r| - 1], last) by {
        if r[|r| - 1] != x { assert !Passes(t, p[|p| - 2], p[|p| - 2 + 1]); }
      }
    }
  }

  lemma ProjectAppend(t: Tables, s: seq<nat>, x: nat, c: nat)
    ensures Project(t, s + [x], c) == Project(t, s, c) + if Ccc(t, x) == 0 || Ccc(t, x) == c then [x] else []
  {
    assert (s + [x])[..|s|] == s;
  }

  lemma {:induction false} InsertKeepsProjection(t: Tables, p: seq<nat>, x: nat, c: nat)
    ensures Project(t, Insert(t, p, x), c) == Project(t, p + [x], c)
  {
    ProjectAppend(t, p, x, c);
    if p != [] && Passes(t, p[|p| - 1], x) {
      var front, last := p[..|p| - 1], p[|p| - 1];
      InsertKeepsProjection(t, front, x, c);
      ProjectAppend(t, front, x, c);
      ProjectAppend(t, Insert(t, front, x), last, c);
    }
  }

  lemma {:induction false} InsertPermutes(t: Tables, p: seq<nat>, x: nat)
    ensures multiset(Insert(t, p, x)) == multiset(p) + multiset{x}
  {
    if p != [] && Passes(t, p[|p| - 1], x) {
      InsertPermutes(t, p[..|p| - 1], x);
      assert p == p[..|p| - 1] + [p[|p| - 1]];
    }
  }

  lemma {:induction false} CanonicalOrderPermutes(t: Tables, s: seq<nat>)
    ensures multiset(CanonicalOrder(t, s)) == multiset(s)
  {
    if s != [] {
      var front, last := s[..|s| - 1], s[|s| - 1];
      CanonicalOrderPermutes(t, front);
      InsertPermutes(t, CanonicalOrder(t, front), last);
      assert multiset(s) == multiset(front) + multiset{last} by { assert s == front + [last]; }
    }
  }

  /** The canonical ordering leaves no mark after one of a higher class, moves no starter, and keeps marks of one
      class between two starters in their order. */
  lemma {:induction false} CanonicalOrderSorts(t: Tables, s: seq<nat>, c: nat)
    ensures Ordered(t, CanonicalOrder(t, s))
    ensures Project(t, CanonicalOrder(t, s), c) == Project(t, s, c)
  {
    if s != [] {
      var front, last := s[..|s| - 1], s[|s| - 1];
      CanonicalOrderSorts(t, front, c);
      InsertKeepsOrder(t, CanonicalOrder(t, front), last);
      InsertKeepsProjection(t, CanonicalOrder(t, front), last, c);
      ProjectAppend(t, CanonicalOrder(t, front), last, c);
    }
  }

  /** Where the last character of a projection stands when it is a mark. */
  lemma {:induction false} LastOfProjection(t: Tables, s: seq<nat>, c: nat) returns (m: nat)
    requires c > 0 && Project(t, s, c) != [] && Ccc(t, Project(t, s, c)[|Project(t, s, c)| - 1]) == c
    ensures m < |s| && Ccc(t, s[m]) == c && forall k :: m < k < |s| ==> Ccc(t, s[k]) != 0
  {
    var last := s[|s| - 1];
    if Ccc(t, last) == c { m := |s| - 1; }
    else {
      m := LastOfProjection(t, s[..|s| - 1], c);
    }
  }

  lemma {:induction false} ClassesRise(t: Tables, s: seq<nat>, m: nat)
    requires Ordered(t, s) && m < |s| && forall k :: m < k < |s| ==> Ccc(t, s[k]) != 0
    ensures Ccc(t, s[m]) <= Ccc(t, s[|s| - 1])
    decreases |s| - m
  {
    if m < |s| - 1 {
      assert !Passes(t, s[m], s[m + 1]);
      ClassesRise(t, s, m + 1);
    }
  }

  lemma LastNotBelow(t: Tables, a: seq<nat>, b: seq<nat>)
    requires a != [] && b != [] && Ordered(t, a) && Ccc(t, b[|b| - 1]) > 0 && Ccc(t, a[|a| - 1]) > 0
    requires Project(t, a, Ccc(t, b[|b| - 1])) == Project(t, b, Ccc(t, b[|b| - 1]))
    ensures Ccc(t, b[|b| - 1]) <= Ccc(t, a[|a| - 1])
  {
    var m := LastOfProjection(t, a, Ccc(t, b[|b| - 1]));
    ClassesRise(t, a, m);
  }

  /** Those properties fix the order: it is the only one. */
  lemma {:induction false} OrderIsUnique(t: Tables, a: seq<nat>, b: seq<nat>)
    requires Ordered(t, a) && Ordered(t, b) && |a| == |b| && forall c: nat :: Project(t, a, c) == Project(t, b, c)
    ensures a == b
  {
    if a != [] {
      var x, y := a[|a| - 1], b[|b| - 1];
      var a', b' := a[..|a| - 1], b[..|b| - 1];
      SameLast(t, a, b);
      forall c: nat ensures Project(t, a', c) == Project(t, b', c) {
        assert Project(t, a, c) == Project(t, b, c);
        ProjectFront(t, a, c);
        ProjectFront(t, b, c);
      }
      OrderIsUnique(t, a', b');
      assert a == a' + [x] && b == b' + [y];
    }
  }

  lemma SameLast(t: Tables, a: seq<nat>, b: seq<nat>)
    requires Ordered(t, a) && Ordered(t, b) && a != [] && b != []
        && forall c: nat :: Project(t, a, c) == Project(t, b, c)
    ensures a[|a| - 1] == b[|b| - 1]
  {
    var x, y := a[|a| - 1], b[|b| - 1];
    assert Project(t, a, Ccc(t, x)) == Project(t, b, Ccc(t, x)) && Project(t, a, Ccc(t, y)) == Project(t, b, Ccc(t, y));
    ProjectFront(t, a, Ccc(t, x));
    ProjectFront(t, b, Ccc(t, y));
    if Ccc(t, x) > 0 && Ccc(t, y) > 0 {
      LastNotBelow(t, a, b);
      LastNotBelow(t, b, a);
    }
    ProjectFront(t, a, Ccc(t, y));
    ProjectFront(t, b, Ccc(t, x));
  }

  lemma ProjectFront(t: Tables, s: seq<nat>, c: nat)
    requires s != []
    ensures var p, last := Project(t, s, c), s[|s| - 1];
            if Ccc(t, last) == 0
                || Ccc(t, last) == c then p != [] && p[|p| - 1] == last && p[..|p| - 1] == Project(t, s[..|s| - 1], c)
            else p == Project(t, s[..|s| - 1], c)
  {}

  /** An element that passes everything from `j` on lands at `j`, if it does not pass what is before. */
  lemma {:induction false} InsertLands(t: Tables, p: seq<nat>, x: nat, j: nat)
    requires j <= |p| && (forall k :: j <= k < |p| ==> Passes(t, p[k], x)) && (j > 0 ==> !Passes(t, p[j - 1], x))
    ensures Insert(t, p, x) == p[..j] + [x] + p[j..]
  {
    if j == |p| { assert p[..j] == p && p[j..] == []; }
    else {
      var k := |p| - 1;
      InsertLands(t, p[..k], x, j);
      assert p[..k][..j] == p[..j] && p[j..] == p[..k][j..] + [p[k]];
    }
  }

  /** One element moved back to its place by swaps. */
  method SinkBack(t: Tables, cps: array<nat>, i: nat)
    requires i < cps.Length
    modifies cps
    ensures cps[..i + 1] == Insert(t, old(cps[..i]), old(cps[i])) && cps[i + 1..] == old(cps[i + 1..])
  {
    ghost var p, x := cps[..i], cps[i];
    var cc := Ccc(t, cps[i]);
    var j := i;
    if cc > 0 {
      while j > 0
        invariant 0 <= j <= i && cps[j] == x
        invariant forall k :: 0 <= k < j ==> cps[k] == p[k]
        invariant forall k :: j < k <= i ==> cps[k] == p[k - 1] && Passes(t, p[k - 1], x)
        invariant cps[i + 1..] == old(cps[i + 1..])
      {
        var pc := Ccc(t, cps[j - 1]);
        if !(pc > 0 && pc > cc) { break; }
        cps[j - 1], cps[j] := cps[j], cps[j - 1];
        j := j - 1;
      }
    }
    forall k | j <= k < i ensures Passes(t, p[k], x) { assert cps[k + 1] == p[k + 1 - 1]; }
    InsertLands(t, p, x, j);
    assert cps[..i + 1] == p[..j] + [x] + p[j..];
  }

  method CanonicalOrderInPlace(t: Tables, cps: array<nat>)
    modifies cps
    ensures cps[..] == CanonicalOrder(t, old(cps[..]))
  {
    ghost var s := cps[..];
    var i := 0;
    while i < cps.Length
      invariant 0 <= i <= cps.Length && cps[..i] == CanonicalOrder(t, s[..i]) && cps[i..] == s[i..]
    {
      assert cps[i..][0] == cps[i] && s[i..][0] == s[i];
      assert cps[i + 1..] == cps[i..][1..] && s[i + 1..] == s[i..][1..];
      assert s[..i + 1][..i] == s[..i];
      SinkBack(t, cps, i);
      i := i + 1;
    }
    assert s[..i] == s && cps[..i] == cps[..];
  }

  // ----- Composition

  /** The primary composite of a starter and a following character. */
  function Composite(t: Tables, s: nat, cp: nat): Option<nat> {
    if L_BASE <= s < L_BASE + L_COUNT && V_BASE <= cp < V_BASE + V_COUNT then
      Some(S_BASE + ((s - L_BASE) * V_COUNT + (cp - V_BASE)) * T_COUNT)
    else if IsSyllable(s) && (s - S_BASE) % T_COUNT == 0 && T_BASE < cp < T_BASE + T_COUNT then Some(s + (cp - T_BASE))
    else if (s, cp) in t.compose then Some(t.compose[(s, cp)])
    else None
  }

  /** The scan's state: what has been kept, the last starter's position in it, and the last kept class. */
  datatype Composing = Composing(kept: seq<nat>, starter: Option<nat>, prev: nat)

  predicate Sound(c: Composing) { c.starter.Some? ==> c.starter.value < |c.kept| }

  function ComposeStep(t: Tables, c: Composing, cp: nat): (r: Composing)
    requires Sound(c)
    ensures Sound(r) && |c.kept| <= |r.kept| <= |c.kept| + 1
  {
    var cc := Ccc(t, cp);
    var composite := if c.starter.Some? && (c.prev == 0 || c.prev < cc) then Composite(t, c.kept[c.starter.value], cp)
        else None;
    if composite.Some? then c.(kept := c.kept[c.starter.value := composite.value])
    else Composing(c.kept + [cp], if cc == 0 then Some(|c.kept|) else c.starter, cc)
  }

  function ComposeAll(t: Tables, s: seq<nat>): (r: Composing)
    ensures Sound(r) && |r.kept| <= |s|
  {
    if s == [] then Composing([], None, 0) else ComposeStep(t, ComposeAll(t, s[..|s| - 1]), s[|s| - 1])
  }

  method ComposePass(t: Tables, s: seq<nat>) returns (result: seq<nat>)
    ensures result == ComposeAll(t, s).kept
  {
    if s == [] { return []; }
    result := [s[0]];
    var lastStarter: Option<nat> := if Ccc(t, s[0]) == 0 then Some(0) else None;
    var prev := Ccc(t, s[0]);
    assert s[..1][..0] == [];
    var i := 1;
    while i < |s|
      invariant 1 <= i <= |s| && Composing(result, lastStarter, prev) == ComposeAll(t, s[..i])
    {
      assert s[..i + 1][..i] == s[..i];
      var cp := s[i];
      var cc := Ccc(t, cp);
      i := i + 1;
      if lastStarter.Some? && (prev == 0 || prev < cc) {
        var composite := Composite(t, result[lastStarter.value], cp);
        if composite.Some? {
          result := result[lastStarter.value := composite.value];
          continue;
        }
      }
      result := result + [cp];
      if cc == 0 { lastStarter := Some(|result| - 1); }
      prev := cc;
    }
    assert s[..i] == s;
  }

  function Normal(t: Tables, s: seq<nat>): seq<nat> { ComposeAll(t, CanonicalOrder(t, Decompose(t, s))).kept }

  method Normalize(t: Tables, s: seq<nat>) returns (out: seq<nat>)
    ensures out == Normal(t, s)
  {
    var decomposed := DecomposeAll(t, s);
    var cps := new nat[|decomposed|](i requires 0 <= i < |decomposed| => decomposed[i]);
    assert cps[..] == decomposed;
    CanonicalOrderInPlace(t, cps);
    out := ComposePass(t, cps[..]);
  }

  // ----- What the passes keep

  lemma SyllableParts(cp: nat)
    requires IsSyllable(cp)
    ensures var s := cp - S_BASE;
            var l, v, k := s / N_COUNT, s % N_COUNT / T_COUNT, s % T_COUNT;
            l < L_COUNT && v < V_COUNT && k < T_COUNT && s == (l * V_COUNT + v) * T_COUNT + k
  {
    var s := cp - S_BASE;
    assert s == s / N_COUNT * N_COUNT + s % N_COUNT;
    var m := s % N_COUNT;
    assert m == m / T_COUNT * T_COUNT + m % T_COUNT;
    assert (s / N_COUNT * V_COUNT) * T_COUNT == s / N_COUNT * N_COUNT;
    assert m % T_COUNT == s % T_COUNT;
  }

  /** Every precomposed Hangul syllable is its own normal form: composition undoes decomposition. */
  lemma SyllableRoundTrip(t: Tables, cp: nat)
    requires IsSyllable(cp)
    requires forall j: nat :: L_BASE <= j < L_BASE + 0x100 || IsSyllable(j) ==> Ccc(t, j) == 0
    ensures Normal(t, [cp]) == [cp]
  {
    var s := cp - S_BASE;
    SyllableParts(cp);
    SyllableFrom(t, cp, s / N_COUNT, s % N_COUNT / T_COUNT, s % T_COUNT);
  }

  lemma SyllableFrom(t: Tables, cp: nat, l: nat, v: nat, k: nat)
    requires l < L_COUNT && v < V_COUNT && k < T_COUNT && cp == S_BASE + (l * V_COUNT + v) * T_COUNT + k
    requires forall j: nat :: L_BASE <= j < L_BASE + 0x100 || IsSyllable(j) ==> Ccc(t, j) == 0
    requires DecomposeOne(t, cp) == [L_BASE + l, V_BASE + v] + if k != 0 then [T_BASE + k] else []
    ensures Normal(t, [cp]) == [cp]
  {
    DecomposeSingle(t, cp);
    StartersStay(t, DecomposeOne(t, cp));
    JamoCompose(t, l, v, k, DecomposeOne(t, cp));
  }

  lemma DecomposeSingle(t: Tables, cp: nat)
    ensures Decompose(t, [cp]) == DecomposeOne(t, cp)
  {
    assert [cp][..0] == [];
  }

  lemma JamoCompose(t: Tables, l: nat, v: nat, k: nat, d: seq<nat>)
    requires l < L_COUNT && v < V_COUNT && k < T_COUNT
    requires forall j: nat :: L_BASE <= j < L_BASE + 0x100 || IsSyllable(j) ==> Ccc(t, j) == 0
    requires d == [L_BASE + l, V_BASE + v] + if k != 0 then [T_BASE + k] else []
    ensures ComposeAll(t, d).kept == [S_BASE + (l * V_COUNT + v) * T_COUNT + k]
  {
    var a, b, lv := L_BASE + l, V_BASE + v, S_BASE + (l * V_COUNT + v) * T_COUNT;
    TwoSteps(t, a, b, lv);
    LvIsBase(l, v);
    if k == 0 { assert d == [a, b]; }
    else {
      assert d[..2] == [a, b];
      ThirdStep(t, lv, T_BASE + k);
    }
  }

  lemma ThirdStep(t: Tables, lv: nat, c: nat)
    requires IsSyllable(lv) && (lv - S_BASE) % T_COUNT == 0 && T_BASE < c < T_BASE + T_COUNT
    ensures ComposeStep(t, Composing([lv], Some(0), 0), c).kept == [lv + (c - T_BASE)]
  {
    assert Composite(t, lv, c) == Some(lv + (c - T_BASE));
  }

  lemma LvIsBase(l: nat, v: nat)
    requires l < L_COUNT && v < V_COUNT
    ensures var x := (l * V_COUNT + v) * T_COUNT; x < S_COUNT && x % T_COUNT == 0
  {
    var n := l * V_COUNT + v;
    assert n < L_COUNT * V_COUNT;
    DivAddMultiple(0, n, T_COUNT);
  }

  lemma TwoSteps(t: Tables, a: nat, b: nat, lv: nat)
    requires L_BASE <= a < L_BASE + L_COUNT && V_BASE <= b < V_BASE + V_COUNT && Ccc(t, a) == Ccc(t, b) == 0
    requires lv == S_BASE + ((a - L_BASE) * V_COUNT + (b - V_BASE)) * T_COUNT
    ensures ComposeAll(t, [a, b]) == Composing([lv], Some(0), 0)
  {
    assert [a, b][..1] == [a] && [a][..0] == [];
    assert ComposeAll(t, [a]) == Composing([a], Some(0), 0);
  }

  lemma {:induction false} StartersStay(t: Tables, s: seq<nat>)
    requires forall k :: 0 <= k < |s| ==> Ccc(t, s[k]) == 0
    ensures CanonicalOrder(t, s) == s
  {
    if s != [] {
      StartersStay(t, s[..|s| - 1]);
      assert s == s[..|s| - 1] + [s[|s| - 1]];
    }
  }

  lemma DecomposeOneScalar(t: Tables, cp: nat)
    requires OverScalars(t) && IsScalar(cp)
    ensures AllScalar(DecomposeOne(t, cp))
  {
    if IsSyllable(cp) { SyllableParts(cp); }
  }

  lemma {:induction false} DecomposeScalar(t: Tables, s: seq<nat>)
    requires OverScalars(t) && AllScalar(s)
    ensures AllScalar(Decompose(t, s))
  {
    if s != [] {
      DecomposeScalar(t, s[..|s| - 1]);
      DecomposeOneScalar(t, s[|s| - 1]);
    }
  }

  lemma {:induction false} ComposeScalar(t: Tables, s: seq<nat>)
    requires OverScalars(t) && AllScalar(s)
    ensures AllScalar(ComposeAll(t, s).kept)
  {
    if s != [] {
      var c, cp := ComposeAll(t, s[..|s| - 1]), s[|s| - 1];
      ComposeScalar(t, s[..|s| - 1]);
      if c.starter.Some? { CompositeScalar(t, c.kept[c.starter.value], cp); }
    }
  }

  lemma CompositeScalar(t: Tables, s: nat, cp: nat)
    requires OverScalars(t)
    ensures var c := Composite(t, s, cp); c.Some? ==> IsScalar(c.value)
  {
    if L_BASE <= s < L_BASE + L_COUNT && V_BASE <= cp < V_BASE + V_COUNT { LvIsBase(s - L_BASE, cp - V_BASE); }
    else if IsSyllable(s) && (s - S_BASE) % T_COUNT == 0 && T_BASE < cp < T_BASE + T_COUNT { LastOfBlock(s - S_BASE); }
  }

  lemma LastOfBlock(x: nat)
    requires x < S_COUNT && x % T_COUNT == 0
    ensures x + T_COUNT <= S_COUNT
  {}

  /** Scalar values normalise to scalar values, and never to more of them than the decomposition has. */
  lemma NormalScalar(t: Tables, s: seq<nat>)
    requires OverScalars(t) && AllScalar(s)
    ensures AllScalar(Normal(t, s)) && |Normal(t, s)| <= |Decompose(t, s)|
  {
    DecomposeScalar(t, s);
    var d := Decompose(t, s);
    var o := CanonicalOrder(t, d);
    CanonicalOrderPermutes(t, d);
    forall k | 0 <= k < |o| ensures IsScalar(o[k]) {
      assert o[k] in multiset(o);
      assert o[k] in multiset(d);
    }
    ComposeScalar(t, o);
  }
}
