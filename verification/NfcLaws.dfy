/** What normalisation does with one more character, in terms of the data tables and of the text kept so far
(src/tokenizer.cpp lines 184-258, the Hangul numbers of section 3.12 of the Unicode Standard written out). */
module NfcLaws {
  import opened Arith
  import opened Utf8
  import opened Wrappers
  import opened Nfc

  // ----- Decomposition

  /** A character outside the Hangul block is replaced by its table entry, or stays without one. */
  lemma DecomposeMore(t: Tables, p: seq<nat>, c: nat)
    requires !(0xAC00 <= c < 0xD7A4)
    ensures c in t.decomp ==> Decompose(t, p + [c]) == Decompose(t, p) + t.decomp[c]
    ensures c !in t.decomp ==> Decompose(t, p + [c]) == Decompose(t, p) + [c]
  {
    DecomposeAppend(t, p, c);
  }

  /** A Hangul syllable is replaced by its leading consonant, its vowel and, if it has one, its trailing consonant. */
  lemma DecomposeSyllable(t: Tables, p: seq<nat>, l: nat, v: nat, k: nat)
    requires l < 19 && v < 21 && k < 28
    ensures Decompose(t, p + [0xAC00 + (l * 21 + v) * 28 + k])
         == Decompose(t, p) + [0x1100 + l, 0x1161 + v] + if k == 0 then [] else [0x11A7 + k]
  {
    var s := (l * 21 + v) * 28 + k;
    SyllableDigits(l, v, k);
    SyllableOne(t, 0xAC00 + s, s, l, v, k);
    DecomposeAppend(t, p, 0xAC00 + s);
  }

  lemma DecomposeAppend(t: Tables, p: seq<nat>, c: nat)
    ensures Decompose(t, p + [c]) == Decompose(t, p) + DecomposeOne(t, c)
  {
    assert (p + [c])[..|p|] == p;
  }

  lemma SyllableOne(t: Tables, c: nat, s: nat, l: nat, v: nat, k: nat)
    requires c == 0xAC00 + s && s < 11172 && s / 588 == l && s % 588 / 28 == v && s % 28 == k
    ensures DecomposeOne(t, c) == [0x1100 + l, 0x1161 + v] + if k == 0 then [] else [0x11A7 + k]
  {}

  lemma SyllableDigits(l: nat, v: nat, k: nat)
    requires l < 19 && v < 21 && k < 28
    ensures var s := (l * 21 + v) * 28 + k; s / 588 == l && s % 588 / 28 == v && s % 28 == k && s < 11172
  {
    var s, m := (l * 21 + v) * 28 + k, v * 28 + k;
    DivUnique(s, 588, l);
    DivUnique(m, 28, v);
    DivUnique(s, 28, l * 21 + v);
  }

  // ----- Ordering

  /** Two marks after a starter change places exactly when the first has the higher class of two positive ones. */
  lemma MarksSwap(t: Tables, a: nat, m: nat, n: nat)
    requires a !in t.ccc && m in t.ccc && n in t.ccc && t.ccc[m] > 0 && t.ccc[n] > 0
    ensures CanonicalOrder(t, [a, m, n]) == if t.ccc[m] > t.ccc[n] then [a, n, m] else [a, m, n]
  {
    assert [a, m, n][..2] == [a, m] && [a, m][..1] == [a] && [a][..0] == [];
    assert CanonicalOrder(t, [a]) == [a];
    assert CanonicalOrder(t, [a, m]) == Insert(t, [a], m) == [a, m];
    assert Insert(t, [a, m][..1], n) == [a, n];
  }

  // ----- Composition

  predicate JoinsLV(x: nat, c: nat) { 0x1100 <= x < 0x1113 && 0x1161 <= c < 0x1176 }

  predicate JoinsLVT(x: nat, c: nat) { 0xAC00 <= x < 0xD7A4 && (x - 0xAC00) % 28 == 0 && 0x11A7 < c < 0x11C3 }

  /** What the kept text becomes when `c` follows and the starter at `i` is open to it. */
  ghost predicate Composed(t: Tables, kept: seq<nat>, i: nat, c: nat, kept': seq<nat>)
    requires i < |kept|
  {
    var x := kept[i];
    && (JoinsLV(x, c) ==> kept' == kept[i := 0xAC00 + ((x - 0x1100) * 21 + (c - 0x1161)) * 28])
    && (JoinsLVT(x, c) ==> kept' == kept[i := x + (c - 0x11A7)])
    && (!JoinsLV(x, c) && !JoinsLVT(x, c) && (x, c) in t.compose ==> kept' == kept[i := t.compose[(x, c)]])
    && (!JoinsLV(x, c) && !JoinsLVT(x, c) && (x, c) !in t.compose ==> kept' == kept + [c])
  }

  /** Whatever the tables: an open starter takes what the tables and the Hangul rules give it, and every other
      character is appended. */
  lemma ComposeMore(t: Tables, p: seq<nat>, c: nat)
    ensures var s, kept' := ComposeAll(t, p), ComposeAll(t, p + [c]).kept;
            && (s.starter.Some? && (s.prev == 0 || s.prev < Ccc(t, c)) ==>
                Composed(t, s.kept, s.starter.value, c, kept'))
            && (s.starter.None? || !(s.prev == 0 || s.prev < Ccc(t, c)) ==> kept' == s.kept + [c])
  {
    assert (p + [c])[..|p|] == p;
  }

  /** Starters compose to starters, as in the published data. */
  ghost predicate ComposesStarters(t: Tables) {
    && (forall pair :: pair in t.compose && Ccc(t, pair.0) == 0 ==> Ccc(t, t.compose[pair]) == 0)
    && (forall c: nat :: 0xAC00 <= c < 0xD7A4 ==> Ccc(t, c) == 0)
  }

  /** The last character of class 0. */
  predicate LastStarter(t: Tables, kept: seq<nat>, i: nat) {
    i < |kept| && Ccc(t, kept[i]) == 0 && forall j :: i < j < |kept| ==> Ccc(t, kept[j]) != 0
  }

  /** The scan's two variables are what the kept text says: its last starter and its last character's class. */
  ghost predicate Tracks(t: Tables, s: Composing) {
    && (s.starter.Some? ==> LastStarter(t, s.kept, s.starter.value))
    && (s.starter.None? ==> forall j :: 0 <= j < |s.kept| ==> Ccc(t, s.kept[j]) != 0)
    && s.prev == if s.kept == [] then 0 else Ccc(t, s.kept[|s.kept| - 1])
  }

  lemma {:induction false} ScanTracks(t: Tables, p: seq<nat>)
    requires ComposesStarters(t)
    ensures Tracks(t, ComposeAll(t, p))
  {
    if p != [] {
      var s, c := ComposeAll(t, p[..|p| - 1]), p[|p| - 1];
      ScanTracks(t, p[..|p| - 1]);
      StepTracks(t, s, c);
    }
  }

  lemma StepTracks(t: Tables, s: Composing, c: nat)
    requires ComposesStarters(t) && Sound(s) && Tracks(t, s)
    ensures Tracks(t, ComposeStep(t, s, c))
  {
    if s.starter.Some? && (s.prev == 0 || s.prev < Ccc(t, c)) {
      CompositeIsStarter(t, s.kept[s.starter.value], c);
      if Composite(t, s.kept[s.starter.value], c).None? { AppendTracks(t, s, c); }
    } else {
      AppendTracks(t, s, c);
    }
  }

  lemma AppendTracks(t: Tables, s: Composing, c: nat)
    requires Sound(s) && Tracks(t, s)
    ensures Tracks(t, Composing(s.kept + [c], if Ccc(t, c) == 0 then Some(|s.kept|) else s.starter, Ccc(t, c)))
  {}

  lemma CompositeIsStarter(t: Tables, x: nat, c: nat)
    requires ComposesStarters(t) && Ccc(t, x) == 0
    ensures Composite(t, x, c).Some? ==> Ccc(t, Composite(t, x, c).value) == 0
  {
    if JoinsLV(x, c) { LvIsBase(x - L_BASE, c - V_BASE); }
  }

  /** No character stands between the starter and what follows that has its class or a higher one. */
  predicate OpenTo(t: Tables, kept: seq<nat>, c: nat)
    requires kept != []
  {
    Ccc(t, kept[|kept| - 1]) == 0 || Ccc(t, kept[|kept| - 1]) < Ccc(t, c)
  }

  /** So a character composes with the last starter of the kept text exactly when it is open to it and has a
      composite there, and is appended unchanged otherwise. */
  lemma ComposeRule(t: Tables, p: seq<nat>, c: nat)
    requires ComposesStarters(t)
    ensures var kept, kept' := ComposeAll(t, p).kept, ComposeAll(t, p + [c]).kept;
            && (forall i: nat :: LastStarter(t, kept, i) && OpenTo(t, kept, c) ==> Composed(t, kept, i, c, kept'))
            && ((forall i: nat :: !LastStarter(t, kept, i)) || (kept != [] && !OpenTo(t, kept, c)) ==>
                kept' == kept + [c])
  {
    var s := ComposeAll(t, p);
    ScanTracks(t, p);
    ComposeMore(t, p, c);
    if s.starter.Some? { assert LastStarter(t, s.kept, s.starter.value); }
    forall i: nat | LastStarter(t, s.kept, i) ensures s.starter == Some(i) {}
  }

  // ----- Composed characters

  /** A character whose decomposition is a starter and one more character, and their composite, is its own normal
      form. */
  lemma PairRoundTrip(t: Tables, d: nat, a: nat, b: nat)
    requires !(0xAC00 <= d < 0xD7A4) && d in t.decomp && t.decomp[d] == [a, b]
    requires a !in t.ccc && (a, b) in t.compose && t.compose[(a, b)] == d && !JoinsLV(a, b) && !JoinsLVT(a, b)
    ensures Normal(t, [d]) == [d]
  {
    DecomposeMore(t, [], d);
    assert [] + [d] == [d] && Decompose(t, []) + [a, b] == [a, b];
    PairStays(t, a, b);
    PairComposes(t, a, b);
  }

  lemma PairStays(t: Tables, a: nat, b: nat)
    requires Ccc(t, a) == 0
    ensures CanonicalOrder(t, [a, b]) == [a, b]
  {
    assert [a, b][..1] == [a] && [a][..0] == [];
    assert CanonicalOrder(t, [a]) == Insert(t, [], a) == [a];
    assert Insert(t, [a], b) == [a, b];
  }

  lemma PairComposes(t: Tables, a: nat, b: nat)
    requires Ccc(t, a) == 0 && (a, b) in t.compose && !JoinsLV(a, b) && !JoinsLVT(a, b)
    ensures ComposeAll(t, [a, b]).kept == [t.compose[(a, b)]]
  {
    ComposeMore(t, [], a);
    assert [] + [a] == [a] && [a] + [b] == [a, b] && [a][..0] == [];
    assert ComposeAll(t, [a]) == Composing([a], Some(0), 0);
    ComposeMore(t, [a], b);
  }
}
