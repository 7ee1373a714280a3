/** Pre-tokenisation (src/tokenizer.cpp lines 146-156 and 260-320): the hand-written scanner takes, at every position,
exactly what the first matching alternative of the documented pattern takes. */
module Pretokenize {
  datatype Range = Range(lo: nat, hi: nat)

  datatype Classes = Classes(letter: seq<Range>, number: seq<Range>, space: seq<Range>)

  predicate InSome(r: seq<Range>, cp: nat) { exists k :: 0 <= k < |r| && r[k].lo <= cp <= r[k].hi }

  /** What the table reader accepts: ranges in order, none overlapping the next. */
  predicate Ordered(r: seq<Range>) {
    (forall k :: 0 <= k < |r| ==> r[k].lo <= r[k].hi) && forall j, k :: 0 <= j < k < |r| ==> r[j].hi < r[k].lo
  }

  /** The binary search decides membership. */
  method InRanges(cp: nat, r: seq<Range>) returns (found: bool)
    requires Ordered(r)
    ensures found <==> InSome(r, cp)
  {
    var lo, hi := 0, |r|;
    while lo < hi
      invariant 0 <= lo <= hi <= |r|
      invariant forall k :: 0 <= k < lo ==> r[k].hi < cp
      invariant forall k :: hi <= k < |r| ==> cp < r[k].lo
    {
      var m := (lo + hi) / 2;
      if cp < r[m].lo { hi := m; }
      else if cp > r[m].hi { lo := m + 1; }
      else { return true; }
    }
    found := false;
  }

  predicate Letter(u: Classes, c: nat) { InSome(u.letter, c) }

  predicate Number(u: Classes, c: nat) { InSome(u.number, c) }

  predicate Space(u: Classes, c: nat) { InSome(u.space, c) }

  predicate Newline(c: nat) { c == 13 || c == 10 }

  predicate Other(u: Classes, c: nat) { !Space(u, c) && !Letter(u, c) && !Number(u, c) }

  const BLANK: nat := 32
  const QUOTE: nat := 39

  /** A property data set that knows the blank and the two line ends. */
  predicate KnowsSpaces(u: Classes) { Space(u, BLANK) && Space(u, 10) && Space(u, 13) }

  // ----- The pattern

  function Lower(c: nat): nat { if 65 <= c <= 90 then c + 32 else if c < 128 then c else 0 }

  /** (?i:'s|'t|'re|'ve|'m|'ll|'d), over ASCII letters. */
  predicate Contraction(t: seq<nat>, i: nat, e: nat) {
    && i < e <= |t| && t[i] == QUOTE
    && ((e == i + 2 && Lower(t[i + 1]) in [115, 116, 109, 100])
        || (e == i + 3 && (Lower(t[i + 1]), Lower(t[i + 2])) in [(114, 101), (118, 101), (108, 108)]))
  }

  predicate All(p: nat -> bool, t: seq<nat>, i: nat, e: nat)
    requires i <= e <= |t|
  {
    forall k :: i <= k < e ==> p(t[k])
  }

  predicate LeadAllowed(u: Classes, c: nat) { !Newline(c) && !Letter(u, c) && !Number(u, c) }

  function Letters(u: Classes): nat -> bool { (c: nat) => Letter(u, c) }

  function Others(u: Classes): nat -> bool { (c: nat) => Other(u, c) }

  function Spaces(u: Classes): nat -> bool { (c: nat) => Space(u, c) }

  function Newlines(): nat -> bool { (c: nat) => Newline(c) }

  /** [^\r\n\p{L}\p{N}]?\p{L}+ */
  predicate Word(u: Classes, t: seq<nat>, i: nat, e: nat) {
    && i < e <= |t|
    && (All(Letters(u), t, i, e) || (LeadAllowed(u, t[i]) && i + 1 < e && All(Letters(u), t, i + 1, e)))
  }

  /** [^\s\p{L}\p{N}]+[\r\n]* from `j`. */
  predicate Symbols(u: Classes, t: seq<nat>, j: nat, e: nat) {
    j < e <= |t| && exists m :: j < m <= e && All(Others(u), t, j, m) && All(Newlines(), t, m, e)
  }

  /** \s*[\r\n]+ */
  predicate LineEnds(u: Classes, t: seq<nat>, i: nat, e: nat) {
    i < e <= |t| && exists m :: i <= m < e && All(Spaces(u), t, i, m) && All(Newlines(), t, m, e)
  }

  /** The alternatives of the pattern, in order. */
  predicate Alternative(a: nat, u: Classes, t: seq<nat>, i: nat, e: nat) {
    if a == 1 then Contraction(t, i, e)
    else if a == 2 then Word(u, t, i, e)
    else if a == 3 then i < |t| && e == i + 1 && Number(u, t[i])
    else if a == 4 then Symbols(u, t, i, e) || (i < |t| && t[i] == BLANK && Symbols(u, t, i + 1, e))
    else if a == 5 then LineEnds(u, t, i, e)
    else if a == 6 then i < e <= |t| && All(Spaces(u), t, i, e) && (e < |t| ==> Space(u, t[e]))
    else a == 7 && i < e <= |t| && All(Spaces(u), t, i, e)
  }

  predicate NoneBefore(a: nat, u: Classes, t: seq<nat>, i: nat) {
    forall b, e :: 1 <= b < a && i < e <= |t| ==> !Alternative(b, u, t, i, e)
  }

  /** What a leftmost-first, greedy match takes: the longest match of the first alternative that matches. */
  predicate Takes(a: nat, u: Classes, t: seq<nat>, i: nat, e: nat) {
    && i < e <= |t| && Alternative(a, u, t, i, e)
    && NoneBefore(a, u, t, i) && forall f :: e < f <= |t| ==> !Alternative(a, u, t, i, f)
  }

  // ----- The scanner

  method RunEnd(p: nat -> bool, t: seq<nat>, j: nat) returns (k: nat)
    requires j <= |t|
    ensures j <= k <= |t| && All(p, t, j, k) && (k < |t| ==> !p(t[k]))
  {
    k := j;
    while k < |t| && p(t[k])
      invariant j <= k <= |t| && All(p, t, j, k)
    {
      k := k + 1;
    }
  }

  /** The longest contraction at `i`, or 0. */
  method ContractionLength(t: seq<nat>, i: nat) returns (best: nat)
    requires i < |t| && t[i] == QUOTE
    ensures best > 0 ==> Contraction(t, i, i + best) && forall e :: i + best < e <= |t| ==> !Contraction(t, i, e)
    ensures best == 0 ==> forall e :: i < e <= |t| ==> !Contraction(t, i, e)
  {
    best := 0;
    if i + 1 < |t| && Lower(t[i + 1]) in [115, 116, 109, 100] { best := 2; }
    if i + 2 < |t| && (Lower(t[i + 1]), Lower(t[i + 2])) in [(114, 101), (118, 101), (108, 108)] { best := 3; }
  }

  method WordEnd(u: Classes, t: seq<nat>, i: nat) returns (e: nat)
    requires i < |t|
    ensures e > 0 ==> Word(u, t, i, e) && forall f :: e < f <= |t| ==> !Word(u, t, i, f)
    ensures e == 0 ==> forall f :: i < f <= |t| ==> !Word(u, t, i, f)
  {
    var j := i;
    if !Newline(t[i]) && !Letter(u, t[i]) && !Number(u, t[i]) && i + 1 < |t| && Letter(u, t[i + 1]) { j := i + 1; }
    if Letter(u, t[j]) {
      e := RunEnd(Letters(u), t, j);
      assert Letters(u)(t[j]);
      LongestWord(u, t, i, j, e);
    } else {
      e := 0;
      forall f | i < f <= |t| ensures !Word(u, t, i, f) { NoWord(u, t, i, f); }
    }
  }

  lemma LongestWord(u: Classes, t: seq<nat>, i: nat, j: nat, e: nat)
    requires i <= j < e <= |t| && All(Letters(u), t, j, e) && (e < |t| ==> !Letters(u)(t[e]))
    requires j == i || (j == i + 1 && LeadAllowed(u, t[i]))
    ensures Word(u, t, i, e) && forall f :: e < f <= |t| ==> !Word(u, t, i, f)
  {
    assert e < |t| ==> !Letters(u)(t[e]);
  }

  lemma NoWord(u: Classes, t: seq<nat>, i: nat, f: nat)
    requires i < f <= |t| && !Letter(u, t[i]) && !(LeadAllowed(u, t[i]) && i + 1 < |t| && Letter(u, t[i + 1]))
    ensures !Word(u, t, i, f)
  {
    assert !Letters(u)(t[i]);
    assert i + 1 < |t| ==> Letters(u)(t[i + 1]) == Letter(u, t[i + 1]);
  }

  method SymbolsEnd(u: Classes, t: seq<nat>, j: nat) returns (e: nat)
    requires j < |t|
    ensures e > 0 ==> Symbols(u, t, j, e) && forall f :: e < f <= |t| ==> !Symbols(u, t, j, f)
    ensures e == 0 ==> !Other(u, t[j])
  {
    if !Other(u, t[j]) { return 0; }
    var k := RunEnd(Others(u), t, j);
    e := RunEnd(Newlines(), t, k);
    assert Others(u)(t[j]);
    assert j < k <= e && All(Others(u), t, j, k) && All(Newlines(), t, k, e);
    forall f | e < f <= |t| ensures !Symbols(u, t, j, f) { LongestSymbols(u, t, j, k, e, f); }
  }

  lemma LongestSymbols(u: Classes, t: seq<nat>, j: nat, k: nat, e: nat, f: nat)
    requires j < k <= e < f <= |t| && All(Others(u), t, j, k) && All(Newlines(), t, k, e)
    requires !Others(u)(t[k]) && !Newlines()(t[e])
    ensures !Symbols(u, t, j, f)
  {
    forall m | j < m <= f ensures !(All(Others(u), t, j, m) && All(Newlines(), t, m, f)) {
      assert (m > k ==> j <= k < m) && (m <= k ==> m <= e < f);
    }
  }

  /** The last newline of a run of spaces, or none. */
  method LastNewline(t: seq<nat>, i: nat, k: nat) returns (found: bool, last: nat)
    requires i <= k <= |t|
    ensures found ==> i <= last < k && Newline(t[last]) && forall p :: last < p < k ==> !Newline(t[p])
    ensures !found ==> forall p :: i <= p < k ==> !Newline(t[p])
  {
    found, last := false, 0;
    var p := i;
    while p < k
      invariant i <= p <= k
      invariant found ==> i <= last < p && Newline(t[last]) && forall q :: last < q < p ==> !Newline(t[q])
      invariant !found ==> forall q :: i <= q < p ==> !Newline(t[q])
    {
      if Newline(t[p]) { found, last := true, p; }
      p := p + 1;
    }
  }

  method SpaceEnd(u: Classes, t: seq<nat>, i: nat) returns (e: nat, ghost a: nat)
    requires i < |t| && Space(u, t[i]) && KnowsSpaces(u)
    ensures 5 <= a <= 7 && i < e <= |t| && Alternative(a, u, t, i, e)
    ensures forall b, f :: 5 <= b < a && i < f <= |t| ==> !Alternative(b, u, t, i, f)
    ensures forall f :: e < f <= |t| ==> !Alternative(a, u, t, i, f)
  {
    var k := RunEnd(Spaces(u), t, i);
    assert Spaces(u)(t[i]);
    var found, last := LastNewline(t, i, k);
    if found {
      e, a := last + 1, 5;
      assert All(Spaces(u), t, i, last) && All(Newlines(), t, last, e);
      forall f | e < f <= |t| ensures !LineEnds(u, t, i, f) { LongestLineEnds(u, t, i, k, e, f); }
      return;
    }
    forall f | i < f <= |t| ensures !LineEnds(u, t, i, f) { LongestLineEnds(u, t, i, k, i, f); }
    if k < |t| && k - i > 1 {
      e, a := k - 1, 6;
      assert Spaces(u)(t[e]);
      forall f | e < f <= |t| ensures !Alternative(6, u, t, i, f) { PastRun(u, t, i, k, f); }
    } else if k < |t| {
      e, a := k, 7;
      forall f | i < f <= |t| ensures !Alternative(6, u, t, i, f) { PastRun(u, t, i, k, f); }
      forall f | e < f <= |t| ensures !Alternative(7, u, t, i, f) { PastRun(u, t, i, k, f); }
    } else {
      e, a := k, 6;
    }
  }

  lemma LongestLineEnds(u: Classes, t: seq<nat>, i: nat, k: nat, e: nat, f: nat)
    requires i < k <= |t| && i <= e <= k && e < f <= |t| && KnowsSpaces(u)
    requires k < |t| ==> !Spaces(u)(t[k])
    requires forall p :: e <= p < k ==> !Newline(t[p])
    ensures !LineEnds(u, t, i, f)
  {
    assert k < |t| ==> !Newlines()(t[k]);
    forall m | i <= m < f ensures !(All(Spaces(u), t, i, m) && All(Newlines(), t, m, f)) {
      if f - 1 < k { assert !Newlines()(t[f - 1]); }
    }
  }

  lemma PastRun(u: Classes, t: seq<nat>, i: nat, k: nat, f: nat)
    requires i < k < |t| && i < f <= |t| && !Spaces(u)(t[k])
    ensures f > k ==> !All(Spaces(u), t, i, f)
    ensures f == k ==> !Space(u, t[f])
  {
    assert f == k ==> !Spaces(u)(t[f]);
  }

  /** Where one turn ends. The code's last branch, one character for want of anything else, cannot be reached: every
      character is a letter, a number, a space or one of the others. */
  method PieceEnd(u: Classes, t: seq<nat>, i: nat) returns (e: nat, ghost a: nat)
    requires i < |t| && KnowsSpaces(u)
    ensures 1 <= a <= 7 && Takes(a, u, t, i, e)
  {
    if t[i] == QUOTE {
      var best := ContractionLength(t, i);
      if best > 0 { return i + best, 1; }
    }
    e := WordEnd(u, t, i);
    a := 2;
    if e > 0 { return; }
    if Number(u, t[i]) { return i + 1, 3; }
    NotNumber(u, t, i);
    var j := if t[i] == BLANK then i + 1 else i;
    if j < |t| {
      e := SymbolsEnd(u, t, j);
      if e > 0 {
        a := 4;
        SymbolsTaken(u, t, i, j, e);
        return;
      }
    }
    assert !Letters(u)(t[i]) by { assert !Word(u, t, i, i + 1); }
    NoSymbols(u, t, i);
    e, a := SpaceEnd(u, t, i);
    forall b, f | 1 <= b < a && i < f <= |t| ensures !Alternative(b, u, t, i, f) {
      if b == 3 { assert !Number(u, t[i]); }
    }
  }

  lemma NotNumber(u: Classes, t: seq<nat>, i: nat)
    requires i < |t| && !Number(u, t[i])
    ensures forall f :: i < f <= |t| ==> !Alternative(3, u, t, i, f)
  {}

  lemma BlankIsNotOther(u: Classes, t: seq<nat>, i: nat, f: nat)
    requires i < f <= |t| && !Other(u, t[i])
    ensures !Symbols(u, t, i, f)
  {
    assert !Others(u)(t[i]);
  }

  lemma SymbolsTaken(u: Classes, t: seq<nat>, i: nat, j: nat, e: nat)
    requires i < |t| && KnowsSpaces(u) && j == (if t[i] == BLANK then i + 1 else i) && j < |t|
    requires Symbols(u, t, j, e) && forall f :: e < f <= |t| ==> !Symbols(u, t, j, f)
    ensures Alternative(4, u, t, i, e) && forall f :: e < f <= |t| ==> !Alternative(4, u, t, i, f)
  {
    forall f | e < f <= |t| ensures !Alternative(4, u, t, i, f) {
      if t[i] == BLANK { BlankIsNotOther(u, t, i, f); }
    }
  }

  lemma NoSymbols(u: Classes, t: seq<nat>, i: nat)
    requires i < |t| && KnowsSpaces(u) && !Letter(u, t[i]) && !Number(u, t[i])
    requires var j := if t[i] == BLANK then i + 1 else i; j < |t| ==> !Other(u, t[j])
    ensures Space(u, t[i])
    ensures forall f :: i < f <= |t| ==> !Alternative(4, u, t, i, f)
  {
    forall f | i < f <= |t| ensures !Alternative(4, u, t, i, f) {
      BlankIsNotOther(u, t, i, f);
      if t[i] == BLANK && i + 1 < f { BlankIsNotOther(u, t, i + 1, f); }
    }
  }

  datatype Piece = Piece(start: nat, end: nat)

  /** Pieces from `i` on: non-empty, end to end, up to the end of the text. */
  predicate Tiles(pieces: seq<Piece>, i: nat, n: nat)
    decreases |pieces|
  {
    if pieces == [] then i == n
    else pieces[0].start == i && i < pieces[0].end <= n && Tiles(pieces[1..], pieces[0].end, n)
  }

  /** Every piece is what the pattern takes at its start. */
  predicate AllTaken(u: Classes, t: seq<nat>, pieces: seq<Piece>) {
    forall k :: 0 <= k < |pieces| ==> Taken(u, t, pieces[k])
  }

  predicate Taken(u: Classes, t: seq<nat>, p: Piece) { exists a :: 1 <= a <= 7 && Takes(a, u, t, p.start, p.end) }

  /** One turn of the scan emits what the pattern takes there. */
  method NextPiece(u: Classes, t: seq<nat>, i: nat) returns (p: Piece)
    requires i < |t| && KnowsSpaces(u)
    ensures p.start == i < p.end <= |t| && Taken(u, t, p)
  {
    var e, a := PieceEnd(u, t, i);
    assert Takes(a, u, t, i, e);
    p := Piece(i, e);
  }

  method Scan(u: Classes, t: seq<nat>) returns (pieces: seq<Piece>)
    requires KnowsSpaces(u)
    ensures Tiles(pieces, 0, |t|) && AllTaken(u, t, pieces)
  {
    pieces := [];
    var i := 0;
    while i < |t|
      invariant 0 <= i <= |t| && Tiles(pieces, 0, i) && AllTaken(u, t, pieces)
    {
      var p := NextPiece(u, t, i);
      TilesMore(pieces, 0, i, p.end);
      pieces := pieces + [p];
      i := p.end;
    }
  }

  lemma {:induction false} TilesMore(pieces: seq<Piece>, i: nat, j: nat, e: nat)
    requires Tiles(pieces, i, j) && j < e
    ensures Tiles(pieces + [Piece(j, e)], i, e)
    decreases |pieces|
  {
    if pieces != [] {
      TilesMore(pieces[1..], pieces[0].end, j, e);
      assert (pieces + [Piece(j, e)])[1..] == pieces[1..] + [Piece(j, e)];
    }
  }

  /** The pattern fixes the pieces: two tilings of a text by what it takes are the same. */
  lemma {:induction false} PiecesAreUnique(u: Classes, t: seq<nat>, p: seq<Piece>, q: seq<Piece>, i: nat)
    requires Tiles(p, i, |t|) && Tiles(q, i, |t|) && AllTaken(u, t, p) && AllTaken(u, t, q)
    ensures p == q
    decreases |p|
  {
    if p == [] {
      assert q == [] by { if q != [] { assert false; } }
    } else {
      assert q != [];
      TakenOnce(u, t, p[0], q[0]);
      TakenRest(u, t, p);
      TakenRest(u, t, q);
      PiecesAreUnique(u, t, p[1..], q[1..], p[0].end);
    }
  }

  lemma TakenRest(u: Classes, t: seq<nat>, p: seq<Piece>)
    requires p != [] && AllTaken(u, t, p)
    ensures AllTaken(u, t, p[1..])
  {
    forall k | 0 <= k < |p[1..]| ensures Taken(u, t, p[1..][k]) { assert p[1..][k] == p[k + 1]; }
  }

  lemma TakenOnce(u: Classes, t: seq<nat>, p: Piece, q: Piece)
    requires p.start == q.start
    requires Taken(u, t, p) && Taken(u, t, q)
    ensures p == q
  {
    var a :| 1 <= a <= 7 && Takes(a, u, t, p.start, p.end);
    var b :| 1 <= b <= 7 && Takes(b, u, t, q.start, q.end);
    assert a == b;
  }
}
