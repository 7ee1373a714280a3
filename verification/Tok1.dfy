/** The tokenizer blob: the converter's writer (tools/convert_tokenizer.py lines 461-487) and the runtime's reader
(src/tokenizer.cpp lines 403-522). */
module Tok1 {
  import opened Arith
  import opened Wrappers
  import opened Utf8
  import Bpe
  import T = Tokenizer

  const MAGIC: seq<Byte> := [0x54, 0x4F, 0x4B, 0x31]
  /** The header and the 256 byte ids. */
  const FRONT: nat := 1048
  const MAX_VOCAB: nat := 0x7FFF_FFFF

  datatype Triple = Triple(left: nat, right: nat, merged: nat)

  datatype Table = Table(byteToId: seq<nat>, tokens: seq<seq<Byte>>, merges: seq<Triple>, specials: seq<T.Special>)

  // ----- Words

  predicate AreWords(ws: seq<nat>) { forall i :: 0 <= i < |ws| ==> ws[i] < 0x1_0000_0000 }

  predicate Below(ws: seq<nat>, bound: nat) { forall i :: 0 <= i < |ws| ==> ws[i] < bound }

  function WordBytes(x: nat): (r: seq<Byte>)
    requires x < 0x1_0000_0000
    ensures |r| == 4
  {
    [LowByte(x), LowByte(x / 0x100), LowByte(x / 0x1_0000), LowByte(x / 0x100_0000)]
  }

  function LowByte(x: nat): Byte { x % 0x100 }

  function WordAt(d: seq<Byte>, p: nat): (x: nat)
    requires p + 4 <= |d|
    ensures x < 0x1_0000_0000
  {
    LittleEndian(d[p], d[p + 1], d[p + 2], d[p + 3])
  }

  function LittleEndian(b0: int, b1: int, b2: int, b3: int): int {
    b0 + b1 * 0x100 + b2 * 0x1_0000 + b3 * 0x100_0000
  }

  /** `s` stands at `p`. */
  predicate At(d: seq<Byte>, p: nat, s: seq<Byte>) { p + |s| <= |d| && d[p..p + |s|] == s }

  lemma AtSplit(d: seq<Byte>, p: nat, a: seq<Byte>, b: seq<Byte>)
    requires At(d, p, a + b)
    ensures At(d, p, a) && At(d, p + |a|, b)
  {
    var s := d[p..p + |a + b|];
    assert d[p..p + |a|] == s[..|a|] == a;
    assert d[p + |a|..p + |a| + |b|] == s[|a|..] == b;
  }

  lemma WordReads(d: seq<Byte>, p: nat, x: nat)
    requires x < 0x1_0000_0000 && At(d, p, WordBytes(x))
    ensures p + 4 <= |d| && WordAt(d, p) == x
  {
    var w := d[p..p + 4];
    assert d[p] == w[0] && d[p + 1] == w[1] && d[p + 2] == w[2] && d[p + 3] == w[3];
    BytesOfWord(x);
  }

  lemma BytesOfWord(x: nat)
    requires x < 0x1_0000_0000
    ensures x / 0x100_0000 < 0x100
    ensures LittleEndian(LowByte(x), LowByte(x / 0x100), LowByte(x / 0x1_0000), LowByte(x / 0x100_0000)) == x
  {
    var q, r := x / 0x100, x / 0x1_0000;
    DivDiv(x, 0x100, 0x100);
    DivDiv(x, 0x1_0000, 0x100);
    DivBounds(x, 0x100);
    DivBounds(q, 0x100);
    DivBounds(r, 0x100);
  }

  function WordsAt(d: seq<Byte>, p: nat, n: nat): (r: seq<nat>)
    requires p + 4 * n <= |d|
    ensures |r| == n && AreWords(r)
  {
    seq(n, i requires 0 <= i < n => WordAt(d, p + 4 * i))
  }

  function Flat(ws: seq<nat>): (r: seq<Byte>)
    requires AreWords(ws)
    ensures |r| == 4 * |ws|
  {
    if ws == [] then [] else Flat(ws[..|ws| - 1]) + WordBytes(ws[|ws| - 1])
  }

  lemma {:induction false} FlatReads(d: seq<Byte>, p: nat, ws: seq<nat>)
    requires AreWords(ws) && At(d, p, Flat(ws))
    ensures p + 4 * |ws| <= |d| && WordsAt(d, p, |ws|) == ws
  {
    if ws != [] {
      var k := |ws| - 1;
      AtSplit(d, p, Flat(ws[..k]), WordBytes(ws[k]));
      FlatReads(d, p, ws[..k]);
      WordReads(d, p + 4 * k, ws[k]);
      WordsNext(d, p, k);
      assert ws == ws[..k] + [ws[k]];
    }
  }

  lemma WordsNext(d: seq<Byte>, p: nat, k: nat)
    requires p + 4 * (k + 1) <= |d|
    ensures WordsAt(d, p, k + 1) == WordsAt(d, p, k) + [WordAt(d, p + 4 * k)]
  {}

  // ----- Tables of byte strings

  function Join(parts: seq<seq<Byte>>): seq<Byte> {
    if parts == [] then [] else Join(parts[..|parts| - 1]) + parts[|parts| - 1]
  }

  function Offsets(parts: seq<seq<Byte>>): (r: seq<nat>)
    ensures |r| == |parts| + 1
  {
    seq(|parts| + 1, i requires 0 <= i <= |parts| => |Join(parts[..i])|)
  }

  predicate CutAt(offs: seq<nat>, len: nat, i: nat) { i + 1 < |offs| ==> offs[i] <= offs[i + 1] <= len }

  predicate Cuts(offs: seq<nat>, len: nat) { forall i :: 0 <= i < |offs| - 1 ==> CutAt(offs, len, i) }

  function Cut(blob: seq<Byte>, offs: seq<nat>, i: nat): seq<Byte>
    requires i + 1 < |offs| && CutAt(offs, |blob|, i)
  {
    blob[offs[i]..offs[i + 1]]
  }

  function PartsOf(blob: seq<Byte>, offs: seq<nat>): (r: seq<seq<Byte>>)
    requires |offs| > 0 && Cuts(offs, |blob|)
    ensures |r| == |offs| - 1
  {
    seq(|offs| - 1, i requires 0 <= i < |offs| - 1 => Cut(blob, offs, i))
  }

  lemma {:induction false} JoinPrefix(parts: seq<seq<Byte>>, i: nat)
    requires i <= |parts|
    ensures |Join(parts[..i])| <= |Join(parts)| && Join(parts)[..|Join(parts[..i])|] == Join(parts[..i])
  {
    if i == |parts| { assert parts[..i] == parts; }
    else {
      var front := parts[..|parts| - 1];
      JoinPrefix(front, i);
      assert front[..i] == parts[..i];
    }
  }

  lemma JoinNext(parts: seq<seq<Byte>>, i: nat)
    requires i < |parts|
    ensures Join(parts[..i + 1]) == Join(parts[..i]) + parts[i]
  {
    assert parts[..i + 1][..i] == parts[..i];
  }

  /** Cutting the joined strings at their offsets gives them back. */
  lemma PartsRoundTrip(parts: seq<seq<Byte>>)
    ensures Cuts(Offsets(parts), |Join(parts)|) && PartsOf(Join(parts), Offsets(parts)) == parts
  {
    forall i | 0 <= i < |parts|
      ensures CutAt(Offsets(parts), |Join(parts)|, i) && Cut(Join(parts), Offsets(parts), i) == parts[i]
    {
      PartIsCut(parts, i);
    }
  }

  lemma PartIsCut(parts: seq<seq<Byte>>, i: nat)
    requires i < |parts|
    ensures CutAt(Offsets(parts), |Join(parts)|, i) && Cut(Join(parts), Offsets(parts), i) == parts[i]
  {
    var a, b := Join(parts[..i]), Join(parts[..i + 1]);
    JoinNext(parts, i);
    JoinPrefix(parts, i + 1);
    assert Join(parts)[|a|..|b|] == Join(parts)[..|b|][|a|..];
  }

  /** The strings an offset table cuts from a blob are no longer than the blob. */
  lemma {:induction false} PartsFit(blob: seq<Byte>, offs: seq<nat>)
    requires |offs| > 0 && Cuts(offs, |blob|)
    ensures |Join(PartsOf(blob, offs))| + offs[0] == offs[|offs| - 1]
    ensures |offs| > 1 ==> offs[|offs| - 1] <= |blob|
  {
    var n := |offs| - 1;
    if n > 0 {
      FrontCuts(blob, offs);
      PartsFit(blob, offs[..n]);
      assert CutAt(offs, |blob|, n - 1);
      JoinNext(PartsOf(blob, offs), n - 1);
      assert PartsOf(blob, offs)[..n] == PartsOf(blob, offs);
    }
  }

  lemma FrontCuts(blob: seq<Byte>, offs: seq<nat>)
    requires |offs| > 1 && Cuts(offs, |blob|)
    ensures Cuts(offs[..|offs| - 1], |blob|)
    ensures PartsOf(blob, offs)[..|offs| - 2] == PartsOf(blob, offs[..|offs| - 1])
  {
    var front := offs[..|offs| - 1];
    forall i | 0 <= i < |front| - 1
      ensures CutAt(front, |blob|, i) && Cut(blob, front, i) == PartsOf(blob, offs)[i]
    {
      assert CutAt(offs, |blob|, i);
    }
  }

  /** An offset table, its blob's length and the blob. */
  function PartBytes(parts: seq<seq<Byte>>): (r: seq<Byte>)
    requires |Join(parts)| < 0x1_0000_0000
    ensures |r| == 4 * |parts| + 8 + |Join(parts)|
  {
    OffsetsAreWords(parts);
    Flat(Offsets(parts)) + WordBytes(|Join(parts)|) + Join(parts)
  }

  lemma OffsetsAreWords(parts: seq<seq<Byte>>)
    requires |Join(parts)| < 0x1_0000_0000
    ensures AreWords(Offsets(parts))
  {
    forall i | 0 <= i <= |parts| ensures Offsets(parts)[i] < 0x1_0000_0000 { JoinPrefix(parts, i); }
  }

  datatype Parts = Parts(parts: seq<seq<Byte>>, next: nat)

  /** Reads `n` byte strings at `p`. */
  function PartsAt(d: seq<Byte>, p: nat, n: nat): (r: Option<Parts>) {
    if |d| < p + 4 * (n + 1) + 4 then None
    else
      var offs := WordsAt(d, p, n + 1);
      var blob := p + 4 * (n + 1) + 4;
      var len := WordAt(d, blob - 4);
      if |d| < blob + len || !Cuts(offs, len) then None
      else Some(Parts(PartsOf(d[blob..blob + len], offs), blob + len))
  }

  lemma PartsRead(d: seq<Byte>, p: nat, parts: seq<seq<Byte>>, next: nat)
    requires |Join(parts)| < 0x1_0000_0000 && At(d, p, PartBytes(parts)) && next == p + |PartBytes(parts)|
    ensures PartsAt(d, p, |parts|) == Some(Parts(parts, next))
  {
    OffsetsAreWords(parts);
    var q := p + 4 * (|parts| + 1);
    TableRead(d, p, parts, Offsets(parts), |Join(parts)|, Join(parts), q, q + 4, next);
  }

  lemma TableRead(d: seq<Byte>, p: nat, parts: seq<seq<Byte>>, offs: seq<nat>, len: nat, bytes: seq<Byte>, q: nat,
                  r: nat, next: nat)
    requires offs == Offsets(parts) && bytes == Join(parts) && len == |bytes| && AreWords(offs) && len < 0x1_0000_0000
    requires At(d, p, Flat(offs) + WordBytes(len) + bytes) && q == p + 4 * |offs| && r == q + 4 && next == r + len
    ensures PartsAt(d, p, |parts|) == Some(Parts(parts, next))
  {
    ThreeRead(d, p, offs, len, bytes, q, r);
    PartsRoundTrip(parts);
    PartsAtIs(d, p, parts, offs, len, bytes, q, r, next);
  }

  /** Offsets, a length and a blob, read back one after the other. */
  lemma ThreeRead(d: seq<Byte>, p: nat, offs: seq<nat>, len: nat, bytes: seq<Byte>, q: nat, r: nat)
    requires AreWords(offs) && len < 0x1_0000_0000 && At(d, p, Flat(offs) + WordBytes(len) + bytes)
    requires q == p + 4 * |offs| && r == q + 4
    ensures r <= |d| && WordsAt(d, p, |offs|) == offs && WordAt(d, q) == len && At(d, r, bytes)
  {
    AtThree(d, p, Flat(offs), WordBytes(len), bytes, q, r);
    FlatReads(d, p, offs);
    WordReads(d, q, len);
  }

  lemma AtThree(d: seq<Byte>, p: nat, a: seq<Byte>, b: seq<Byte>, c: seq<Byte>, q: nat, r: nat)
    requires At(d, p, a + b + c) && q == p + |a| && r == q + |b|
    ensures At(d, p, a) && At(d, q, b) && At(d, r, c)
  {
    AtSplit(d, p, a + b, c);
    AtSplit(d, p, a, b);
  }

  lemma PartsAtIs(d: seq<Byte>, p: nat, parts: seq<seq<Byte>>, offs: seq<nat>, len: nat, bytes: seq<Byte>, q: nat,
                  r: nat, next: nat)
    requires |offs| == |parts| + 1 && len == |bytes| && q == p + 4 * |offs| && r == q + 4 && next == r + len
    requires r <= |d| && At(d, r, bytes) && WordsAt(d, p, |offs|) == offs && WordAt(d, q) == len
    requires Cuts(offs, len) && PartsOf(bytes, offs) == parts
    ensures PartsAt(d, p, |parts|) == Some(Parts(parts, next))
  {}

  lemma PartsSound(d: seq<Byte>, p: nat, n: nat)
    requires PartsAt(d, p, n).Some?
    ensures var r := PartsAt(d, p, n).value;
            |r.parts| == n && |Join(r.parts)| < 0x1_0000_0000 && p <= r.next <= |d|
  {
    var blob := p + 4 * (n + 1) + 4;
    PartsFit(d[blob..blob + WordAt(d, blob - 4)], WordsAt(d, p, n + 1));
    assert |PartsAt(d, p, n).value.parts| == n;
  }

  // ----- Merges and specials

  function TripleWords(ts: seq<Triple>): (r: seq<nat>)
    ensures |r| == 3 * |ts|
  {
    if ts == [] then []
    else
      var t := ts[|ts| - 1];
      TripleWords(ts[..|ts| - 1]) + [t.left, t.right, t.merged]
  }

  function TripleAt(ws: seq<nat>, k: nat): Triple
    requires 3 * k + 2 < |ws|
  {
    Triple(ws[3 * k], ws[3 * k + 1], ws[3 * k + 2])
  }

  function TriplesAt(d: seq<Byte>, p: nat, n: nat): (r: seq<Triple>)
    requires p + 12 * n <= |d|
    ensures |r| == n
  {
    seq(n, k requires 0 <= k < n => TripleAt(WordsAt(d, p, 3 * n), k))
  }

  lemma {:induction false} TripleWordsAt(ts: seq<Triple>, k: nat)
    requires k < |ts|
    ensures TripleAt(TripleWords(ts), k) == ts[k]
  {
    if k < |ts| - 1 {
      TripleWordsAt(ts[..|ts| - 1], k);
    }
  }

  predicate TripleWithin(t: Triple, bound: nat) { t.left < bound && t.right < bound && t.merged < bound }

  predicate TriplesWithin(ts: seq<Triple>, bound: nat) {
    forall k :: 0 <= k < |ts| ==> TripleWithin(ts[k], bound)
  }

  lemma {:induction false} TripleWordsBelow(ts: seq<Triple>, bound: nat)
    requires TriplesWithin(ts, bound)
    ensures Below(TripleWords(ts), bound)
  {
    if ts != [] { TripleWordsBelow(ts[..|ts| - 1], bound); }
  }

  function Ids(specials: seq<T.Special>): (r: seq<nat>)
    ensures |r| == |specials|
  {
    seq(|specials|, k requires 0 <= k < |specials| => specials[k].id)
  }

  function Contents(specials: seq<T.Special>): (r: seq<seq<Byte>>)
    ensures |r| == |specials|
  {
    seq(|specials|, k requires 0 <= k < |specials| => specials[k].content)
  }

  function Specials(ids: seq<nat>, contents: seq<seq<Byte>>): (r: seq<T.Special>)
    requires |ids| == |contents|
    ensures |r| == |ids|
  {
    seq(|ids|, k requires 0 <= k < |ids| => T.Special(contents[k], ids[k]))
  }

  /** Each content is at least as long as the next: what the reader checks. */
  predicate NeverLonger(parts: seq<seq<Byte>>) { forall i :: 0 <= i < |parts| - 1 ==> |parts[i]| >= |parts[i + 1]| }

  lemma {:induction false} NeverLongerAcross(parts: seq<seq<Byte>>, j: nat, k: nat)
    requires NeverLonger(parts) && j <= k < |parts|
    ensures |parts[j]| >= |parts[k]|
    decreases k - j
  {
    if j < k { NeverLongerAcross(parts, j, k - 1); }
  }

  lemma NeverLongerIsLongestFirst(specials: seq<T.Special>)
    ensures NeverLonger(Contents(specials)) <==> T.LongestFirst(specials)
  {
    var parts := Contents(specials);
    if NeverLonger(parts) {
      forall j, k | 0 <= j < k < |specials| ensures |specials[j].content| >= |specials[k].content| {
        NeverLongerAcross(parts, j, k);
        assert parts[j] == specials[j].content && parts[k] == specials[k].content;
      }
    }
    if T.LongestFirst(specials) {
      forall i | 0 <= i < |parts| - 1 ensures |parts[i]| >= |parts[i + 1]| {
        assert parts[i] == specials[i].content && parts[i + 1] == specials[i + 1].content;
      }
    }
  }

  // ----- The reader, as a function of the blob

  predicate HeaderAccepted(d: seq<Byte>) {
    && |d| >= 24 && d[..4] == MAGIC && WordAt(d, 4) == 1 && WordAt(d, 20) == 0
    && 0 < WordAt(d, 8) <= MAX_VOCAB
  }

  function Parsed(d: seq<Byte>): (r: Option<Table>) {
    if !HeaderAccepted(d) || |d| < FRONT || !Below(WordsAt(d, 24, 256), WordAt(d, 8)) then None
    else
      var tokens := PartsAt(d, FRONT, WordAt(d, 8));
      if tokens.None? then None else ParsedMerges(d, tokens.value)
  }

  function ParsedMerges(d: seq<Byte>, tokens: Parts): (r: Option<Table>)
    requires |d| >= FRONT
  {
    var vocab, merge := WordAt(d, 8), WordAt(d, 12);
    if |d| < tokens.next + 12 * merge || !TriplesWithin(TriplesAt(d, tokens.next, merge), vocab) then None
    else
      var specials := SpecialsAt(d, tokens.next + 12 * merge, WordAt(d, 16), vocab);
      if specials.None? then None
      else Some(Table(WordsAt(d, 24, 256), tokens.parts, TriplesAt(d, tokens.next, merge), specials.value))
  }

  function SpecialsAt(d: seq<Byte>, p: nat, n: nat, vocab: nat): (r: Option<seq<T.Special>>) {
    if |d| < p + 4 * n || !Below(WordsAt(d, p, n), vocab) then None
    else
      var contents := PartsAt(d, p + 4 * n, n);
      if contents.None? then None
      else
        PartsSound(d, p + 4 * n, n);
        if NeverLonger(contents.value.parts) then Some(Specials(WordsAt(d, p, n), contents.value.parts)) else None
  }

  // ----- The writer, as a function of the table

  /** Every number the writer packs fits its 32-bit field. */
  predicate Packs(t: Table) {
    && |t.byteToId| == 256 && AreWords(t.byteToId)
    && |t.tokens| < 0x1_0000_0000 && |t.merges| < 0x1_0000_0000 && |t.specials| < 0x1_0000_0000
    && |Join(t.tokens)| < 0x1_0000_0000 && TriplesWithin(t.merges, 0x1_0000_0000)
    && AreWords(Ids(t.specials)) && |Join(Contents(t.specials))| < 0x1_0000_0000
  }

  function Header(t: Table): (r: seq<Byte>)
    requires Packs(t)
    ensures |r| == 24
  {
    MAGIC + WordBytes(1) + WordBytes(|t.tokens|) + WordBytes(|t.merges|) + WordBytes(|t.specials|) + WordBytes(0)
  }

  function TripleBytes(ts: seq<Triple>): (r: seq<Byte>)
    requires TriplesWithin(ts, 0x1_0000_0000)
    ensures |r| == 12 * |ts|
  {
    TripleWordsBelow(ts, 0x1_0000_0000);
    Flat(TripleWords(ts))
  }

  function Serialized(t: Table): (d: seq<Byte>)
    requires Packs(t)
  {
    Header(t) + Flat(t.byteToId) + PartBytes(t.tokens) + TripleBytes(t.merges) + Flat(Ids(t.specials))
    + PartBytes(Contents(t.specials))
  }

  // ----- Writing, then reading

  /** What the reader demands of a table. */
  predicate Loadable(t: Table) {
    && |t.byteToId| == 256 && 0 < |t.tokens| <= MAX_VOCAB
    && Below(t.byteToId, |t.tokens|) && TriplesWithin(t.merges, |t.tokens|) && Below(Ids(t.specials), |t.tokens|)
    && T.LongestFirst(t.specials)
  }

  lemma HeaderReads(d: seq<Byte>, t: Table)
    requires Packs(t) && At(d, 0, Header(t))
    ensures |d| >= 24 && d[..4] == MAGIC
    ensures WordAt(d, 4) == 1 && WordAt(d, 8) == |t.tokens| && WordAt(d, 12) == |t.merges|
    ensures WordAt(d, 16) == |t.specials| && WordAt(d, 20) == 0
  {
    var h1 := MAGIC + WordBytes(1);
    var h2 := h1 + WordBytes(|t.tokens|);
    var h3 := h2 + WordBytes(|t.merges|);
    var h4 := h3 + WordBytes(|t.specials|);
    AtSplit(d, 0, h4, WordBytes(0));
    AtSplit(d, 0, h3, WordBytes(|t.specials|));
    AtSplit(d, 0, h2, WordBytes(|t.merges|));
    AtSplit(d, 0, h1, WordBytes(|t.tokens|));
    AtSplit(d, 0, MAGIC, WordBytes(1));
    WordReads(d, 4, 1);
    WordReads(d, 8, |t.tokens|);
    WordReads(d, 12, |t.merges|);
    WordReads(d, 16, |t.specials|);
    WordReads(d, 20, 0);
  }

  lemma TriplesRead(d: seq<Byte>, p: nat, ts: seq<Triple>)
    requires TriplesWithin(ts, 0x1_0000_0000) && At(d, p, TripleBytes(ts))
    ensures TriplesAt(d, p, |ts|) == ts
  {
    TripleWordsBelow(ts, 0x1_0000_0000);
    FlatReads(d, p, TripleWords(ts));
    forall k | 0 <= k < |ts| ensures TriplesAt(d, p, |ts|)[k] == ts[k] { TripleWordsAt(ts, k); }
  }

  lemma SpecialsRead(d: seq<Byte>, p: nat, specials: seq<T.Special>, vocab: nat, q: nat)
    requires AreWords(Ids(specials)) && |Join(Contents(specials))| < 0x1_0000_0000 && q == p + 4 * |specials|
    requires At(d, p, Flat(Ids(specials))) && At(d, q, PartBytes(Contents(specials)))
    ensures SpecialsAt(d, p, |specials|, vocab)
         == if Below(Ids(specials), vocab) && T.LongestFirst(specials) then Some(specials) else None
  {
    FlatReads(d, p, Ids(specials));
    var next := q + |PartBytes(Contents(specials))|;
    PartsRead(d, q, Contents(specials), next);
    SpecialsAtIs(d, p, Ids(specials), Contents(specials), vocab, q, next);
    NeverLongerIsLongestFirst(specials);
    SpecialsApart(specials);
  }

  lemma SpecialsAtIs(d: seq<Byte>, p: nat, ids: seq<nat>, contents: seq<seq<Byte>>, vocab: nat, q: nat, next: nat)
    requires |ids| == |contents| && q == p + 4 * |ids| <= |d| && WordsAt(d, p, |ids|) == ids
    requires PartsAt(d, q, |ids|) == Some(Parts(contents, next))
    ensures SpecialsAt(d, p, |ids|, vocab)
         == if Below(ids, vocab) && NeverLonger(contents) then Some(Specials(ids, contents)) else None
  {}

  lemma SpecialsApart(specials: seq<T.Special>)
    ensures Specials(Ids(specials), Contents(specials)) == specials
  {}

  /** Where the writer's pieces stand. */
  datatype Marks = Marks(tokens: nat, merges: nat, ids: nat, contents: nat)

  predicate Stands(d: seq<Byte>, t: Table, m: Marks)
    requires Packs(t)
  {
    && At(d, 0, Header(t)) && At(d, 24, Flat(t.byteToId)) && At(d, m.tokens, PartBytes(t.tokens))
    && At(d, m.merges, TripleBytes(t.merges)) && At(d, m.ids, Flat(Ids(t.specials)))
    && At(d, m.contents, PartBytes(Contents(t.specials)))
  }

  predicate Follow(t: Table, m: Marks)
    requires Packs(t)
  {
    && m.tokens == FRONT && m.merges == m.tokens + |PartBytes(t.tokens)| && m.ids == m.merges + 12 * |t.merges|
    && m.contents == m.ids + 4 * |t.specials|
  }

  lemma PiecesStand(d: seq<Byte>, p0: seq<Byte>, p1: seq<Byte>, p2: seq<Byte>, p3: seq<Byte>, p4: seq<Byte>,
                    p5: seq<Byte>, q1: nat, q2: nat, q3: nat, q4: nat, q5: nat)
    requires d == p0 + p1 + p2 + p3 + p4 + p5
    requires q1 == |p0| && q2 == q1 + |p1| && q3 == q2 + |p2| && q4 == q3 + |p3| && q5 == q4 + |p4|
    ensures At(d, 0, p0) && At(d, q1, p1) && At(d, q2, p2) && At(d, q3, p3) && At(d, q4, p4) && At(d, q5, p5)
  {
    assert d[0..|d|] == d;
    AtSplit(d, 0, p0 + p1 + p2 + p3 + p4, p5);
    AtSplit(d, 0, p0 + p1 + p2 + p3, p4);
    AtSplit(d, 0, p0 + p1 + p2, p3);
    AtSplit(d, 0, p0 + p1, p2);
    AtSplit(d, 0, p0, p1);
  }

  lemma SerializedStands(t: Table, m: Marks)
    requires Packs(t) && Follow(t, m)
    ensures Stands(Serialized(t), t, m)
  {
    PiecesStand(Serialized(t), Header(t), Flat(t.byteToId), PartBytes(t.tokens), TripleBytes(t.merges),
                Flat(Ids(t.specials)), PartBytes(Contents(t.specials)), 24, m.tokens, m.merges, m.ids, m.contents);
  }

  /** Reading what the writer wrote gives the table back exactly when the table meets the reader's demands, and a
      rejection otherwise. */
  lemma ParsesIffLoadable(t: Table)
    requires Packs(t)
    ensures Parsed(Serialized(t)) == if Loadable(t) then Some(t) else None
  {
    var merges := FRONT + |PartBytes(t.tokens)|;
    var ids := merges + 12 * |t.merges|;
    var m := Marks(FRONT, merges, ids, ids + 4 * |t.specials|);
    SerializedStands(t, m);
    StandingParses(Serialized(t), t, m);
  }

  lemma StandingParses(d: seq<Byte>, t: Table, m: Marks)
    requires Packs(t) && Follow(t, m) && Stands(d, t, m)
    ensures Parsed(d) == if Loadable(t) then Some(t) else None
  {
    HeaderReads(d, t);
    FlatReads(d, 24, t.byteToId);
    PartsRead(d, FRONT, t.tokens, m.merges);
    MergesParse(d, Parts(t.tokens, m.merges), t, m);
    FrontParses(d, t.byteToId, Parts(t.tokens, m.merges), |t.tokens|);
  }

  lemma MergesParse(d: seq<Byte>, tokens: Parts, t: Table, m: Marks)
    requires Packs(t) && Follow(t, m) && Stands(d, t, m) && tokens == Parts(t.tokens, m.merges)
    requires |d| >= FRONT && WordsAt(d, 24, 256) == t.byteToId
    requires WordAt(d, 8) == |t.tokens| && WordAt(d, 12) == |t.merges| && WordAt(d, 16) == |t.specials|
    ensures ParsedMerges(d, tokens)
         == if TriplesWithin(t.merges, |t.tokens|) && Below(Ids(t.specials), |t.tokens|) && T.LongestFirst(t.specials)
            then Some(t) else None
  {
    TriplesRead(d, m.merges, t.merges);
    SpecialsRead(d, m.ids, t.specials, |t.tokens|, m.contents);
    MergesAtIs(d, tokens, t.merges, m.ids, SpecialsAt(d, m.ids, |t.specials|, |t.tokens|));
  }

  lemma MergesAtIs(d: seq<Byte>, tokens: Parts, triples: seq<Triple>, p: nat, specials: Option<seq<T.Special>>)
    requires |d| >= FRONT && |triples| == WordAt(d, 12) && p == tokens.next + 12 * |triples| <= |d|
    requires TriplesAt(d, tokens.next, |triples|) == triples
    requires SpecialsAt(d, p, WordAt(d, 16), WordAt(d, 8)) == specials
    ensures ParsedMerges(d, tokens)
         == if TriplesWithin(triples, WordAt(d, 8)) && specials.Some?
            then Some(Table(WordsAt(d, 24, 256), tokens.parts, triples, specials.value)) else None
  {}

  lemma FrontParses(d: seq<Byte>, ids: seq<nat>, tokens: Parts, vocab: nat)
    requires |d| >= FRONT && d[..4] == MAGIC && WordAt(d, 4) == 1 && WordAt(d, 20) == 0 && WordAt(d, 8) == vocab
    requires WordsAt(d, 24, 256) == ids && PartsAt(d, FRONT, vocab) == Some(tokens)
    ensures Parsed(d) == if 0 < vocab <= MAX_VOCAB && Below(ids, vocab) then ParsedMerges(d, tokens) else None
  {}

  /** Every accepted blob gives a table whose ids index the vocabulary, with its specials longest first. */
  lemma AcceptedIsLoadable(d: seq<Byte>)
    requires Parsed(d).Some?
    ensures Loadable(Parsed(d).value) && Packs(Parsed(d).value)
  {
    var vocab := WordAt(d, 8);
    var tokens := PartsAt(d, FRONT, vocab).value;
    PartsSound(d, FRONT, vocab);
    MergesSound(d, tokens);
  }

  lemma MergesSound(d: seq<Byte>, tokens: Parts)
    requires |d| >= FRONT && ParsedMerges(d, tokens).Some?
    ensures var t, vocab := ParsedMerges(d, tokens).value, WordAt(d, 8);
            && t.byteToId == WordsAt(d, 24, 256) && t.tokens == tokens.parts && TriplesWithin(t.merges, vocab)
            && |t.merges| < 0x1_0000_0000 && |t.specials| < 0x1_0000_0000 && AreWords(Ids(t.specials))
            && Below(Ids(t.specials), vocab) && T.LongestFirst(t.specials)
                && |Join(Contents(t.specials))| < 0x1_0000_0000
  {
    var p := tokens.next + 12 * WordAt(d, 12);
    SpecialsSound(d, p, WordAt(d, 16), WordAt(d, 8));
    MergesAtIs(d, tokens, TriplesAt(d, tokens.next, WordAt(d, 12)), p, SpecialsAt(d, p, WordAt(d, 16), WordAt(d, 8)));
  }

  lemma SpecialsSound(d: seq<Byte>, p: nat, n: nat, vocab: nat)
    requires SpecialsAt(d, p, n, vocab).Some?
    ensures var r := SpecialsAt(d, p, n, vocab).value;
            && |r| == n && AreWords(Ids(r)) && Below(Ids(r), vocab) && T.LongestFirst(r)
            && |Join(Contents(r))| < 0x1_0000_0000
  {
    PartsSound(d, p + 4 * n, n);
    ApartSpecials(WordsAt(d, p, n), PartsAt(d, p + 4 * n, n).value.parts);
    NeverLongerIsLongestFirst(SpecialsAt(d, p, n, vocab).value);
  }

  lemma ApartSpecials(ids: seq<nat>, contents: seq<seq<Byte>>)
    requires |ids| == |contents|
    ensures Ids(Specials(ids, contents)) == ids && Contents(Specials(ids, contents)) == contents
  {}

  /** Rewriting an accepted blob's table gives a blob that reads back as the same table. */
  lemma RewriteReadsBack(d: seq<Byte>)
    requires Parsed(d).Some?
    ensures Packs(Parsed(d).value) && Parsed(Serialized(Parsed(d).value)) == Parsed(d)
  {
    AcceptedIsLoadable(d);
    ParsesIffLoadable(Parsed(d).value);
  }

  /** A word's bytes, the lowest first. */
  lemma WordIsLittleEndian(d: seq<Byte>, p: nat)
    requires p + 4 <= |d|
    ensures var b0: int, b1: int, b2: int, b3: int := d[p], d[p + 1], d[p + 2], d[p + 3];
            WordAt(d, p) == b0 + 256 * b1 + 65536 * b2 + 16777216 * b3
  {}

  /** The format's fixed part: marker, version, the three counts, a zero, and the byte ids. */
  lemma FixedPart(t: Table, b: nat)
    requires Packs(t) && b < 256
    ensures var d := Serialized(t);
            && |d| >= 1048 && d[0] == 'T' as int && d[1] == 'O' as int && d[2] == 'K' as int && d[3] == '1' as int
            && WordAt(d, 4) == 1 && WordAt(d, 8) == |t.tokens| && WordAt(d, 12) == |t.merges|
            && WordAt(d, 16) == |t.specials| && WordAt(d, 20) == 0 && WordAt(d, 24 + 4 * b) == t.byteToId[b]
  {
    var merges := FRONT + |PartBytes(t.tokens)|;
    var ids := merges + 12 * |t.merges|;
    SerializedStands(t, Marks(FRONT, merges, ids, ids + 4 * |t.specials|));
    FixedPartStands(Serialized(t), t, b);
  }

  lemma FixedPartStands(d: seq<Byte>, t: Table, b: nat)
    requires Packs(t) && b < 256 && At(d, 0, Header(t)) && At(d, 24, Flat(t.byteToId))
    ensures |d| >= 1048 && d[0] == 'T' as int && d[1] == 'O' as int && d[2] == 'K' as int && d[3] == '1' as int
    ensures WordAt(d, 4) == 1 && WordAt(d, 8) == |t.tokens| && WordAt(d, 12) == |t.merges|
    ensures WordAt(d, 16) == |t.specials| && WordAt(d, 20) == 0 && WordAt(d, 24 + 4 * b) == t.byteToId[b]
  {
    HeaderReads(d, t);
    FlatReads(d, 24, t.byteToId);
    assert d[0] == d[..4][0] && d[1] == d[..4][1] && d[2] == d[..4][2] && d[3] == d[..4][3];
    assert WordsAt(d, 24, 256)[b] == t.byteToId[b];
  }
}
