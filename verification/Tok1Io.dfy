/** The tokenizer blob's code: the loops of the writer (tools/convert_tokenizer.py lines 461-487) and of the reader
(src/tokenizer.cpp lines 408-522), each equal to its function in Tok1. */
module Tok1Io {
  import opened Arith
  import opened Wrappers
  import opened Utf8
  import opened Tok1
  import T = Tokenizer

  // ----- The reader

  /** The whole reader; its diagnostics are one rejection here. */
  method ParseTok(d: seq<Byte>) returns (r: Option<Table>)
    ensures r == Parsed(d)
  {
    if !HeaderAccepted(d) || |d| < FRONT { return None; }
    var vocab := WordAt(d, 8);
    var byteToId := ReadIds(d, 24, 256, vocab);
    if byteToId.None? { return None; }
    var tokens := ReadVocab(d, FRONT, vocab);
    if tokens.None? { return None; }
    FrontParses(d, byteToId.value, tokens.value, vocab);
    r := ParseRest(d, byteToId.value, tokens.value);
  }

  method ParseRest(d: seq<Byte>, byteToId: seq<nat>, tokens: Parts) returns (r: Option<Table>)
    requires |d| >= FRONT && byteToId == WordsAt(d, 24, 256)
    ensures r == ParsedMerges(d, tokens)
  {
    var vocab, merge, special, pos := WordAt(d, 8), WordAt(d, 12), WordAt(d, 16), tokens.next;
    var p := pos + 12 * merge;
    if |d| < p { return None; }
    MergesAtIs(d, tokens, TriplesAt(d, pos, merge), p, SpecialsAt(d, p, special, vocab));
    var merges := ReadMerges(d, pos, merge, vocab);
    if merges.None? { return None; }
    var specials := ReadSpecials(d, p, special, vocab);
    if specials.None? { return None; }
    r := Some(Table(byteToId, tokens.parts, merges.value, specials.value));
  }

  method ReadIds(d: seq<Byte>, p: nat, n: nat, vocab: nat) returns (r: Option<seq<nat>>)
    requires p + 4 * n <= |d|
    ensures r == if Below(WordsAt(d, p, n), vocab) then Some(WordsAt(d, p, n)) else None
  {
    var ids: seq<nat> := [];
    for i := 0 to n
      invariant ids == WordsAt(d, p, i) && Below(ids, vocab)
    {
      var id := WordAt(d, p + 4 * i);
      if id >= vocab {
        assert WordsAt(d, p, n)[i] == id;
        return None;
      }
      WordsNext(d, p, i);
      ids := ids + [id];
    }
    r := Some(ids);
  }

  /** The vocabulary table: its offsets never decrease and stay within the blob. */
  method ReadVocab(d: seq<Byte>, p: nat, n: nat) returns (r: Option<Parts>)
    requires n > 0
    ensures r == PartsAt(d, p, n)
  {
    if |d| < p + 4 * (n + 1) + 4 { return None; }
    var blob := p + 4 * (n + 1) + 4;
    var len := WordAt(d, blob - 4);
    if |d| < blob + len { return None; }
    var cuts := VocabOffsetsCut(d, p, n, len);
    if !cuts { return None; }
    r := Some(Parts(PartsOf(d[blob..blob + len], WordsAt(d, p, n + 1)), blob + len));
  }

  method VocabOffsetsCut(d: seq<Byte>, p: nat, n: nat, len: nat) returns (ok: bool)
    requires n > 0 && p + 4 * (n + 1) <= |d|
    ensures ok <==> Cuts(WordsAt(d, p, n + 1), len)
  {
    ghost var offs := WordsAt(d, p, n + 1);
    var prev := 0;
    for i := 0 to n + 1
      invariant prev == if i == 0 then 0 else offs[i - 1]
      invariant i > 0 ==> offs[i - 1] <= len
      invariant forall j :: 0 <= j < i - 1 ==> CutAt(offs, len, j)
    {
      var o := WordAt(d, p + 4 * i);
      assert o == offs[i];
      if o < prev || o > len {
        assert !CutAt(offs, len, if i == 0 then 0 else i - 1);
        return false;
      }
      prev := o;
    }
    ok := true;
  }

  method ReadMerges(d: seq<Byte>, p: nat, n: nat, vocab: nat) returns (r: Option<seq<Triple>>)
    requires p + 12 * n <= |d|
    ensures r == if TriplesWithin(TriplesAt(d, p, n), vocab) then Some(TriplesAt(d, p, n)) else None
  {
    var merges: seq<Triple> := [];
    for i := 0 to n
      invariant merges == TriplesAt(d, p, n)[..i] && TriplesWithin(merges, vocab)
    {
      var pos := p + 12 * i;
      var t := Triple(WordAt(d, pos), WordAt(d, pos + 4), WordAt(d, pos + 8));
      TripleStands(d, p, n, i);
      if t.left >= vocab || t.right >= vocab || t.merged >= vocab {
        assert !TripleWithin(TriplesAt(d, p, n)[i], vocab);
        return None;
      }
      merges := merges + [t];
    }
    assert TriplesAt(d, p, n)[..n] == TriplesAt(d, p, n);
    r := Some(merges);
  }

  lemma TripleStands(d: seq<Byte>, p: nat, n: nat, i: nat)
    requires p + 12 * n <= |d| && i < n
    ensures TriplesAt(d, p, n)[i]
         == Triple(WordAt(d, p + 12 * i), WordAt(d, p + 12 * i + 4), WordAt(d, p + 12 * i + 8))
  {
    var ws := WordsAt(d, p, 3 * n);
    assert ws[3 * i] == WordAt(d, p + 4 * (3 * i));
    assert ws[3 * i + 1] == WordAt(d, p + 4 * (3 * i + 1));
    assert ws[3 * i + 2] == WordAt(d, p + 4 * (3 * i + 2));
  }

  /** The special table: the ids, every offset pair, and then the order of the lengths. */
  method ReadSpecials(d: seq<Byte>, p: nat, n: nat, vocab: nat) returns (r: Option<seq<T.Special>>)
    ensures r == SpecialsAt(d, p, n, vocab)
  {
    if |d| < p + 4 * n { return None; }
    var ids := ReadIds(d, p, n, vocab);
    if ids.None? { return None; }
    var q := p + 4 * n;
    if |d| < q + 4 * (n + 1) + 4 { return None; }
    var offs := WordsAt(d, q, n + 1);
    var blob := q + 4 * (n + 1) + 4;
    var len := WordAt(d, blob - 4);
    if |d| < blob + len { return None; }
    var cuts := OffsetsCut(offs, len);
    if !cuts { return None; }
    assert PartsAt(d, q, n) == Some(Parts(PartsOf(d[blob..blob + len], offs), blob + len));
    var ordered := LengthsOrdered(d[blob..blob + len], offs);
    if !ordered { return None; }
    var specials := Emplace(d[blob..blob + len], offs, ids.value);
    r := Some(specials);
  }

  method LengthsOrdered(blob: seq<Byte>, offs: seq<nat>) returns (ok: bool)
    requires |offs| > 0 && Cuts(offs, |blob|)
    ensures ok <==> NeverLonger(PartsOf(blob, offs))
  {
    ghost var parts := PartsOf(blob, offs);
    var i := 0;
    while i + 2 < |offs|
      invariant 0 <= i < |offs| && (i + 1 < |offs| || |offs| == 1)
      invariant forall j :: 0 <= j < i ==> |parts[j]| >= |parts[j + 1]|
    {
      assert CutAt(offs, |blob|, i) && CutAt(offs, |blob|, i + 1);
      assert |parts[i]| == offs[i + 1] - offs[i] && |parts[i + 1]| == offs[i + 2] - offs[i + 1];
      if offs[i + 1] - offs[i] < offs[i + 2] - offs[i + 1] { return false; }
      i := i + 1;
    }
    ok := true;
  }

  method OffsetsCut(offs: seq<nat>, len: nat) returns (ok: bool)
    requires |offs| > 0
    ensures ok <==> Cuts(offs, len)
  {
    for i := 0 to |offs| - 1
      invariant forall j :: 0 <= j < i ==> CutAt(offs, len, j)
    {
      if offs[i] > offs[i + 1] || offs[i + 1] > len {
        assert !CutAt(offs, len, i);
        return false;
      }
    }
    ok := true;
  }

  method Emplace(blob: seq<Byte>, offs: seq<nat>, ids: seq<nat>) returns (r: seq<T.Special>)
    requires |offs| == |ids| + 1 && Cuts(offs, |blob|)
    ensures r == Specials(ids, PartsOf(blob, offs))
  {
    r := [];
    for i := 0 to |ids|
      invariant r == Specials(ids, PartsOf(blob, offs))[..i]
    {
      assert CutAt(offs, |blob|, i);
      r := r + [T.Special(blob[offs[i]..offs[i + 1]], ids[i])];
    }
  }

  // ----- The writer

  /** The whole writer; None is the packing error of a number that does not fit its field. */
  method SerializeTokenizer(t: Table) returns (r: Option<seq<Byte>>)
    requires |t.byteToId| == 256
    ensures r == if Packs(t) then Some(Serialized(t)) else None
  {
    var counts: seq<nat> := [1, |t.tokens|, |t.merges|, |t.specials|, 0];
    var head := PackWords(MAGIC, counts);
    CountsPack(t);
    if head.None? { return None; }
    var bytes := PackWords(head.value, t.byteToId);
    if bytes.None? { return None; }
    var tokens := PackParts(bytes.value, t.tokens);
    if tokens.None? { return None; }
    var merges := PackTriples(tokens.value, t.merges);
    if merges.None? { return None; }
    var ids := PackWords(merges.value, Ids(t.specials));
    if ids.None? { return None; }
    r := PackParts(ids.value, Contents(t.specials));
    if r.Some? {
      assert Packs(t);
      SerializedFrom(t);
    }
  }

  lemma SerializedFrom(t: Table)
    requires Packs(t)
    ensures Header(t) + Flat(t.byteToId) + PartBytes(t.tokens) + TripleBytes(t.merges) + Flat(Ids(t.specials))
         + PartBytes(Contents(t.specials)) == Serialized(t)
  {}

  predicate CountsFit(t: Table) {
    |t.tokens| < 0x1_0000_0000 && |t.merges| < 0x1_0000_0000 && |t.specials| < 0x1_0000_0000
  }

  lemma CountsPack(t: Table)
    ensures var counts: seq<nat> := [1, |t.tokens|, |t.merges|, |t.specials|, 0];
            && (AreWords(counts) <==> CountsFit(t))
            && (AreWords(counts) && Packs(t) ==> MAGIC + Flat(counts) == Header(t))
  {
    var counts: seq<nat> := [1, |t.tokens|, |t.merges|, |t.specials|, 0];
    assert counts[1] == |t.tokens| && counts[2] == |t.merges| && counts[3] == |t.specials|;
    if CountsFit(t) { FlatOfFive(1, |t.tokens|, |t.merges|, |t.specials|, 0); }
  }

  lemma FlatOfFive(a: nat, b: nat, c: nat, e: nat, f: nat)
    requires a < 0x1_0000_0000 && b < 0x1_0000_0000 && c < 0x1_0000_0000 && e < 0x1_0000_0000 && f < 0x1_0000_0000
    ensures Flat([a, b, c, e, f]) == WordBytes(a) + WordBytes(b) + WordBytes(c) + WordBytes(e) + WordBytes(f)
  {
    var s: seq<nat> := [a, b, c, e, f];
    var s4: seq<nat>, s3: seq<nat>, s2: seq<nat>, s1: seq<nat> := [a, b, c, e], [a, b, c], [a, b], [a];
    OneMore(s4, f);
    OneMore(s3, e);
    OneMore(s2, c);
    OneMore(s1, b);
    OneWord(a);
    assert s == s4 + [f] && s4 == s3 + [e] && s3 == s2 + [c] && s2 == s1 + [b];
  }

  lemma OneMore(ws: seq<nat>, x: nat)
    requires AreWords(ws) && x < 0x1_0000_0000
    ensures AreWords(ws + [x]) && Flat(ws + [x]) == Flat(ws) + WordBytes(x)
  {
    assert (ws + [x])[..|ws|] == ws;
  }

  method PackWords(b: seq<Byte>, ws: seq<nat>) returns (r: Option<seq<Byte>>)
    ensures r == if AreWords(ws) then Some(b + Flat(ws)) else None
  {
    var out := b;
    for i := 0 to |ws|
      invariant AreWords(ws[..i]) && out == b + Flat(ws[..i])
    {
      if ws[i] >= 0x1_0000_0000 { return None; }
      FlatNext(ws, i);
      out := out + WordBytes(ws[i]);
    }
    assert ws[..|ws|] == ws;
    r := Some(out);
  }

  lemma FlatNext(ws: seq<nat>, i: nat)
    requires i < |ws| && AreWords(ws[..i]) && ws[i] < 0x1_0000_0000
    ensures AreWords(ws[..i + 1]) && Flat(ws[..i + 1]) == Flat(ws[..i]) + WordBytes(ws[i])
  {
    var front := ws[..i + 1];
    assert front == ws[..i] + [ws[i]] && front[..i] == ws[..i] && front[i] == ws[i];
  }

  method PackTriples(b: seq<Byte>, ts: seq<Triple>) returns (r: Option<seq<Byte>>)
    ensures r == if TriplesWithin(ts, 0x1_0000_0000) then Some(b + TripleBytes(ts)) else None
  {
    var out := b;
    for i := 0 to |ts|
      invariant TriplesWithin(ts[..i], 0x1_0000_0000) && out == b + TripleBytes(ts[..i])
    {
      var words: seq<nat> := [ts[i].left, ts[i].right, ts[i].merged];
      var packed := PackWords(out, words);
      TripleNext(ts, i);
      if packed.None? { return None; }
      out := packed.value;
    }
    assert ts[..|ts|] == ts;
    r := Some(out);
  }

  lemma TripleNext(ts: seq<Triple>, i: nat)
    requires i < |ts| && TriplesWithin(ts[..i], 0x1_0000_0000)
    ensures var words: seq<nat> := [ts[i].left, ts[i].right, ts[i].merged];
            && (AreWords(words) <==> TripleWithin(ts[i], 0x1_0000_0000))
            && (AreWords(words) ==>
                  TriplesWithin(ts[..i + 1], 0x1_0000_0000)
                      && TripleBytes(ts[..i + 1]) == TripleBytes(ts[..i]) + Flat(words))
  {
    var words: seq<nat> := [ts[i].left, ts[i].right, ts[i].merged];
    var front := ts[..i + 1];
    assert words[0] == ts[i].left && words[1] == ts[i].right && words[2] == ts[i].merged;
    assert front[..i] == ts[..i] && front[i] == ts[i];
    if AreWords(words) {
      forall k | 0 <= k < i + 1 ensures TripleWithin(front[k], 0x1_0000_0000) {
        if k < i { assert TripleWithin(ts[..i][k], 0x1_0000_0000); }
      }
      TripleWordsBelow(ts[..i], 0x1_0000_0000);
      TripleWordsBelow(front, 0x1_0000_0000);
      FlatAppend(TripleWords(ts[..i]), words);
    }
  }

  lemma {:induction false} FlatAppend(a: seq<nat>, b: seq<nat>)
    requires AreWords(a) && AreWords(b)
    ensures AreWords(a + b) && Flat(a + b) == Flat(a) + Flat(b)
  {
    if b == [] { assert a + b == a; }
    else {
      var k := |b| - 1;
      FlatAppend(a, b[..k]);
      assert (a + b)[..|a| + k] == a + b[..k];
    }
  }

  method PackParts(b: seq<Byte>, parts: seq<seq<Byte>>) returns (r: Option<seq<Byte>>)
    ensures r == if |Join(parts)| < 0x1_0000_0000 then Some(b + PartBytes(parts)) else None
  {
    var offs: seq<nat>, blob: seq<Byte> := [0], [];
    for i := 0 to |parts|
      invariant offs == Offsets(parts)[..i + 1] && blob == Join(parts[..i])
    {
      JoinNext(parts, i);
      blob := blob + parts[i];
      offs := offs + [|blob|];
    }
    assert parts[..|parts|] == parts && offs == Offsets(parts);
    var packed := PackWords(b, offs);
    if packed.None? {
      if |Join(parts)| < 0x1_0000_0000 { OffsetsAreWords(parts); }
      return None;
    }
    assert offs[|parts|] == |blob|;
    var sized := PackWords(packed.value, [|blob|]);
    OneWord(|blob|);
    r := Some(sized.value + blob);
    Grouped(b, Flat(offs), WordBytes(|blob|), blob);
  }

  lemma Grouped(a: seq<Byte>, b: seq<Byte>, c: seq<Byte>, e: seq<Byte>)
    ensures a + b + c + e == a + (b + c + e)
  {}

  lemma OneWord(x: nat)
    requires x < 0x1_0000_0000
    ensures Flat([x]) == WordBytes(x)
  {
    assert [x][..0] == [];
  }
}
