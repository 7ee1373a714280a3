/** Building the tokenizer tables from a checkpoint (tools/convert_tokenizer.py lines 44-57 and 305-340), and the whole
way from there to the opened tokenizer (src/tokenizer.cpp lines 408-522). */
module TokBuild {
  import opened Arith
  import opened Wrappers
  import opened Utf8
  import opened Tok1
  import Tok1Io
  import Bpe
  import Nfc
  import Pretokenize
  import T = Tokenizer

  datatype Entry = Entry(text: string, id: nat)

  /** The parsed checkpoint: a dictionary of byte-level texts, the merges in rank order and the added tokens. */
  datatype Source = Source(vocab: seq<Entry>, merges: seq<(string, string)>, added: seq<T.Special>)

  predicate IsDictionary(vocab: seq<Entry>) { forall j, k :: 0 <= j < k < |vocab| ==> vocab[j].text != vocab[k].text }

  // ----- The byte-level alphabet

  predicate Printable(b: Byte) { 33 <= b < 127 || 161 <= b < 173 || 174 <= b }

  /** A byte's stand-in character: itself when printable, otherwise the next character from 256 on. */
  function Encoder(b: Byte): char {
    if Printable(b) then b as char
    else if b < 33 then (256 + b) as char
    else if b < 161 then (256 + 33 + (b - 127)) as char
    else (256 + 67) as char
  }

  function Decoder(c: char): Option<Byte> {
    var x := c as int;
    if x < 256 then if Printable(x) then Some(x) else None
    else if x < 256 + 33 then Some(x - 256)
    else if x < 256 + 67 then Some(x - 256 - 33 + 127)
    else if x == 256 + 67 then Some(173)
    else None
  }

  /** The two dictionaries are inverse to each other. */
  lemma DecoderInverts(b: Byte, c: char)
    ensures Decoder(c) == Some(b) <==> Encoder(b) == c
  {}

  predicate Decodable(s: string) { forall i :: 0 <= i < |s| ==> Decoder(s[i]).Some? }

  function Bytes(s: string): (r: seq<Byte>)
    requires Decodable(s)
    ensures |r| == |s|
  {
    seq(|s|, i requires 0 <= i < |s| => Decoder(s[i]).value)
  }

  lemma BytesAppend(s: string, t: string)
    requires Decodable(s + t)
    ensures Decodable(s) && Decodable(t) && Bytes(s + t) == Bytes(s) + Bytes(t)
  {
    forall i | 0 <= i < |s| ensures Decoder(s[i]).Some? { assert (s + t)[i] == s[i]; }
    forall i | 0 <= i < |t| ensures Decoder(t[i]).Some? { assert (s + t)[|s| + i] == t[i]; }
  }

  // ----- What is built

  predicate Has(vocab: seq<Entry>, text: string, id: nat) {
    exists k :: 0 <= k < |vocab| && vocab[k] == Entry(text, id)
  }

  predicate Knows(vocab: seq<Entry>, text: string) { exists k :: 0 <= k < |vocab| && vocab[k].text == text }

  /** No lookup fails. */
  predicate Buildable(src: Source) {
    && (forall b: Byte :: Knows(src.vocab, [Encoder(b)]))
    && (forall k :: 0 <= k < |src.merges| ==> MergeKnown(src.vocab, src.merges[k]))
    && (forall k :: 0 <= k < |src.vocab| ==> Decodable(src.vocab[k].text))
  }

  predicate MergeKnown(vocab: seq<Entry>, m: (string, string)) {
    Knows(vocab, m.0) && Knows(vocab, m.1) && Knows(vocab, m.0 + m.1)
  }

  predicate MergeBuilt(vocab: seq<Entry>, m: (string, string), t: Triple) {
    Has(vocab, m.0, t.left) && Has(vocab, m.1, t.right) && Has(vocab, m.0 + m.1, t.merged)
  }

  /** The bytes of an id: the last added token's, else the last vocabulary entry's, else none. */
  function BytesOf(src: Source, vocabDone: nat, addedDone: nat, id: nat): seq<Byte>
    requires vocabDone <= |src.vocab| && addedDone <= |src.added|
    requires forall k :: 0 <= k < |src.vocab| ==> Decodable(src.vocab[k].text)
    decreases vocabDone + addedDone
  {
    if addedDone > 0 then
      if src.added[addedDone - 1].id == id then src.added[addedDone - 1].content
      else BytesOf(src, vocabDone, addedDone - 1, id)
    else if vocabDone > 0 then
      if src.vocab[vocabDone - 1].id == id then Bytes(src.vocab[vocabDone - 1].text)
      else BytesOf(src, vocabDone - 1, 0, id)
    else []
  }

  /** The longest first, and the others of a length in their order. */
  function Sorted(added: seq<T.Special>): (r: seq<T.Special>)
    ensures |r| == |added|
  {
    if added == [] then []
    else
      var n := |added| - 1;
      Inserted(Sorted(added[..n]), added[n])
  }

  function Inserted(s: seq<T.Special>, x: T.Special): (r: seq<T.Special>)
    ensures |r| == |s| + 1
  {
    if s == [] || |s[|s| - 1].content| >= |x.content| then s + [x]
    else Inserted(s[..|s| - 1], x) + [s[|s| - 1]]
  }

  predicate AllAtLeast(s: seq<T.Special>, m: nat) { forall j :: 0 <= j < |s| ==> |s[j].content| >= m }

  lemma {:induction false} InsertedAtLeast(s: seq<T.Special>, x: T.Special, m: nat)
    requires AllAtLeast(s, m) && |x.content| >= m
    ensures AllAtLeast(Inserted(s, x), m)
  {
    if s != [] && |s[|s| - 1].content| < |x.content| { InsertedAtLeast(s[..|s| - 1], x, m); }
  }

  lemma {:induction false} InsertedOrdered(s: seq<T.Special>, x: T.Special)
    requires T.LongestFirst(s)
    ensures T.LongestFirst(Inserted(s, x))
  {
    if s != [] && |s[|s| - 1].content| < |x.content| {
      var front, last := s[..|s| - 1], s[|s| - 1];
      InsertedOrdered(front, x);
      InsertedAtLeast(front, x, |last.content|);
    }
  }

  lemma {:induction false} InsertedPermutes(s: seq<T.Special>, x: T.Special)
    ensures multiset(Inserted(s, x)) == multiset(s) + multiset{x}
  {
    if s != [] && |s[|s| - 1].content| < |x.content| {
      InsertedPermutes(s[..|s| - 1], x);
      assert s == s[..|s| - 1] + [s[|s| - 1]];
    }
  }

  lemma {:induction false} SortedKeeps(added: seq<T.Special>)
    ensures T.LongestFirst(Sorted(added)) && multiset(Sorted(added)) == multiset(added)
  {
    if added != [] {
      var n := |added| - 1;
      SortedKeeps(added[..n]);
      InsertedOrdered(Sorted(added[..n]), added[n]);
      InsertedPermutes(Sorted(added[..n]), added[n]);
      assert added == added[..n] + [added[n]];
    }
  }

  predicate Bounded(src: Source, n: nat) {
    && (forall k :: 0 <= k < |src.vocab| ==> src.vocab[k].id < n)
    && (forall k :: 0 <= k < |src.added| ==> src.added[k].id < n)
  }

  /** The table of a checkpoint: as many ids as its largest one demands, each with its bytes. */
  predicate Built(src: Source, t: Table)
    requires Buildable(src)
  {
    && |t.byteToId| == 256 && (forall b: Byte :: Has(src.vocab, [Encoder(b)], t.byteToId[b]))
    && |t.merges| == |src.merges|
    && (forall k :: 0 <= k < |t.merges| ==> MergeBuilt(src.vocab, src.merges[k], t.merges[k]))
    && t.specials == Sorted(src.added)
    && 0 < |t.tokens| && Bounded(src, |t.tokens|) && !Bounded(src, |t.tokens| - 1)
    && (forall id :: 0 <= id < |t.tokens| ==> t.tokens[id] == BytesOf(src, |src.vocab|, |src.added|, id))
  }

  // ----- Building

  method Lookup(vocab: seq<Entry>, text: string) returns (r: Option<nat>)
    ensures r.Some? ==> Has(vocab, text, r.value)
    ensures r.Some? <==> Knows(vocab, text)
  {
    for k := 0 to |vocab|
      invariant forall j :: 0 <= j < k ==> vocab[j].text != text
    {
      if vocab[k].text == text {
        assert vocab[k] == Entry(text, vocab[k].id);
        return Some(vocab[k].id);
      }
    }
    r := None;
  }

  method ByteIds(vocab: seq<Entry>) returns (r: Option<seq<nat>>)
    ensures r.Some? <==> forall b: Byte :: Knows(vocab, [Encoder(b)])
    ensures r.Some? ==> |r.value| == 256 && forall b: Byte :: Has(vocab, [Encoder(b)], r.value[b])
  {
    var ids: seq<nat> := [];
    for b := 0 to 256
      invariant |ids| == b && forall c: Byte :: c < b ==> Knows(vocab, [Encoder(c)]) && Has(vocab, [Encoder(c)], ids[c])
    {
      var id := Lookup(vocab, [Encoder(b)]);
      if id.None? { return None; }
      ids := ids + [id.value];
    }
    r := Some(ids);
  }

  method MergeTriples(vocab: seq<Entry>, merges: seq<(string, string)>) returns (r: Option<seq<Triple>>)
    ensures r.Some? <==> forall k :: 0 <= k < |merges| ==> MergeKnown(vocab, merges[k])
    ensures r.Some? ==> |r.value| == |merges|
    ensures r.Some? ==> forall k :: 0 <= k < |merges| ==> MergeBuilt(vocab, merges[k], r.value[k])
  {
    var triples: seq<Triple> := [];
    for k := 0 to |merges|
      invariant |triples| == k
      invariant forall j :: 0 <= j < k ==> MergeKnown(vocab, merges[j]) && MergeBuilt(vocab, merges[j], triples[j])
    {
      var a := Lookup(vocab, merges[k].0);
      var b := Lookup(vocab, merges[k].1);
      var m := Lookup(vocab, merges[k].0 + merges[k].1);
      if a.None? || b.None? || m.None? {
        assert !MergeKnown(vocab, merges[k]);
        return None;
      }
      triples := triples + [Triple(a.value, b.value, m.value)];
    }
    r := Some(triples);
  }

  method IdCount(src: Source) returns (n: nat)
    requires src.vocab != []
    ensures n > 0 && Bounded(src, n) && !Bounded(src, n - 1)
  {
    var maxId := src.vocab[0].id;
    for k := 0 to |src.vocab|
      invariant Attained(src, maxId) && forall j :: 0 <= j < k ==> src.vocab[j].id <= maxId
    {
      if src.vocab[k].id > maxId { maxId := src.vocab[k].id; }
    }
    for k := 0 to |src.added|
      invariant Attained(src, maxId)
      invariant (forall j :: 0 <= j < |src.vocab| ==> src.vocab[j].id <= maxId)
             && forall j :: 0 <= j < k ==> src.added[j].id <= maxId
    {
      if src.added[k].id > maxId { maxId := src.added[k].id; }
    }
    n := maxId + 1;
  }

  predicate Attained(src: Source, m: nat) {
    (exists k :: 0 <= k < |src.vocab| && src.vocab[k].id == m)
    || (exists k :: 0 <= k < |src.added| && src.added[k].id == m)
  }

  method IdBytes(src: Source, n: nat) returns (r: Option<seq<seq<Byte>>>)
    requires Bounded(src, n)
    ensures r.Some? <==> forall k :: 0 <= k < |src.vocab| ==> Decodable(src.vocab[k].text)
    ensures r.Some? ==> |r.value| == n
    ensures r.Some? ==> forall id :: 0 <= id < n ==> r.value[id] == BytesOf(src, |src.vocab|, |src.added|, id)
  {
    for k := 0 to |src.vocab|
      invariant forall j :: 0 <= j < k ==> Decodable(src.vocab[j].text)
    {
      if !Decodable(src.vocab[k].text) { return None; }
    }
    var tokens: seq<seq<Byte>> := seq(n, _ => []);
    for k := 0 to |src.vocab|
      invariant |tokens| == n && forall id :: 0 <= id < n ==> tokens[id] == BytesOf(src, k, 0, id)
    {
      tokens := tokens[src.vocab[k].id := Bytes(src.vocab[k].text)];
    }
    for k := 0 to |src.added|
      invariant |tokens| == n && forall id :: 0 <= id < n ==> tokens[id] == BytesOf(src, |src.vocab|, k, id)
    {
      tokens := tokens[src.added[k].id := src.added[k].content];
    }
    r := Some(tokens);
  }

  /** The constructor; None is a failed lookup. */
  method Build(src: Source) returns (r: Option<Table>)
    ensures r.Some? <==> Buildable(src)
    ensures r.Some? ==> Built(src, r.value)
  {
    var byteToId := ByteIds(src.vocab);
    if byteToId.None? { return None; }
    assert Knows(src.vocab, [Encoder(0)]);
    var merges := MergeTriples(src.vocab, src.merges);
    if merges.None? { return None; }
    var n := IdCount(src);
    var tokens := IdBytes(src, n);
    if tokens.None? { return None; }
    r := Some(Table(byteToId.value, tokens.value, merges.value, Sorted(src.added)));
  }

  // ----- What was built loads

  lemma HasBounded(src: Source, n: nat, text: string, id: nat)
    requires Bounded(src, n) && Has(src.vocab, text, id)
    ensures id < n
  {}

  /** The reader takes every table the constructor builds, up to its limit on the number of ids. */
  lemma BuiltIsLoadable(src: Source, t: Table)
    requires Buildable(src) && Built(src, t)
    ensures Loadable(t) <==> |t.tokens| <= MAX_VOCAB
  {
    var n := |t.tokens|;
    forall b: Byte ensures t.byteToId[b] < n { HasBounded(src, n, [Encoder(b)], t.byteToId[b]); }
    forall k | 0 <= k < |t.merges| ensures TripleWithin(t.merges[k], n) {
      assert MergeBuilt(src.vocab, src.merges[k], t.merges[k]);
    }
    SortedKeeps(src.added);
    forall k | 0 <= k < |t.specials| ensures Ids(t.specials)[k] < n {
      assert t.specials[k] in multiset(t.specials);
      assert t.specials[k] in src.added;
    }
  }

  /** From the checkpoint to the opened tokenizer: it opens exactly when every lookup succeeds, every number fits its
      field and the ids are within the reader's limit, and what it then holds is what was built. */
  method ConvertThenOpen(src: Source) returns (loaded: Option<Table>, built: Option<Table>)
    ensures built.Some? <==> Buildable(src)
    ensures built.Some? ==> Built(src, built.value)
    ensures loaded.Some? <==> built.Some? && Packs(built.value) && |built.value.tokens| <= MAX_VOCAB
    ensures loaded.Some? ==> loaded == built
  {
    built := Build(src);
    if built.None? { return None, built; }
    var blob := Tok1Io.SerializeTokenizer(built.value);
    if blob.None? { return None, built; }
    ParsesIffLoadable(built.value);
    BuiltIsLoadable(src, built.value);
    loaded := Tok1Io.ParseTok(blob.value);
  }

  // ----- The merge maps

  function Pair(t: Triple): (nat, nat) { (t.left, t.right) }

  /** The runtime's map: the first entry of a pair stays. */
  function FirstMerges(ms: seq<Triple>): map<(nat, nat), Bpe.Merge> {
    if ms == [] then map[]
    else
      var n := |ms| - 1;
      var front := FirstMerges(ms[..n]);
      if Pair(ms[n]) in front then front else front[Pair(ms[n]) := Bpe.Merge(n, ms[n].merged)]
  }

  /** The converter's own maps: the last entry of a pair stays. */
  function LastMerges(ms: seq<Triple>): map<(nat, nat), Bpe.Merge> {
    if ms == [] then map[]
    else
      var n := |ms| - 1;
      LastMerges(ms[..n])[Pair(ms[n]) := Bpe.Merge(n, ms[n].merged)]
  }

  predicate PairsOnce(ms: seq<Triple>) { forall j, k :: 0 <= j < k < |ms| ==> Pair(ms[j]) != Pair(ms[k]) }

  predicate Lists(ms: seq<Triple>, k: nat, p: (nat, nat)) { k < |ms| && Pair(ms[k]) == p }

  lemma {:induction false} FirstMergesHold(ms: seq<Triple>, p: (nat, nat))
    ensures p in FirstMerges(ms) <==> exists k :: Lists(ms, k, p)
    ensures p in FirstMerges(ms) ==>
        var m := FirstMerges(ms)[p];
        Lists(ms, m.rank, p) && m.id == ms[m.rank].merged && forall k: nat :: k < m.rank ==> !Lists(ms, k, p)
  {
    if ms != [] {
      var n := |ms| - 1;
      FirstMergesHold(ms[..n], p);
      assert forall k: nat :: k < n ==> (Lists(ms, k, p) <==> Lists(ms[..n], k, p));
      assert Lists(ms, n, p) <==> Pair(ms[n]) == p;
    }
  }

  lemma {:induction false} LastMergesHold(ms: seq<Triple>, k: nat)
    requires k < |ms|
    ensures Pair(ms[k]) in LastMerges(ms) && k <= LastMerges(ms)[Pair(ms[k])].rank < |ms|
  {
    var n := |ms| - 1;
    if k < n { LastMergesHold(ms[..n], k); }
  }

  lemma {:induction false} MergesOnceAgree(ms: seq<Triple>)
    requires PairsOnce(ms)
    ensures FirstMerges(ms) == LastMerges(ms)
  {
    if ms != [] {
      var n := |ms| - 1;
      MergesOnceAgree(ms[..n]);
      FirstMergesHold(ms[..n], Pair(ms[n]));
    }
  }

  /** The runtime and the converter's reference encoder use the same merges exactly when no pair is listed twice. */
  lemma MergeMapsAgree(ms: seq<Triple>)
    ensures FirstMerges(ms) == LastMerges(ms) <==> PairsOnce(ms)
  {
    if PairsOnce(ms) { MergesOnceAgree(ms); }
    if FirstMerges(ms) == LastMerges(ms) {
      forall j, k | 0 <= j < k < |ms| ensures Pair(ms[j]) != Pair(ms[k]) {
        if Pair(ms[j]) == Pair(ms[k]) {
          FirstMergesHold(ms, Pair(ms[j]));
          LastMergesHold(ms, k);
          assert Lists(ms, j, Pair(ms[j]));
          assert false;
        }
      }
    }
  }

  // ----- The opened tokenizer meets what encoding and decoding rest on

  function VocabOf(t: Table): Bpe.Vocab { Bpe.Vocab(t.byteToId, t.tokens, FirstMerges(t.merges)) }

  /** Every accepted blob's encoder emits only ids of the vocabulary. */
  lemma AcceptedInRange(d: seq<Byte>)
    requires Parsed(d).Some?
    ensures Bpe.InRange(VocabOf(Parsed(d).value))
  {
    AcceptedIsLoadable(d);
    IdsInRange(Parsed(d).value);
  }

  lemma IdsInRange(t: Table)
    requires |t.byteToId| == 256 && Below(t.byteToId, |t.tokens|) && TriplesWithin(t.merges, |t.tokens|)
    ensures Bpe.InRange(VocabOf(t))
  {
    forall p | p in FirstMerges(t.merges) ensures FirstMerges(t.merges)[p].id < |t.tokens| {
      FirstMergesHold(t.merges, p);
      assert TripleWithin(t.merges[FirstMerges(t.merges)[p].rank], |t.tokens|);
    }
  }

  /** Ids are not reused, except by an added token with the same bytes. */
  predicate IdsOnce(src: Source)
    requires Buildable(src)
  {
    && (forall j, k :: 0 <= j < |src.vocab| && 0 <= k < |src.vocab| && src.vocab[j].id == src.vocab[k].id ==> j == k)
    && (forall j, k :: 0 <= j < |src.added| && 0 <= k < |src.vocab| && src.added[j].id == src.vocab[k].id ==>
          src.added[j].content == Bytes(src.vocab[k].text))
  }

  predicate AddedAgree(src: Source) {
    forall j, k :: 0 <= j < |src.added| && 0 <= k < |src.added| && src.added[j].id == src.added[k].id ==>
      src.added[j].content == src.added[k].content
  }

  lemma {:induction false} EntryBytes(src: Source, vocabDone: nat, addedDone: nat, k: nat)
    requires Buildable(src) && IdsOnce(src) && k < vocabDone <= |src.vocab| && addedDone <= |src.added|
    ensures BytesOf(src, vocabDone, addedDone, src.vocab[k].id) == Bytes(src.vocab[k].text)
    decreases vocabDone + addedDone
  {
    if addedDone > 0 { EntryBytes(src, vocabDone, addedDone - 1, k); }
    else if k < vocabDone - 1 { EntryBytes(src, vocabDone - 1, 0, k); }
  }

  lemma {:induction false} AddedBytes(src: Source, addedDone: nat, k: nat)
    requires Buildable(src) && k < addedDone <= |src.added|
    ensures exists j :: k <= j < addedDone && src.added[j].id == src.added[k].id
                        && BytesOf(src, |src.vocab|, addedDone, src.added[k].id) == src.added[j].content
  {
    if src.added[addedDone - 1].id == src.added[k].id { }
    else { AddedBytes(src, addedDone - 1, k); }
  }

  /** The added tokens decode to their contents exactly when no id is added with two contents. */
  lemma BuiltSpecialsCarry(src: Source, t: Table)
    requires Buildable(src) && Built(src, t)
    ensures T.SpecialsCarry(VocabOf(t), t.specials) <==> AddedAgree(src)
  {
    SortedKeeps(src.added);
    if AddedAgree(src) {
      forall k | 0 <= k < |t.specials|
        ensures t.specials[k].id < |t.tokens| && t.tokens[t.specials[k].id] == t.specials[k].content
      {
        assert t.specials[k] in multiset(t.specials);
        var j :| 0 <= j < |src.added| && src.added[j] == t.specials[k];
        AddedBytes(src, |src.added|, j);
      }
    }
    if T.SpecialsCarry(VocabOf(t), t.specials) {
      forall j, k | 0 <= j < |src.added| && 0 <= k < |src.added| && src.added[j].id == src.added[k].id
        ensures src.added[j].content == src.added[k].content
      {
        assert src.added[j] in multiset(src.added) && src.added[k] in multiset(src.added);
        assert src.added[j] in t.specials && src.added[k] in t.specials;
      }
    }
  }

  lemma EntryToken(src: Source, t: Table, text: string, id: nat)
    requires Buildable(src) && Built(src, t) && IdsOnce(src) && Has(src.vocab, text, id)
    ensures id < |t.tokens| && Decodable(text) && t.tokens[id] == Bytes(text)
  {
    var k :| 0 <= k < |src.vocab| && src.vocab[k] == Entry(text, id);
    EntryBytes(src, |src.vocab|, |src.added|, k);
  }

  lemma MergeCarries(src: Source, t: Table, k: nat)
    requires Buildable(src) && Built(src, t) && IdsOnce(src) && k < |t.merges|
    ensures TripleWithin(t.merges[k], |t.tokens|)
    ensures t.tokens[t.merges[k].merged] == t.tokens[t.merges[k].left] + t.tokens[t.merges[k].right]
  {
    var m, r := src.merges[k], t.merges[k];
    assert MergeBuilt(src.vocab, m, r);
    EntryToken(src, t, m.0, r.left);
    EntryToken(src, t, m.1, r.right);
    EntryToken(src, t, m.0 + m.1, r.merged);
    BytesAppend(m.0, m.1);
  }

  lemma ByteCarries(src: Source, t: Table, b: Byte)
    requires Buildable(src) && Built(src, t) && IdsOnce(src)
    ensures t.byteToId[b] < |t.tokens| && t.tokens[t.byteToId[b]] == [b]
  {
    EntryToken(src, t, [Encoder(b)], t.byteToId[b]);
    DecoderInverts(b, Encoder(b));
  }

  /** Every byte's token is that byte, and every merge's result carries its operands' bytes. */
  lemma BuiltIsConsistent(src: Source, t: Table)
    requires Buildable(src) && Built(src, t) && IdsOnce(src)
    ensures Bpe.Consistent(VocabOf(t))
  {
    var merges := FirstMerges(t.merges);
    forall b | 0 <= b < 256 ensures t.byteToId[b] < |t.tokens| && t.tokens[t.byteToId[b]] == [b] {
      ByteCarries(src, t, b);
    }
    forall p | p in merges
      ensures p.0 < |t.tokens| && p.1 < |t.tokens| && merges[p].id < |t.tokens|
      ensures t.tokens[merges[p].id] == t.tokens[p.0] + t.tokens[p.1]
    {
      FirstMergesHold(t.merges, p);
      MergeCarries(src, t, merges[p].rank);
    }
    forall k | 0 <= k < |t.merges| ensures TripleWithin(t.merges[k], |t.tokens|) { MergeCarries(src, t, k); }
    IdsInRange(t);
  }

  /** So the round trip of encoding and decoding holds of every tokenizer converted from a checkpoint that reuses no
      id. */
  lemma ConvertedRoundTrips(src: Source, t: Table, tables: Nfc.Tables, classes: Pretokenize.Classes, s: seq<Byte>,
                            ids: seq<nat>)
    requires Buildable(src) && Built(src, t) && IdsOnce(src) && AddedAgree(src)
    requires Nfc.OverScalars(tables) && Pretokenize.KnowsSpaces(classes)
    requires T.Tokens(T.View(VocabOf(t), t.specials, tables, classes), s, ids)
    ensures var w := T.View(VocabOf(t), t.specials, tables, classes);
            T.DecodedText(w.vocab, ids) == T.Normalized(w, s) <==> WellFormed(T.Normalized(w, s))
  {
    BuiltIsConsistent(src, t);
    BuiltSpecialsCarry(src, t);
    T.DecodeUndoesEncode(T.View(VocabOf(t), t.specials, tables, classes), s, ids);
  }

  // ----- The byte-level alphabet, as it is counted out

  /** How many bytes below `b` have no printable form. */
  function Unprintable(b: nat): nat
    requires b <= 256
  {
    if b == 0 then 0 else Unprintable(b - 1) + if Printable(b - 1) then 0 else 1
  }

  lemma {:induction false} UnprintableIs(b: nat)
    requires b <= 256
    ensures Unprintable(b) == if b <= 33 then b
                              else if b <= 127 then 33
                              else if b <= 161 then b - 94
                              else if b <= 173 then 67
                              else 68
  {
    if b > 0 { UnprintableIs(b - 1); }
  }

  /** Printable Latin-1 bytes stand for themselves; the others take the characters from 256 on, in their order. */
  lemma EncoderCounts(b: Byte)
    ensures 33 <= b < 127 || 161 <= b < 173 || 174 <= b ==> Encoder(b) as int == b
    ensures !(33 <= b < 127 || 161 <= b < 173 || 174 <= b) ==> Encoder(b) as int == 256 + Unprintable(b)
  {
    UnprintableIs(b);
  }
}
