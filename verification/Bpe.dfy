/** Byte-level byte-pair encoding (src/tokenizer.cpp lines 322-345; tools/convert_tokenizer.py lines 357-371). */
module Bpe {
  import opened Arith
  import opened Utf8

  datatype Merge = Merge(rank: nat, id: nat)

  datatype Vocab = Vocab(byteToId: seq<nat>, bytes: seq<seq<Byte>>, merges: map<(nat, nat), Merge>)

  /** Every id the encoder can emit indexes the vocabulary. */
  predicate InRange(v: Vocab) {
    && |v.byteToId| == 256 && (forall b :: 0 <= b < 256 ==> v.byteToId[b] < |v.bytes|)
    && (forall pair :: pair in v.merges ==> v.merges[pair].id < |v.bytes|)
  }

  /** A byte's token carries that byte, and a merge's result carries its operands' bytes. */
  predicate Consistent(v: Vocab) {
    && InRange(v)
    && (forall b :: 0 <= b < 256 ==> v.bytes[v.byteToId[b]] == [b])
    && (forall pair :: pair in v.merges && pair.0 < |v.bytes| && pair.1 < |v.bytes| ==>
          v.bytes[v.merges[pair].id] == v.bytes[pair.0] + v.bytes[pair.1])
  }

  predicate Ids(v: Vocab, ids: seq<nat>) { forall k :: 0 <= k < |ids| ==> ids[k] < |v.bytes| }

  function Concat(v: Vocab, ids: seq<nat>): seq<Byte>
    requires Ids(v, ids)
  {
    if ids == [] then [] else Concat(v, ids[..|ids| - 1]) + v.bytes[ids[|ids| - 1]]
  }

  predicate Mergeable(v: Vocab, ids: seq<nat>, p: nat) { p + 1 < |ids| && (ids[p], ids[p + 1]) in v.merges }

  function Rank(v: Vocab, ids: seq<nat>, p: nat): nat
    requires Mergeable(v, ids, p)
  {
    v.merges[(ids[p], ids[p + 1])].rank
  }

  /** The pair merged next: of the lowest rank, and of those the leftmost. */
  ghost predicate Best(v: Vocab, ids: seq<nat>, p: nat) {
    && Mergeable(v, ids, p)
    && (forall q: nat :: Mergeable(v, ids, q) ==> Rank(v, ids, p) <= Rank(v, ids, q))
    && (forall q: nat :: q < p && Mergeable(v, ids, q) ==> Rank(v, ids, p) < Rank(v, ids, q))
  }

  function MergeAt(v: Vocab, ids: seq<nat>, p: nat): seq<nat>
    requires Mergeable(v, ids, p)
  {
    ids[..p] + [v.merges[(ids[p], ids[p + 1])].id] + ids[p + 2..]
  }

  predicate Irreducible(v: Vocab, ids: seq<nat>) { forall p :: 0 <= p < |ids| - 1 ==> !Mergeable(v, ids, p) }

  /** `out` comes from `ids` by merging the best pair until none is left. */
  ghost predicate Merges(v: Vocab, ids: seq<nat>, out: seq<nat>)
    decreases |ids|
  {
    if Irreducible(v, ids) then out == ids
    else exists p :: Best(v, ids, p) && Merges(v, MergeAt(v, ids, p), out)
  }

  lemma BestIsUnique(v: Vocab, ids: seq<nat>, p: nat, q: nat)
    requires Best(v, ids, p) && Best(v, ids, q)
    ensures p == q
  {}

  /** The greedy process has one result. */
  lemma {:induction false} MergesOnce(v: Vocab, ids: seq<nat>, a: seq<nat>, b: seq<nat>)
    requires Merges(v, ids, a) && Merges(v, ids, b)
    ensures a == b
    decreases |ids|
  {
    if !Irreducible(v, ids) {
      var p :| Best(v, ids, p) && Merges(v, MergeAt(v, ids, p), a);
      var q :| Best(v, ids, q) && Merges(v, MergeAt(v, ids, q), b);
      BestIsUnique(v, ids, p, q);
      MergesOnce(v, MergeAt(v, ids, p), a, b);
    }
  }

  lemma {:induction false} ConcatAppend(v: Vocab, a: seq<nat>, b: seq<nat>)
    requires Ids(v, a) && Ids(v, b)
    ensures Ids(v, a + b) && Concat(v, a + b) == Concat(v, a) + Concat(v, b)
  {
    if b == [] { assert a + b == a; }
    else {
      assert (a + b)[..|a + b| - 1] == a + b[..|b| - 1];
      ConcatAppend(v, a, b[..|b| - 1]);
    }
  }

  lemma ConcatOne(v: Vocab, x: nat)
    requires x < |v.bytes|
    ensures Concat(v, [x]) == v.bytes[x]
  {
    assert [x][..0] == [];
  }

  lemma MergeKeepsBytes(v: Vocab, ids: seq<nat>, p: nat)
    requires Consistent(v) && Ids(v, ids) && Mergeable(v, ids, p)
    ensures Ids(v, MergeAt(v, ids, p)) && Concat(v, MergeAt(v, ids, p)) == Concat(v, ids)
  {
    var x, y, m := ids[p], ids[p + 1], v.merges[(ids[p], ids[p + 1])].id;
    assert ids == ids[..p] + [x, y] + ids[p + 2..];
    PairBytes(v, x, y);
    ConcatOne(v, m);
    Between(v, ids[..p], [x, y], ids[p + 2..]);
    Between(v, ids[..p], [m], ids[p + 2..]);
  }

  lemma PairBytes(v: Vocab, x: nat, y: nat)
    requires x < |v.bytes| && y < |v.bytes|
    ensures Concat(v, [x, y]) == v.bytes[x] + v.bytes[y]
  {
    assert [x, y][..1] == [x];
    ConcatOne(v, x);
  }

  lemma Between(v: Vocab, a: seq<nat>, b: seq<nat>, c: seq<nat>)
    requires Ids(v, a) && Ids(v, b) && Ids(v, c)
    ensures Ids(v, a + b + c) && Concat(v, a + b + c) == Concat(v, a) + Concat(v, b) + Concat(v, c)
  {
    ConcatAppend(v, a, b);
    ConcatAppend(v, a + b, c);
  }

  /** Merging changes no byte, and every id stays in range. */
  lemma {:induction false} MergesKeepBytes(v: Vocab, ids: seq<nat>, out: seq<nat>)
    requires Consistent(v) && Ids(v, ids) && Merges(v, ids, out)
    ensures Ids(v, out) && Concat(v, out) == Concat(v, ids) && Irreducible(v, out) && |out| <= |ids|
    decreases |ids|
  {
    if !Irreducible(v, ids) {
      var p :| Best(v, ids, p) && Merges(v, MergeAt(v, ids, p), out);
      MergeKeepsBytes(v, ids, p);
      MergesKeepBytes(v, MergeAt(v, ids, p), out);
    }
  }

  /** One token per byte. */
  function BaseIds(v: Vocab, piece: seq<Byte>): (r: seq<nat>)
    requires |v.byteToId| == 256
    ensures |r| == |piece|
  {
    seq(|piece|, k requires 0 <= k < |piece| => v.byteToId[piece[k]])
  }

  lemma {:induction false} BaseBytes(v: Vocab, piece: seq<Byte>)
    requires Consistent(v)
    ensures Ids(v, BaseIds(v, piece)) && Concat(v, BaseIds(v, piece)) == piece
  {
    if piece != [] {
      var k := |piece| - 1;
      BaseBytes(v, piece[..k]);
      assert BaseIds(v, piece)[..k] == BaseIds(v, piece[..k]);
      assert piece == piece[..k] + [piece[k]];
    }
  }

  /** One scan for the best pair. */
  method FindBest(v: Vocab, ids: seq<nat>) returns (found: bool, pos: nat)
    ensures found ==> Best(v, ids, pos)
    ensures !found ==> Irreducible(v, ids)
  {
    found, pos := false, 0;
    var bestRank := 0;
    var p := 0;
    while p + 1 < |ids|
      invariant 0 <= p && (p < |ids| || p == 0)
      invariant !found ==> forall q :: 0 <= q < p ==> !Mergeable(v, ids, q)
      invariant found ==> pos < p && Mergeable(v, ids, pos) && bestRank == Rank(v, ids, pos)
      invariant found ==> forall q :: 0 <= q < p && Mergeable(v, ids, q) ==> bestRank <= Rank(v, ids, q)
      invariant found ==> forall q :: 0 <= q < pos && Mergeable(v, ids, q) ==> bestRank < Rank(v, ids, q)
    {
      if (ids[p], ids[p + 1]) in v.merges {
        var m := v.merges[(ids[p], ids[p + 1])];
        if !found || m.rank < bestRank { found, bestRank, pos := true, m.rank, p; }
      }
      p := p + 1;
    }
  }

  method Encode(v: Vocab, piece: seq<Byte>) returns (ids: seq<nat>)
    requires |v.byteToId| == 256
    ensures Merges(v, BaseIds(v, piece), ids)
  {
    ids := [];
    for k := 0 to |piece|
      invariant ids == BaseIds(v, piece)[..k]
    {
      ids := ids + [v.byteToId[piece[k]]];
    }
    ghost var start := BaseIds(v, piece);
    assert ids == start;
    while |ids| >= 2
      invariant forall out :: Merges(v, ids, out) ==> Merges(v, start, out)
      decreases |ids|
    {
      var found, pos := FindBest(v, ids);
      if !found { break; }
      assert !Irreducible(v, ids);
      forall out | Merges(v, MergeAt(v, ids, pos), out) ensures Merges(v, ids, out) {}
      ids := MergeAt(v, ids, pos);
    }
    assert Irreducible(v, ids);
    assert Merges(v, ids, ids);
  }

  /** A piece's tokens carry the piece's bytes, whatever the ranks. */
  lemma PieceKeepsBytes(v: Vocab, piece: seq<Byte>, ids: seq<nat>)
    requires Consistent(v) && Merges(v, BaseIds(v, piece), ids)
    ensures Ids(v, ids) && Concat(v, ids) == piece && |ids| <= |piece|
  {
    BaseBytes(v, piece);
    MergesKeepBytes(v, BaseIds(v, piece), ids);
  }
}
