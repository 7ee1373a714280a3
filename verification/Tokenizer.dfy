/** Encoding and decoding of whole texts (src/tokenizer.cpp lines 347-400): specials verbatim, every other span
normalised, cut into pieces and merged; and what decoding gives back. */
module Tokenizer {
  import opened Arith
  import opened Utf8
  import Nfc
  import Bpe
  import P = Pretokenize

  datatype Special = Special(content: seq<Byte>, id: nat)

  datatype View = View(vocab: Bpe.Vocab, specials: seq<Special>, tables: Nfc.Tables, classes: P.Classes)

  /** What the converter establishes: one vocabulary for bytes, merges and specials, Unicode data over scalar values. */
  predicate WellMade(w: View) {
    && Bpe.Consistent(w.vocab) && Nfc.OverScalars(w.tables) && P.KnowsSpaces(w.classes)
    && SpecialsCarry(w.vocab, w.specials)
  }

  predicate LongestFirst(specials: seq<Special>) {
    forall j, k :: 0 <= j < k < |specials| ==> |specials[j].content| >= |specials[k].content|
  }

  predicate Matches(sp: Special, s: seq<Byte>, pos: nat) {
    sp.content != [] && pos + |sp.content| <= |s| && s[pos..pos + |sp.content|] == sp.content
  }

  datatype Found = Nothing | At(index: nat)

  /** The first special, in stored order, whose content stands at `pos`. */
  function SpecialAt(specials: seq<Special>, s: seq<Byte>, pos: nat): (r: Found)
    ensures r.At? ==> r.index < |specials| && 0 < |specials[r.index].content| <= |s| - pos
  {
    if specials == [] then Nothing
    else
      var front := SpecialAt(specials[..|specials| - 1], s, pos);
      if front.At? then front
      else if Matches(specials[|specials| - 1], s, pos) then At(|specials| - 1)
      else Nothing
  }

  lemma {:induction false} SpecialAtIsFirst(specials: seq<Special>, s: seq<Byte>, pos: nat)
    ensures var r := SpecialAt(specials, s, pos);
            if r.At? then Matches(specials[r.index], s, pos)
                && forall k :: 0 <= k < r.index ==> !Matches(specials[k], s, pos)
            else forall k :: 0 <= k < |specials| ==> !Matches(specials[k], s, pos)
  {
    if specials != [] { SpecialAtIsFirst(specials[..|specials| - 1], s, pos); }
  }

  /** Stored longest first, the first match is a longest one. */
  lemma FirstIsLongest(specials: seq<Special>, s: seq<Byte>, pos: nat, k: nat)
    requires LongestFirst(specials) && k < |specials| && Matches(specials[k], s, pos)
    ensures var r := SpecialAt(specials, s, pos);
            r.At? && Matches(specials[r.index], s, pos) && |specials[k].content| <= |specials[r.index].content|
  {
    SpecialAtIsFirst(specials, s, pos);
  }

  /** The end of the text span that starts at `i`. */
  function SpanEnd(specials: seq<Special>, s: seq<Byte>, i: nat): (j: nat)
    requires i <= |s|
    ensures i <= j <= |s| && (j < |s| ==> SpecialAt(specials, s, j).At?)
    ensures i < |s| && SpecialAt(specials, s, i).Nothing? ==> i < j
    decreases |s| - i
  {
    if i < |s| && SpecialAt(specials, s, i).Nothing? then SpanEnd(specials, s, i + 1) else i
  }

  // ----- What a span becomes

  function SpanNormal(w: View, span: seq<Byte>): seq<nat> { Nfc.Normal(w.tables, Decode(span)) }

  lemma SpanScalar(w: View, span: seq<Byte>)
    requires Nfc.OverScalars(w.tables)
    ensures AllScalar(SpanNormal(w, span))
  {
    DecodesToScalars(span);
    Nfc.NormalScalar(w.tables, Decode(span));
  }

  /** The UTF-8 of a span's normal form. */
  function SpanText(w: View): seq<Byte> -> seq<Byte> {
    span => if AllScalar(SpanNormal(w, span)) then Encode(SpanNormal(w, span)) else []
  }

  // ----- What a text becomes

  /** Specials verbatim, and every span between them as `text` has it. */
  function Kept(specials: seq<Special>, text: seq<Byte> -> seq<Byte>, s: seq<Byte>, i: nat): seq<Byte>
    requires i <= |s|
    decreases |s| - i
  {
    if i == |s| then []
    else
      var hit := SpecialAt(specials, s, i);
      if hit.At? then
        specials[hit.index].content + Kept(specials, text, s, i + |specials[hit.index].content|)
      else
        var j := SpanEnd(specials, s, i);
        text(s[i..j]) + Kept(specials, text, s, j)
  }

  /** `ids` are the tokens of the text from `i` on, when `span` says which are a span's. */
  ghost predicate TextTokens(specials: seq<Special>, span: (seq<Byte>, seq<nat>) -> bool, s: seq<Byte>, i: nat,
                             ids: seq<nat>)
    requires i <= |s|
    decreases |s| - i
  {
    if i == |s| then ids == []
    else
      var hit := SpecialAt(specials, s, i);
      if hit.At? then
        var sp := specials[hit.index];
        ids != [] && ids[0] == sp.id && TextTokens(specials, span, s, i + |sp.content|, ids[1..])
      else
        var j := SpanEnd(specials, s, i);
        exists n :: 0 <= n <= |ids| && span(s[i..j], ids[..n]) && TextTokens(specials, span, s, j, ids[n..])
  }

  /** `ids` are the tokens of the pieces, in order, when `one` says which are a piece's. */
  ghost predicate PieceTokens(one: (P.Piece, seq<nat>) -> bool, pieces: seq<P.Piece>, ids: seq<nat>)
    decreases |pieces|
  {
    if pieces == [] then ids == []
    else exists n :: 0 <= n <= |ids| && one(pieces[0], ids[..n]) && PieceTokens(one, pieces[1..], ids[n..])
  }

  /** One piece's tokens: its bytes, merged greedily. */
  ghost predicate OnePiece(v: Bpe.Vocab, norm: seq<nat>, p: P.Piece, ids: seq<nat>) {
    |v.byteToId| == 256 && AllScalar(norm) && p.start <= p.end <= |norm|
    && Bpe.Merges(v, Bpe.BaseIds(v, Encode(norm[p.start..p.end])), ids)
  }

  ghost function PieceOf(v: Bpe.Vocab, norm: seq<nat>): (P.Piece, seq<nat>) -> bool {
    (p, ids) => OnePiece(v, norm, p, ids)
  }

  /** A span's tokens: those of the pieces the pattern cuts its normal form into. */
  ghost predicate SpanTokens(w: View, span: seq<Byte>, ids: seq<nat>) {
    var norm := SpanNormal(w, span);
    exists pieces ::
      P.Tiles(pieces, 0, |norm|) && P.AllTaken(w.classes, norm, pieces)
          && PieceTokens(PieceOf(w.vocab, norm), pieces, ids)
  }

  ghost function SpanOf(w: View): (seq<Byte>, seq<nat>) -> bool { (span, ids) => SpanTokens(w, span, ids) }

  /** The tokens of a whole text, and what the text becomes. */
  ghost predicate Tokens(w: View, s: seq<Byte>, ids: seq<nat>) { TextTokens(w.specials, SpanOf(w), s, 0, ids) }

  function Normalized(w: View, s: seq<Byte>): seq<Byte> { Kept(w.specials, SpanText(w), s, 0) }

  // ----- The methods

  method FindSpecial(specials: seq<Special>, s: seq<Byte>, pos: nat) returns (r: Found)
    ensures r == SpecialAt(specials, s, pos)
  {
    var k := 0;
    while k < |specials|
      invariant 0 <= k <= |specials| && SpecialAt(specials[..k], s, pos).Nothing?
    {
      assert specials[..k + 1][..k] == specials[..k];
      if Matches(specials[k], s, pos) {
        SpecialStays(specials, s, pos, k + 1);
        return At(k);
      }
      k := k + 1;
    }
    assert specials[..k] == specials;
    r := Nothing;
  }

  lemma {:induction false} SpecialStays(specials: seq<Special>, s: seq<Byte>, pos: nat, n: nat)
    requires n <= |specials| && SpecialAt(specials[..n], s, pos).At?
    ensures SpecialAt(specials, s, pos) == SpecialAt(specials[..n], s, pos)
    decreases |specials|
  {
    if n == |specials| { assert specials[..n] == specials; }
    else {
      var k := |specials| - 1;
      assert specials[..k][..n] == specials[..n];
      SpecialStays(specials[..k], s, pos, n);
    }
  }

  method EncodeSpan(w: View, span: seq<Byte>) returns (ids: seq<nat>)
    requires WellMade(w)
    ensures SpanOf(w)(span, ids)
  {
    var cps := Utf8Decode(span);
    var norm := Nfc.Normalize(w.tables, cps);
    SpanScalar(w, span);
    var pieces := P.Scan(w.classes, norm);
    ids := EncodePieces(w.vocab, norm, pieces);
  }

  method AppendAll(cps: seq<nat>) returns (bytes: seq<Byte>)
    requires AllScalar(cps)
    ensures bytes == Encode(cps)
  {
    bytes := [];
    for k := 0 to |cps|
      invariant AllScalar(cps[..k]) && bytes == Encode(cps[..k])
    {
      assert cps[..k + 1] == cps[..k] + [cps[k]];
      EncodeAppend(cps[..k], [cps[k]]);
      assert Encode([cps[k]]) == Utf8Append(cps[k]) + Encode([]);
      bytes := bytes + Utf8Append(cps[k]);
    }
    assert cps[..|cps|] == cps;
  }

  method EncodePieces(v: Bpe.Vocab, norm: seq<nat>, pieces: seq<P.Piece>) returns (ids: seq<nat>)
    requires AllScalar(norm) && |v.byteToId| == 256 && P.Tiles(pieces, 0, |norm|)
    ensures PieceTokens(PieceOf(v, norm), pieces, ids)
  {
    ghost var one := PieceOf(v, norm);
    ids := [];
    var k := 0;
    TilesInside(pieces, 0, |norm|);
    while k < |pieces|
      invariant 0 <= k <= |pieces| && PieceTokens(one, pieces[..k], ids)
    {
      var bytes := AppendAll(norm[pieces[k].start..pieces[k].end]);
      var more := Bpe.Encode(v, bytes);
      assert one(pieces[k], more);
      PieceTokensMore(one, pieces[..k], ids, pieces[k], more);
      assert pieces[..k + 1] == pieces[..k] + [pieces[k]];
      ids := ids + more;
      k := k + 1;
    }
    assert pieces[..k] == pieces;
  }

  lemma {:induction false} TilesInside(pieces: seq<P.Piece>, i: nat, n: nat)
    requires P.Tiles(pieces, i, n)
    ensures forall k :: 0 <= k < |pieces| ==> i <= pieces[k].start < pieces[k].end <= n
    decreases |pieces|
  {
    if pieces != [] { TilesInside(pieces[1..], pieces[0].end, n); }
  }

  lemma {:induction false} PieceTokensMore(one: (P.Piece, seq<nat>) -> bool, pieces: seq<P.Piece>, ids: seq<nat>,
                                           p: P.Piece, more: seq<nat>)
    requires PieceTokens(one, pieces, ids) && one(p, more)
    ensures PieceTokens(one, pieces + [p], ids + more)
    decreases |pieces|
  {
    var all := ids + more;
    if pieces == [] {
      assert pieces + [p] == [p] && [p][1..] == [] && all == more && all[..|more|] == more && all[|more|..] == [];
    } else {
      var n :| 0 <= n <= |ids| && one(pieces[0], ids[..n]) && PieceTokens(one, pieces[1..], ids[n..]);
      PieceTokensMore(one, pieces[1..], ids[n..], p, more);
      assert (pieces + [p])[1..] == pieces[1..] + [p];
      assert all[..n] == ids[..n] && all[n..] == ids[n..] + more;
    }
  }

  /** The whole encoder. */
  method EncodeText(w: View, s: seq<Byte>) returns (out: seq<nat>)
    requires WellMade(w)
    ensures Tokens(w, s, out)
  {
    out := EncodeFrom(w, s, SpanOf(w));
  }

  method EncodeFrom(w: View, s: seq<Byte>, ghost span: (seq<Byte>, seq<nat>) -> bool) returns (out: seq<nat>)
    requires WellMade(w) && span == SpanOf(w)
    ensures TextTokens(w.specials, span, s, 0, out)
  {
    out := [];
    var i := 0;
    LeadsAtFirst(w.specials, span, s);
    while i < |s|
      invariant 0 <= i <= |s| && Leads(w.specials, span, s, i, out)
      decreases |s| - i
    {
      i, out := EncodeNext(w, s, span, i, out);
    }
    LeadsAtLast(w.specials, span, s, out);
  }

  /** One step of the encoder: a special, or the span up to the next one. */
  method EncodeNext(w: View, s: seq<Byte>, ghost span: (seq<Byte>, seq<nat>) -> bool, i: nat, out: seq<nat>)
    returns (next: nat, all: seq<nat>)
    requires WellMade(w) && span == SpanOf(w) && i < |s| && Leads(w.specials, span, s, i, out)
    ensures i < next <= |s| && Leads(w.specials, span, s, next, all)
  {
    var hit := FindSpecial(w.specials, s, i);
    if hit.At? {
      next, all := EncodeSpecial(w.specials, s, span, i, hit.index, out);
    } else {
      next, all := EncodePlain(w, s, span, i, out);
    }
  }

  method EncodeSpecial(specials: seq<Special>, s: seq<Byte>, ghost span: (seq<Byte>, seq<nat>) -> bool, i: nat,
                       index: nat, out: seq<nat>)
    returns (next: nat, all: seq<nat>)
    requires i < |s| && Leads(specials, span, s, i, out)
    requires SpecialAt(specials, s, i) == At(index)
    ensures i < next <= |s| && Leads(specials, span, s, next, all)
  {
    SpecialFirst(specials, span, s, i, specials[index], out);
    next, all := i + |specials[index].content|, out + [specials[index].id];
  }

  method EncodePlain(w: View, s: seq<Byte>, ghost span: (seq<Byte>, seq<nat>) -> bool, i: nat, out: seq<nat>)
    returns (next: nat, all: seq<nat>)
    requires WellMade(w) && span == SpanOf(w) && i < |s| && Leads(w.specials, span, s, i, out)
    requires !SpecialAt(w.specials, s, i).At?
    ensures i < next <= |s| && Leads(w.specials, span, s, next, all)
  {
    next := FindSpanEnd(w.specials, s, i);
    var ids := EncodeSpan(w, s[i..next]);
    SpanFirst(w.specials, span, s, i, next, ids, out);
    all := out + ids;
  }

  lemma LeadsAtFirst(specials: seq<Special>, span: (seq<Byte>, seq<nat>) -> bool, s: seq<Byte>)
    ensures Leads(specials, span, s, 0, [])
  {
    assert forall rest: seq<nat> :: [] + rest == rest;
  }

  lemma LeadsAtLast(specials: seq<Special>, span: (seq<Byte>, seq<nat>) -> bool, s: seq<Byte>, out: seq<nat>)
    requires Leads(specials, span, s, |s|, out)
    ensures TextTokens(specials, span, s, 0, out)
  {
    assert TextTokens(specials, span, s, |s|, []);
    assert out + [] == out;
  }

  /** `out` followed by the tokens from `i` on is the whole. */
  ghost predicate Leads(specials: seq<Special>, span: (seq<Byte>, seq<nat>) -> bool, s: seq<Byte>, i: nat,
                        out: seq<nat>)
    requires i <= |s|
  {
    forall rest :: TextTokens(specials, span, s, i, rest) ==> TextTokens(specials, span, s, 0, out + rest)
  }

  method FindSpanEnd(specials: seq<Special>, s: seq<Byte>, i: nat) returns (j: nat)
    requires i < |s|
    ensures j == SpanEnd(specials, s, i)
  {
    j := i;
    while j < |s|
      invariant i <= j <= |s| && SpanEnd(specials, s, j) == SpanEnd(specials, s, i)
    {
      var hit := FindSpecial(specials, s, j);
      if hit.At? { break; }
      j := j + 1;
    }
  }

  lemma SpecialFirst(specials: seq<Special>, span: (seq<Byte>, seq<nat>) -> bool, s: seq<Byte>, i: nat, sp: Special,
                     out: seq<nat>)
    requires i < |s| && SpecialAt(specials, s, i).At? && sp == specials[SpecialAt(specials, s, i).index]
    requires Leads(specials, span, s, i, out)
    ensures Leads(specials, span, s, i + |sp.content|, out + [sp.id])
  {
    forall rest | TextTokens(specials, span, s, i + |sp.content|, rest)
      ensures TextTokens(specials, span, s, 0, out + [sp.id] + rest)
    {
      SpecialLeads(specials, span, s, i, sp, [sp.id] + rest, rest);
      assert out + [sp.id] + rest == out + ([sp.id] + rest);
    }
  }

  lemma SpecialLeads(specials: seq<Special>, span: (seq<Byte>, seq<nat>) -> bool, s: seq<Byte>, i: nat, sp: Special,
                     all: seq<nat>, rest: seq<nat>)
    requires i < |s| && SpecialAt(specials, s, i).At? && sp == specials[SpecialAt(specials, s, i).index]
    requires all == [sp.id] + rest && TextTokens(specials, span, s, i + |sp.content|, rest)
    ensures TextTokens(specials, span, s, i, all)
  {
    assert all[0] == sp.id && all[1..] == rest;
  }

  lemma SpanFirst(specials: seq<Special>, span: (seq<Byte>, seq<nat>) -> bool, s: seq<Byte>, i: nat, j: nat,
                  ids: seq<nat>, out: seq<nat>)
    requires i < |s| && SpecialAt(specials, s, i).Nothing? && j == SpanEnd(specials, s, i) && span(s[i..j], ids)
    requires Leads(specials, span, s, i, out)
    ensures Leads(specials, span, s, j, out + ids)
  {
    forall rest | TextTokens(specials, span, s, j, rest) ensures TextTokens(specials, span, s, 0, out + ids + rest) {
      var all := ids + rest;
      assert all[..|ids|] == ids && all[|ids|..] == rest;
      assert TextTokens(specials, span, s, i, all);
      assert out + ids + rest == out + all;
    }
  }

  /** The bytes of the ids that index the vocabulary, one after another. */
  function Raw(v: Bpe.Vocab, ids: seq<int>): seq<Byte> {
    if ids == [] then []
    else
      var last := ids[|ids| - 1];
      Raw(v, ids[..|ids| - 1]) + if 0 <= last < |v.bytes| then v.bytes[last] else []
  }

  function DecodedText(v: Bpe.Vocab, ids: seq<int>): seq<Byte> {
    DecodesToScalars(Raw(v, ids));
    Encode(Decode(Raw(v, ids)))
  }

  method DecodeIds(v: Bpe.Vocab, ids: seq<int>) returns (out: seq<Byte>)
    ensures out == DecodedText(v, ids)
  {
    var raw: seq<Byte> := [];
    for k := 0 to |ids|
      invariant raw == Raw(v, ids[..k])
    {
      assert ids[..k + 1][..k] == ids[..k];
      if 0 <= ids[k] < |v.bytes| { raw := raw + v.bytes[ids[k]]; }
    }
    assert ids[..|ids|] == ids;
    var cps := Utf8Decode(raw);
    DecodesToScalars(raw);
    out := AppendAll(cps);
  }

  // ----- Decoding undoes encoding

  /** Pieces of a text, each spelled by its tokens, spell the whole: `enc` is what bytes a text has. */
  lemma {:induction false} PiecesKeepBytes(v: Bpe.Vocab, one: (P.Piece, seq<nat>) -> bool, enc: seq<nat> -> seq<Byte>,
                                           norm: seq<nat>, pieces: seq<P.Piece>, i: nat, ids: seq<nat>)
    requires i <= |norm| && P.Tiles(pieces, i, |norm|) && PieceTokens(one, pieces, ids)
    requires enc([]) == []
        && forall j, k :: 0 <= j <= k <= |norm| ==> enc(norm[j..]) == enc(norm[j..k]) + enc(norm[k..])
    requires forall p: P.Piece, more :: one(p, more) ==>
               p.start <= p.end <= |norm| && Bpe.Ids(v, more) && Bpe.Concat(v, more) == enc(norm[p.start..p.end])
    ensures Bpe.Ids(v, ids) && Bpe.Concat(v, ids) == enc(norm[i..])
    decreases |pieces|
  {
    if pieces == [] {
      assert norm[i..] == [];
    } else {
      var p := pieces[0];
      var n :| 0 <= n <= |ids| && one(p, ids[..n]) && PieceTokens(one, pieces[1..], ids[n..]);
      PiecesKeepBytes(v, one, enc, norm, pieces[1..], p.end, ids[n..]);
      Joined(v, ids, n, enc(norm[p.start..p.end]), enc(norm[p.end..]));
    }
  }

  lemma Joined(v: Bpe.Vocab, ids: seq<nat>, n: nat, a: seq<Byte>, b: seq<Byte>)
    requires n <= |ids| && Bpe.Ids(v, ids[..n]) && Bpe.Ids(v, ids[n..])
    requires Bpe.Concat(v, ids[..n]) == a && Bpe.Concat(v, ids[n..]) == b
    ensures Bpe.Ids(v, ids) && Bpe.Concat(v, ids) == a + b
  {
    assert ids == ids[..n] + ids[n..];
    Bpe.ConcatAppend(v, ids[..n], ids[n..]);
  }

  lemma OnePieceKeepsBytes(v: Bpe.Vocab, norm: seq<nat>, p: P.Piece, ids: seq<nat>)
    requires Bpe.Consistent(v) && OnePiece(v, norm, p, ids)
    ensures Bpe.Ids(v, ids) && Bpe.Concat(v, ids) == Encode(norm[p.start..p.end])
  {
    Bpe.PieceKeepsBytes(v, Encode(norm[p.start..p.end]), ids);
  }

  lemma EncodeSplit(norm: seq<nat>, i: nat, j: nat)
    requires AllScalar(norm) && i <= j <= |norm|
    ensures Encode(norm[i..]) == Encode(norm[i..j]) + Encode(norm[j..])
  {
    assert norm[i..] == norm[i..j] + norm[j..];
    EncodeAppend(norm[i..j], norm[j..]);
  }

  lemma SpanKeepsBytes(w: View, span: seq<Byte>, ids: seq<nat>)
    requires WellMade(w) && SpanTokens(w, span, ids)
    ensures Bpe.Ids(w.vocab, ids) && Bpe.Concat(w.vocab, ids) == SpanText(w)(span)
  {
    SpanScalar(w, span);
    var norm := SpanNormal(w, span);
    var pieces :| P.Tiles(pieces, 0, |norm|) && P.AllTaken(w.classes, norm, pieces)
                  && PieceTokens(PieceOf(w.vocab, norm), pieces, ids);
    PiecesSpell(w.vocab, norm, pieces, ids);
  }

  /** The bytes of a text of scalar values. */
  function Bytes(): seq<nat> -> seq<Byte> { cps => if AllScalar(cps) then Encode(cps) else [] }

  lemma BytesSplit(norm: seq<nat>, j: nat, k: nat)
    requires AllScalar(norm) && j <= k <= |norm|
    ensures Bytes()(norm[j..]) == Bytes()(norm[j..k]) + Bytes()(norm[k..])
  {
    EncodeSplit(norm, j, k);
    BytesEncode(norm[j..]);
    BytesEncode(norm[j..k]);
    BytesEncode(norm[k..]);
  }

  lemma BytesEncode(cps: seq<nat>)
    requires AllScalar(cps)
    ensures Bytes()(cps) == Encode(cps)
  {}

  lemma OnePieceSpells(v: Bpe.Vocab, norm: seq<nat>, p: P.Piece, ids: seq<nat>)
    requires Bpe.Consistent(v) && PieceOf(v, norm)(p, ids)
    ensures p.start <= p.end <= |norm| && Bpe.Ids(v, ids) && Bpe.Concat(v, ids) == Bytes()(norm[p.start..p.end])
  {
    OnePieceKeepsBytes(v, norm, p, ids);
  }

  /** The tokens of a tiling carry exactly the bytes of the text it tiles. */
  lemma PiecesSpell(v: Bpe.Vocab, norm: seq<nat>, pieces: seq<P.Piece>, ids: seq<nat>)
    requires Bpe.Consistent(v) && AllScalar(norm) && P.Tiles(pieces, 0, |norm|)
        && PieceTokens(PieceOf(v, norm), pieces, ids)
    ensures Bpe.Ids(v, ids) && Bpe.Concat(v, ids) == Encode(norm)
  {
    var enc := Bytes();
    forall j, k | 0 <= j <= k <= |norm|
      ensures enc(norm[j..]) == enc(norm[j..k]) + enc(norm[k..])
    {
      BytesSplit(norm, j, k);
    }
    forall p: P.Piece, more | PieceOf(v, norm)(p, more)
      ensures p.start <= p.end <= |norm| && Bpe.Ids(v, more) && Bpe.Concat(v, more) == enc(norm[p.start..p.end])
    {
      OnePieceSpells(v, norm, p, more);
    }
    PiecesKeepBytes(v, PieceOf(v, norm), enc, norm, pieces, 0, ids);
    assert norm[0..] == norm;
  }

  /** Every span's tokens are in range and carry the span's text. */
  ghost predicate SpansCarry(v: Bpe.Vocab, span: (seq<Byte>, seq<nat>) -> bool, text: seq<Byte> -> seq<Byte>) {
    forall t, ids :: span(t, ids) ==> Bpe.Ids(v, ids) && Bpe.Concat(v, ids) == text(t)
  }

  predicate SpecialsCarry(v: Bpe.Vocab, specials: seq<Special>) {
    forall k :: 0 <= k < |specials| ==> specials[k].id < |v.bytes| && v.bytes[specials[k].id] == specials[k].content
  }

  /** A text's tokens index the vocabulary and carry exactly the kept bytes. */
  lemma {:induction false} TokensKeepBytes(v: Bpe.Vocab, specials: seq<Special>, span: (seq<Byte>, seq<nat>) -> bool,
                                           text: seq<Byte> -> seq<Byte>, s: seq<Byte>, i: nat, ids: seq<nat>)
    requires SpansCarry(v, span, text) && SpecialsCarry(v, specials) && i <= |s|
        && TextTokens(specials, span, s, i, ids)
    ensures Bpe.Ids(v, ids) && Bpe.Concat(v, ids) == Kept(specials, text, s, i)
    decreases |s| - i
  {
    if i < |s| {
      var hit := SpecialAt(specials, s, i);
      if hit.At? {
        var next := i + |specials[hit.index].content|;
        TokensKeepBytes(v, specials, span, text, s, next, ids[1..]);
        KeptAtSpecial(specials, text, s, i);
        SpecialJoins(v, specials[hit.index], ids, Kept(specials, text, s, next));
      } else {
        var j := SpanEnd(specials, s, i);
        var n :| 0 <= n <= |ids| && span(s[i..j], ids[..n]) && TextTokens(specials, span, s, j, ids[n..]);
        TokensKeepBytes(v, specials, span, text, s, j, ids[n..]);
        Joined(v, ids, n, text(s[i..j]), Kept(specials, text, s, j));
      }
    }
  }

  lemma KeptAtSpecial(specials: seq<Special>, text: seq<Byte> -> seq<Byte>, s: seq<Byte>, i: nat)
    requires i < |s| && SpecialAt(specials, s, i).At?
    ensures var content := specials[SpecialAt(specials, s, i).index].content;
            Kept(specials, text, s, i) == content + Kept(specials, text, s, i + |content|)
  {
    var n := |specials[SpecialAt(specials, s, i).index].content|;
    assert 0 < n <= |s| - i;
  }

  lemma SpecialJoins(v: Bpe.Vocab, sp: Special, ids: seq<nat>, rest: seq<Byte>)
    requires sp.id < |v.bytes| && v.bytes[sp.id] == sp.content && ids != [] && ids[0] == sp.id
    requires Bpe.Ids(v, ids[1..]) && Bpe.Concat(v, ids[1..]) == rest
    ensures Bpe.Ids(v, ids) && Bpe.Concat(v, ids) == sp.content + rest
  {
    Bpe.ConcatOne(v, sp.id);
    assert ids[..1] == [sp.id];
    Joined(v, ids, 1, sp.content, rest);
  }

  lemma {:induction false} RawIsConcat(v: Bpe.Vocab, ids: seq<nat>)
    requires Bpe.Ids(v, ids)
    ensures Raw(v, ids) == Bpe.Concat(v, ids)
  {
    if ids != [] { RawIsConcat(v, ids[..|ids| - 1]); }
  }

  /** Specials stored as well-formed UTF-8. */
  predicate SpecialsWellFormed(specials: seq<Special>) {
    forall k :: 0 <= k < |specials| ==> WellFormed(specials[k].content)
  }

  /** A property of strings that the empty one has and concatenation keeps. */
  ghost predicate Concatenates(p: seq<Byte> -> bool) { p([]) && forall a, b :: p(a) && p(b) ==> p(a + b) }

  lemma {:induction false} KeptHas(p: seq<Byte> -> bool, specials: seq<Special>, text: seq<Byte> -> seq<Byte>,
                                   s: seq<Byte>, i: nat)
    requires Concatenates(p) && (forall k :: 0 <= k < |specials| ==> p(specials[k].content))
        && (forall t :: p(text(t))) && i <= |s|
    ensures p(Kept(specials, text, s, i))
    decreases |s| - i
  {
    if i < |s| {
      var hit := SpecialAt(specials, s, i);
      if hit.At? { KeptHas(p, specials, text, s, i + |specials[hit.index].content|); }
      else { KeptHas(p, specials, text, s, SpanEnd(specials, s, i)); }
    }
  }

  function IsWellFormed(): seq<Byte> -> bool { t => WellFormed(t) }

  lemma WellFormedConcatenates()
    ensures Concatenates(IsWellFormed())
  {
    forall a, b | IsWellFormed()(a) && IsWellFormed()(b) ensures IsWellFormed()(a + b) { WellFormedAppend(a, b); }
  }

  lemma SpanWellFormed(w: View, span: seq<Byte>)
    ensures WellFormed(SpanText(w)(span))
  {
    if AllScalar(SpanNormal(w, span)) { EncodesWellFormed(SpanNormal(w, span)); }
  }

  /** The tokens of a text are ids of the vocabulary, and spell the specials verbatim and the spans normalised. */
  lemma TokensSpellText(w: View, s: seq<Byte>, ids: seq<nat>)
    requires WellMade(w) && Tokens(w, s, ids)
    ensures Bpe.Ids(w.vocab, ids) && Bpe.Concat(w.vocab, ids) == Normalized(w, s)
  {
    forall t, more | SpanOf(w)(t, more) ensures Bpe.Ids(w.vocab, more) && Bpe.Concat(w.vocab, more) == SpanText(w)(t) {
      SpanKeepsBytes(w, t, more);
    }
    TokensKeepBytes(w.vocab, w.specials, SpanOf(w), SpanText(w), s, 0, ids);
  }

  /** Decoding a text's tokens gives the text with each special kept verbatim and each span between specials replaced
      by the UTF-8 of its normal form, exactly when those bytes are well formed; they are when every special is. */
  lemma DecodeUndoesEncode(w: View, s: seq<Byte>, ids: seq<nat>)
    requires WellMade(w) && Tokens(w, s, ids)
    ensures DecodedText(w.vocab, ids) == Normalized(w, s) <==> WellFormed(Normalized(w, s))
    ensures SpecialsWellFormed(w.specials) ==> DecodedText(w.vocab, ids) == Normalized(w, s)
  {
    TokensSpellText(w, s, ids);
    RawIsConcat(w.vocab, ids);
    ReencodesIffWellFormed(Normalized(w, s));
    if SpecialsWellFormed(w.specials) {
      forall t ensures WellFormed(SpanText(w)(t)) { SpanWellFormed(w, t); }
      WellFormedConcatenates();
      assert forall t :: IsWellFormed()(SpanText(w)(t));
      KeptHas(IsWellFormed(), w.specials, SpanText(w), s, 0);
    }
  }

  /** A text without specials that is already well formed and normal comes back byte for byte. */
  lemma NormalTextRoundTrips(w: View, s: seq<Byte>, ids: seq<nat>)
    requires WellMade(w) && Tokens(w, s, ids) && WellFormed(s)
    requires forall pos :: 0 <= pos < |s| ==> SpecialAt(w.specials, s, pos).Nothing?
    requires Nfc.Normal(w.tables, Decode(s)) == Decode(s)
    ensures DecodedText(w.vocab, ids) == s
  {
    ReencodesIffWellFormed(s);
    OneSpan(w.specials, SpanText(w), s);
    DecodeUndoesEncode(w, s, ids);
  }

  lemma OneSpan(specials: seq<Special>, text: seq<Byte> -> seq<Byte>, s: seq<Byte>)
    requires forall pos :: 0 <= pos < |s| ==> SpecialAt(specials, s, pos).Nothing?
    ensures Kept(specials, text, s, 0) == if s == [] then [] else text(s)
  {
    if s != [] {
      WholeSpan(specials, s, 0);
      assert s[0..|s|] == s && Kept(specials, text, s, |s|) == [];
    }
  }

  lemma {:induction false} WholeSpan(specials: seq<Special>, s: seq<Byte>, i: nat)
    requires i <= |s| && forall pos :: 0 <= pos < |s| ==> SpecialAt(specials, s, pos).Nothing?
    ensures SpanEnd(specials, s, i) == |s|
    decreases |s| - i
  {
    if i < |s| { WholeSpan(specials, s, i + 1); }
  }
}
