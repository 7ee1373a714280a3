/** What a text becomes, piece by piece from its front: a special is kept and the rest treated alike, and a span up to
the next special is replaced by the UTF-8 of its normal form (src/tokenizer.cpp lines 347-383). */
module TokenizerLaws {
  import opened Arith
  import opened Utf8
  import opened Tokenizer
  import Nfc

  lemma MatchesShift(sp: Special, a: seq<Byte>, u: seq<Byte>, pos: nat)
    ensures Matches(sp, a + u, |a| + pos) <==> Matches(sp, u, pos)
  {
    if pos + |sp.content| <= |u| {
      assert (a + u)[|a| + pos..|a| + pos + |sp.content|] == u[pos..pos + |sp.content|];
    }
  }

  lemma {:induction false} SpecialAtShift(specials: seq<Special>, a: seq<Byte>, u: seq<Byte>, pos: nat)
    ensures SpecialAt(specials, a + u, |a| + pos) == SpecialAt(specials, u, pos)
  {
    if specials != [] {
      SpecialAtShift(specials[..|specials| - 1], a, u, pos);
      MatchesShift(specials[|specials| - 1], a, u, pos);
    }
  }

  lemma {:induction false} SpanEndShift(specials: seq<Special>, a: seq<Byte>, u: seq<Byte>, i: nat)
    requires i <= |u|
    ensures SpanEnd(specials, a + u, |a| + i) == |a| + SpanEnd(specials, u, i)
    decreases |u| - i
  {
    SpecialAtShift(specials, a, u, i);
    if i < |u| && SpecialAt(specials, u, i).Nothing? { SpanEndShift(specials, a, u, i + 1); }
  }

  /** From `i` on, `front` is kept and then what is kept from `n` on. */
  predicate KeepsFirst(specials: seq<Special>, text: seq<Byte> -> seq<Byte>, s: seq<Byte>, i: nat, front: seq<Byte>,
                       n: nat)
  {
    i <= |s| && n <= |s| && Kept(specials, text, s, i) == front + Kept(specials, text, s, n)
  }

  lemma KeptSpecial(specials: seq<Special>, text: seq<Byte> -> seq<Byte>, s: seq<Byte>, i: nat, k: nat, c: seq<Byte>,
                    n: nat)
    requires i < |s| && SpecialAt(specials, s, i) == Found.At(k) && specials[k].content == c && n == i + |c|
    ensures KeepsFirst(specials, text, s, i, c, n)
  {}

  lemma KeptSpan(specials: seq<Special>, text: seq<Byte> -> seq<Byte>, s: seq<Byte>, i: nat, j: nat)
    requires i < |s| && SpecialAt(specials, s, i).Nothing? && j == SpanEnd(specials, s, i)
    ensures i <= j <= |s| && KeepsFirst(specials, text, s, i, text(s[i..j]), j)
  {}

  /** What is kept from a position on does not depend on what stands before it. */
  lemma {:induction false} KeptShift(specials: seq<Special>, text: seq<Byte> -> seq<Byte>, a: seq<Byte>, u: seq<Byte>,
                                     s: seq<Byte>, i: nat, at: nat)
    requires i <= |u| && at == |a| + i && s == a + u
    ensures Kept(specials, text, s, at) == Kept(specials, text, u, i)
    decreases |u| - i
  {
    if i < |u| {
      var front, n := FrontShift(specials, text, a, u, s, i, at);
      KeptShift(specials, text, a, u, s, n, |a| + n);
    }
  }

  /** The two texts keep the same front. */
  lemma FrontShift(specials: seq<Special>, text: seq<Byte> -> seq<Byte>, a: seq<Byte>, u: seq<Byte>, s: seq<Byte>,
                   i: nat, at: nat) returns (front: seq<Byte>, n: nat)
    requires i < |u| && at == |a| + i && s == a + u
    ensures i < n <= |u| && KeepsFirst(specials, text, u, i, front, n)
    ensures KeepsFirst(specials, text, s, at, front, |a| + n)
  {
    SpecialAtShift(specials, a, u, i);
    var hit := SpecialAt(specials, u, i);
    if hit.At? {
      front := specials[hit.index].content;
      n := i + |front|;
      KeptSpecial(specials, text, u, i, hit.index, front, n);
      KeptSpecial(specials, text, s, at, hit.index, front, |a| + n);
    } else {
      n := SpanEnd(specials, u, i);
      SpanEndShift(specials, a, u, i);
      SliceShift(a, u, i, n, at, |a| + n);
      front := text(u[i..n]);
      KeptSpan(specials, text, u, i, n);
      KeptSpan(specials, text, s, at, |a| + n);
    }
  }

  lemma SliceShift(a: seq<Byte>, u: seq<Byte>, i: nat, j: nat, at: nat, end: nat)
    requires i <= j <= |u| && at == |a| + i && end == |a| + j
    ensures (a + u)[at..end] == u[i..j]
  {}

  lemma SpecialFront(specials: seq<Special>, text: seq<Byte> -> seq<Byte>, k: nat, c: seq<Byte>, u: seq<Byte>)
    requires k < |specials| && specials[k].content == c != []
    requires forall j :: 0 <= j < k ==> !Matches(specials[j], c + u, 0)
    ensures Kept(specials, text, c + u, 0) == c + Kept(specials, text, u, 0)
  {
    assert (c + u)[0..|c|] == c;
    SpecialAtIsFirst(specials, c + u, 0);
    assert Matches(specials[k], c + u, 0);
    KeptSpecial(specials, text, c + u, 0, k, c, |c|);
    KeptShift(specials, text, c, u, c + u, 0, |c|);
  }

  /** A text that begins with a special, and with none stored before it, keeps it verbatim. */
  lemma SpecialThenRest(w: View, k: nat, u: seq<Byte>)
    requires k < |w.specials| && w.specials[k].content != []
    requires forall j :: 0 <= j < k ==> !Matches(w.specials[j], w.specials[k].content + u, 0)
    ensures Normalized(w, w.specials[k].content + u) == w.specials[k].content + Normalized(w, u)
  {
    SpecialFront(w.specials, SpanText(w), k, w.specials[k].content, u);
  }

  /** No special stands within `t`, and one stands at the front of `u` unless it is empty. */
  ghost predicate SpanBefore(specials: seq<Special>, t: seq<Byte>, u: seq<Byte>) {
    && (forall pos, j :: 0 <= pos < |t| && 0 <= j < |specials| ==> !Matches(specials[j], t + u, pos))
    && (u == [] || exists j :: 0 <= j < |specials| && Matches(specials[j], u, 0))
  }

  lemma SpanFront(specials: seq<Special>, text: seq<Byte> -> seq<Byte>, t: seq<Byte>, u: seq<Byte>)
    requires t != [] && SpanBefore(specials, t, u)
    ensures Kept(specials, text, t + u, 0) == text(t) + Kept(specials, text, u, 0)
  {
    SpecialAtIsFirst(specials, t + u, 0);
    SpanTo(specials, t, u, 0);
    assert (t + u)[0..|t|] == t;
    KeptSpan(specials, text, t + u, 0, |t|);
    KeptShift(specials, text, t, u, t + u, 0, |t|);
  }

  /** A text that begins with a span, up to a special or the end, has its normal form there. */
  lemma SpanThenRest(w: View, t: seq<Byte>, u: seq<Byte>)
    requires t != [] && Nfc.OverScalars(w.tables) && SpanBefore(w.specials, t, u)
    ensures AllScalar(Nfc.Normal(w.tables, Decode(t)))
    ensures Normalized(w, t + u) == Encode(Nfc.Normal(w.tables, Decode(t))) + Normalized(w, u)
  {
    SpanScalar(w, t);
    SpanFront(w.specials, SpanText(w), t, u);
    SpanTextIs(w, t);
  }

  lemma SpanTextIs(w: View, t: seq<Byte>)
    requires AllScalar(Nfc.Normal(w.tables, Decode(t)))
    ensures SpanText(w)(t) == Encode(Nfc.Normal(w.tables, Decode(t)))
  {}

  lemma {:induction false} SpanTo(specials: seq<Special>, t: seq<Byte>, u: seq<Byte>, i: nat)
    requires i <= |t| && SpanBefore(specials, t, u)
    ensures SpanEnd(specials, t + u, i) == |t|
    decreases |t| - i
  {
    SpecialAtIsFirst(specials, t + u, i);
    if i < |t| {
      SpanTo(specials, t, u, i + 1);
    } else {
      SpecialAtShift(specials, t, u, 0);
      SpecialAtIsFirst(specials, u, 0);
    }
  }
}
