/** The one UTF-8 decoder and encoder of src/tokenizer.cpp lines 30-135, against sections 3.9 of the Unicode Standard:
its Table 3-7 of well-formed sequences and its rule of one U+FFFD per maximal subpart. */
module Utf8 {
  import opened Arith

  const REPLACEMENT: nat := 0xFFFD

  predicate IsScalar(cp: int) { 0 <= cp <= 0x10FFFF && !(0xD800 <= cp <= 0xDFFF) }

  predicate AllScalar(cps: seq<nat>) { forall k :: 0 <= k < |cps| ==> IsScalar(cps[k]) }

  /** A continuation byte: its two high bits are 10. */
  predicate IsCont(b: Byte) { 0x80 <= b < 0xC0 }

  /** One code point's bytes. */
  function Utf8Append(cp: nat): (r: seq<Byte>)
    requires cp <= 0x10FFFF
    ensures 1 <= |r| <= 4
  {
    if cp < 0x80 then [cp]
    else if cp < 0x800 then [0xC0 + cp / 0x40, 0x80 + cp % 0x40]
    else if cp < 0x10000 then [0xE0 + cp / 0x1000, 0x80 + cp / 0x40 % 0x40, 0x80 + cp % 0x40]
    else [0xF0 + cp / 0x40000, 0x80 + cp / 0x1000 % 0x40, 0x80 + cp / 0x40 % 0x40, 0x80 + cp % 0x40]
  }

  function Encode(cps: seq<nat>): seq<Byte>
    requires AllScalar(cps)
  {
    if cps == [] then [] else Utf8Append(cps[0]) + Encode(cps[1..])
  }

  // ----- The decoder

  /** One decoded code point and the bytes it used. */
  datatype Step = Step(cp: nat, used: nat)

  /** The low six bits of the continuation byte at `i`, or -1. */
  function Cont(s: seq<Byte>, i: nat): int { if i < |s| && IsCont(s[i]) then s[i] % 0x40 else -1 }

  /** The second byte's extra bounds: no overlong form, no surrogate, nothing past U+10FFFF. */
  predicate SecondOk(b0: Byte, b1: Byte) {
    && (b0 == 0xE0 ==> b1 >= 0xA0) && (b0 == 0xED ==> b1 <= 0x9F)
    && (b0 == 0xF0 ==> b1 >= 0x90) && (b0 == 0xF4 ==> b1 <= 0x8F)
  }

  /** One turn of the decoding loop at the front of `s`. */
  function DecodeStep(s: seq<Byte>): (r: Step)
    requires s != []
    ensures 1 <= r.used <= |s|
  {
    var b0 := s[0];
    if b0 < 0x80 then Step(b0, 1)
    else if b0 < 0xC2 then Step(REPLACEMENT, 1)
    else if b0 < 0xE0 then
      var c1 := Cont(s, 1);
      if c1 < 0 then Step(REPLACEMENT, 1) else Step(b0 % 0x20 * 0x40 + c1, 2)
    else if b0 < 0xF0 then
      var c1, c2 := Cont(s, 1), Cont(s, 2);
      if c1 < 0 || !SecondOk(b0, s[1]) then Step(REPLACEMENT, 1)
      else if c2 < 0 then Step(REPLACEMENT, 2)
      else Step(b0 % 0x10 * 0x1000 + c1 * 0x40 + c2, 3)
    else if b0 < 0xF5 then
      var c1, c2, c3 := Cont(s, 1), Cont(s, 2), Cont(s, 3);
      if c1 < 0 || !SecondOk(b0, s[1]) then Step(REPLACEMENT, 1)
      else if c2 < 0 then Step(REPLACEMENT, 2)
      else if c3 < 0 then Step(REPLACEMENT, 3)
      else Step(b0 % 0x08 * 0x40000 + c1 * 0x1000 + c2 * 0x40 + c3, 4)
    else Step(REPLACEMENT, 1)
  }

  function Decode(s: seq<Byte>): seq<nat>
    decreases |s|
  {
    if s == [] then [] else [DecodeStep(s).cp] + Decode(s[DecodeStep(s).used..])
  }

  /** One turn of the loop at position `i`, with the checks in the code's order. */
  method DecodeAt(s: seq<Byte>, i: nat) returns (cp: nat, used: nat)
    requires i < |s|
    ensures Step(cp, used) == DecodeStep(s[i..])
  {
    var b0 := s[i];
    ghost var rest := s[i..];
    assert forall k: nat :: k < 4 ==> Cont(s, i + k) == Cont(rest, k);
    if b0 < 0x80 { return b0, 1; }
    if b0 < 0xC2 { return REPLACEMENT, 1; }
    var c1 := Cont(s, i + 1);
    if b0 < 0xE0 {
      if c1 < 0 { return REPLACEMENT, 1; }
      return b0 % 0x20 * 0x40 + c1, 2;
    }
    if b0 >= 0xF5 || c1 < 0 || !SecondOk(b0, s[i + 1]) { return REPLACEMENT, 1; }
    var c2 := Cont(s, i + 2);
    if c2 < 0 { return REPLACEMENT, 2; }
    if b0 < 0xF0 { return b0 % 0x10 * 0x1000 + c1 * 0x40 + c2, 3; }
    var c3 := Cont(s, i + 3);
    if c3 < 0 { return REPLACEMENT, 3; }
    return b0 % 0x08 * 0x40000 + c1 * 0x1000 + c2 * 0x40 + c3, 4;
  }

  lemma DecodesOn(s: seq<Byte>, i: nat, cp: nat, used: nat)
    requires i < |s| && DecodeStep(s[i..]) == Step(cp, used)
    ensures i + used <= |s| && Decode(s[i..]) == [cp] + Decode(s[i + used..])
  {
    assert s[i..][used..] == s[i + used..];
  }

  method Utf8Decode(s: seq<Byte>) returns (out: seq<nat>)
    ensures out == Decode(s)
  {
    out := [];
    var i := 0;
    while i < |s|
      invariant 0 <= i <= |s| && out + Decode(s[i..]) == Decode(s)
    {
      var cp, used := DecodeAt(s, i);
      DecodesOn(s, i, cp, used);
      ghost var rest := Decode(s[i + used..]);
      assert out + ([cp] + rest) == out + [cp] + rest;
      out := out + [cp];
      i := i + used;
    }
  }

  // ----- Table 3-7

  /** A well-formed sequence for one scalar value, by the rows of Table 3-7. */
  predicate WellFormedUnit(u: seq<Byte>) {
    || (|u| == 1 && u[0] < 0x80)
    || (|u| == 2 && 0xC2 <= u[0] <= 0xDF && IsCont(u[1]))
    || (|u| == 3 && u[0] == 0xE0 && 0xA0 <= u[1] <= 0xBF && IsCont(u[2]))
    || (|u| == 3 && (0xE1 <= u[0] <= 0xEC || 0xEE <= u[0] <= 0xEF) && IsCont(u[1]) && IsCont(u[2]))
    || (|u| == 3 && u[0] == 0xED && 0x80 <= u[1] <= 0x9F && IsCont(u[2]))
    || (|u| == 4 && u[0] == 0xF0 && 0x90 <= u[1] <= 0xBF && IsCont(u[2]) && IsCont(u[3]))
    || (|u| == 4 && 0xF1 <= u[0] <= 0xF3 && IsCont(u[1]) && IsCont(u[2]) && IsCont(u[3]))
    || (|u| == 4 && u[0] == 0xF4 && 0x80 <= u[1] <= 0x8F && IsCont(u[2]) && IsCont(u[3]))
  }

  /** A string of such sequences. */
  predicate WellFormed(s: seq<Byte>)
    decreases |s|
  {
    s == [] || exists n :: 1 <= n <= 4 && n <= |s| && WellFormedUnit(s[..n]) && WellFormed(s[n..])
  }

  // ----- One code point

  lemma TwoDigits(q: int, r: int)
    requires 0 <= r < 0x40
    ensures var cp := q * 0x40 + r; cp / 0x40 == q && cp % 0x40 == r
  {}

  lemma ThreeDigits(q: int, r1: int, r2: int)
    requires 0 <= r1 < 0x40 && 0 <= r2 < 0x40
    ensures var cp := q * 0x1000 + r1 * 0x40 + r2; cp / 0x1000 == q && cp / 0x40 % 0x40 == r1 && cp % 0x40 == r2
  {
    TwoDigits(q * 0x40 + r1, r2);
    TwoDigits(q, r1);
    High(q, r1 * 0x40 + r2, 0x1000);
  }

  lemma High(q: int, r: int, w: int)
    requires 0 <= r < w
    ensures (q * w + r) / w == q
  {
    DivUnique(q * w + r, w, q);
  }

  lemma FourDigits(q: int, r1: int, r2: int, r3: int)
    requires 0 <= r1 < 0x40 && 0 <= r2 < 0x40 && 0 <= r3 < 0x40
    ensures var cp := q * 0x40000 + r1 * 0x1000 + r2 * 0x40 + r3;
            cp / 0x40000 == q && cp / 0x1000 % 0x40 == r1 && cp / 0x40 % 0x40 == r2 && cp % 0x40 == r3
  {
    ThreeDigits(q * 0x40 + r1, r2, r3);
    TwoDigits(q, r1);
    High(q, r1 * 0x1000 + r2 * 0x40 + r3, 0x40000);
  }

  function Low(b: Byte): nat { b % 0x40 }

  /** The decoder on a well-formed sequence: its digits, whatever follows. */
  function Value(u: seq<Byte>): nat
    requires WellFormedUnit(u)
  {
    var b0: nat := u[0];
    if |u| == 1 then b0
    else if |u| == 2 then b0 % 0x20 * 0x40 + Low(u[1])
    else if |u| == 3 then b0 % 0x10 * 0x1000 + Low(u[1]) * 0x40 + Low(u[2])
    else b0 % 0x08 * 0x40000 + Low(u[1]) * 0x1000 + Low(u[2]) * 0x40 + Low(u[3])
  }

  lemma UnitSteps(u: seq<Byte>, rest: seq<Byte>)
    requires WellFormedUnit(u)
    ensures DecodeStep(u + rest) == Step(Value(u), |u|)
  {
    var s := u + rest;
    assert forall k: nat :: k < |u| ==> s[k] == u[k];
  }

  lemma UnitValue(u: seq<Byte>)
    requires WellFormedUnit(u)
    ensures IsScalar(Value(u)) && Utf8Append(Value(u)) == u
  {
    if |u| == 2 { TwoDigits(u[0] % 0x20, Low(u[1])); }
    else if |u| == 3 { UnitValue3(u, u[0], Low(u[1]), Low(u[2])); }
    else if |u| == 4 { UnitValue4(u, u[0], Low(u[1]), Low(u[2]), Low(u[3])); }
  }

  lemma UnitValue3(u: seq<Byte>, b0: int, r1: int, r2: int)
    requires WellFormedUnit(u) && |u| == 3 && u == [b0, 0x80 + r1, 0x80 + r2] && 0 <= r1 < 0x40 && 0 <= r2 < 0x40
    ensures IsScalar(Value(u)) && Utf8Append(Value(u)) == u
  {
    assert Low(u[1]) == r1 && Low(u[2]) == r2 && b0 % 0x10 == b0 - 0xE0;
    ThreeDigits(b0 - 0xE0, r1, r2);
  }

  lemma LowDigits(r1: nat, r2: nat, r3: nat)
    requires r1 < 0x40 && r2 < 0x40 && r3 < 0x40
    ensures Low(0x80 + r1) == r1 && Low(0x80 + r2) == r2 && Low(0x80 + r3) == r3
  {}

  lemma UnitValue4(u: seq<Byte>, b0: int, r1: int, r2: int, r3: int)
    requires WellFormedUnit(u) && |u| == 4 && u == [b0, 0x80 + r1, 0x80 + r2, 0x80 + r3]
    requires 0 <= r1 < 0x40 && 0 <= r2 < 0x40 && 0 <= r3 < 0x40
    ensures IsScalar(Value(u)) && Utf8Append(Value(u)) == u
  {
    LowDigits(r1, r2, r3);
    assert b0 % 0x08 == b0 - 0xF0;
    var cp := (b0 - 0xF0) * 0x40000 + r1 * 0x1000 + r2 * 0x40 + r3;
    assert Value(u) == cp && 0x10000 <= cp <= 0x10FFFF;
    FourDigits(b0 - 0xF0, r1, r2, r3);
  }

  lemma AppendedUnit(cp: nat)
    requires IsScalar(cp)
    ensures WellFormedUnit(Utf8Append(cp)) && Value(Utf8Append(cp)) == cp
  {
    if cp < 0x80 {
    } else if cp < 0x800 {
      Appended2(cp, cp / 0x40, cp % 0x40);
    } else if cp < 0x10000 {
      Digits3(cp);
      Appended3(cp, cp / 0x1000, cp / 0x40 % 0x40, cp % 0x40);
    } else {
      Digits4(cp);
      Appended4(cp, cp / 0x40000, cp / 0x1000 % 0x40, cp / 0x40 % 0x40, cp % 0x40);
    }
  }

  lemma Digits3(cp: nat)
    ensures cp == cp / 0x1000 * 0x1000 + cp / 0x40 % 0x40 * 0x40 + cp % 0x40
  {
    DivDiv(cp, 0x40, 0x40);
  }

  lemma Digits4(cp: nat)
    ensures cp == cp / 0x40000 * 0x40000 + cp / 0x1000 % 0x40 * 0x1000 + cp / 0x40 % 0x40 * 0x40 + cp % 0x40
  {
    Digits3(cp);
    DivDiv(cp, 0x1000, 0x40);
  }

  lemma Appended2(cp: nat, q: nat, r: nat)
    requires 0x80 <= cp < 0x800 && r < 0x40 && cp == q * 0x40 + r
    ensures var u := [0xC0 + q, 0x80 + r]; WellFormedUnit(u) && Value(u) == cp
  {
    assert (0xC0 + q) % 0x20 == q && Low(0x80 + r) == r;
  }

  lemma Appended3(cp: nat, q: nat, r1: nat, r2: nat)
    requires 0x800 <= cp < 0x10000 && IsScalar(cp) && r1 < 0x40 && r2 < 0x40 && cp == q * 0x1000 + r1 * 0x40 + r2
    ensures var u := [0xE0 + q, 0x80 + r1, 0x80 + r2]; WellFormedUnit(u) && Value(u) == cp
  {
    assert (0xE0 + q) % 0x10 == q && Low(0x80 + r1) == r1 && Low(0x80 + r2) == r2;
  }

  lemma Appended4(cp: nat, q: nat, r1: nat, r2: nat, r3: nat)
    requires 0x10000 <= cp <= 0x10FFFF && r1 < 0x40 && r2 < 0x40 && r3 < 0x40
    requires cp == q * 0x40000 + r1 * 0x1000 + r2 * 0x40 + r3
    ensures var u := [0xF0 + q, 0x80 + r1, 0x80 + r2, 0x80 + r3]; WellFormedUnit(u) && Value(u) == cp
  {
    assert (0xF0 + q) % 0x08 == q && Low(0x80 + r1) == r1 && Low(0x80 + r2) == r2 && Low(0x80 + r3) == r3;
  }

  /** The encoder writes a well-formed sequence for every scalar value, and the decoder reads it back. */
  lemma UnitRoundTrip(cp: nat, rest: seq<Byte>)
    requires IsScalar(cp)
    ensures WellFormedUnit(Utf8Append(cp)) && DecodeStep(Utf8Append(cp) + rest) == Step(cp, |Utf8Append(cp)|)
  {
    AppendedUnit(cp);
    UnitSteps(Utf8Append(cp), rest);
  }

  /** A well-formed sequence is the encoding of what the decoder reads from it. */
  lemma UnitDecodes(u: seq<Byte>, rest: seq<Byte>)
    requires WellFormedUnit(u)
    ensures var step := DecodeStep(u + rest);
            step.used == |u| && IsScalar(step.cp) && Utf8Append(step.cp) == u
  {
    UnitSteps(u, rest);
    UnitValue(u);
  }

  // ----- Strings

  /** Decoding undoes encoding on every string of scalar values. */
  lemma {:induction false} DecodeEncode(cps: seq<nat>)
    requires AllScalar(cps)
    ensures Decode(Encode(cps)) == cps
  {
    if cps != [] {
      UnitRoundTrip(cps[0], Encode(cps[1..]));
      var u := Utf8Append(cps[0]);
      assert (u + Encode(cps[1..]))[|u|..] == Encode(cps[1..]);
      DecodeEncode(cps[1..]);
    }
  }

  lemma StepIsScalar(s: seq<Byte>)
    requires s != []
    ensures IsScalar(DecodeStep(s).cp)
  {}

  /** Whatever the bytes, only scalar values come out. */
  lemma {:induction false} DecodesToScalars(s: seq<Byte>)
    ensures AllScalar(Decode(s))
    decreases |s|
  {
    if s != [] {
      StepIsScalar(s);
      DecodesToScalars(s[DecodeStep(s).used..]);
    }
  }

  lemma {:induction false} EncodeAppend(a: seq<nat>, b: seq<nat>)
    requires AllScalar(a) && AllScalar(b)
    ensures AllScalar(a + b) && Encode(a + b) == Encode(a) + Encode(b)
  {
    if a == [] { assert a + b == b; }
    else {
      assert (a + b)[0] == a[0] && (a + b)[1..] == a[1..] + b;
      EncodeAppend(a[1..], b);
      Assoc(Utf8Append(a[0]), Encode(a[1..]), Encode(b));
    }
  }

  lemma Assoc(a: seq<Byte>, b: seq<Byte>, c: seq<Byte>)
    ensures a + (b + c) == a + b + c
  {}

  /** What is written is well formed. */
  lemma {:induction false} EncodesWellFormed(cps: seq<nat>)
    requires AllScalar(cps)
    ensures WellFormed(Encode(cps))
  {
    if cps != [] {
      var u := Utf8Append(cps[0]);
      UnitRoundTrip(cps[0], []);
      EncodesWellFormed(cps[1..]);
      assert Encode(cps)[..|u|] == u && Encode(cps)[|u|..] == Encode(cps[1..]);
    }
  }

  /** Decoding and encoding again gives the bytes back exactly when they are well formed. */
  lemma {:induction false} ReencodesIffWellFormed(s: seq<Byte>)
    ensures AllScalar(Decode(s)) && (Encode(Decode(s)) == s <==> WellFormed(s))
  {
    DecodesToScalars(s);
    if Encode(Decode(s)) == s { EncodesWellFormed(Decode(s)); }
    if WellFormed(s) { WellFormedReencodes(s); }
  }

  lemma {:induction false} WellFormedReencodes(s: seq<Byte>)
    requires WellFormed(s) && AllScalar(Decode(s))
    ensures Encode(Decode(s)) == s
    decreases |s|
  {
    if s != [] {
      var n :| 1 <= n <= 4 && n <= |s| && WellFormedUnit(s[..n]) && WellFormed(s[n..]);
      assert s == s[..n] + s[n..];
      UnitDecodes(s[..n], s[n..]);
      DecodesToScalars(s[n..]);
      WellFormedReencodes(s[n..]);
    }
  }

  /** Well-formed strings concatenate. */
  lemma {:induction false} WellFormedAppend(a: seq<Byte>, b: seq<Byte>)
    requires WellFormed(a) && WellFormed(b)
    ensures WellFormed(a + b)
    decreases |a|
  {
    if a == [] { assert a + b == b; }
    else {
      var n :| 1 <= n <= 4 && n <= |a| && WellFormedUnit(a[..n]) && WellFormed(a[n..]);
      assert (a + b)[..n] == a[..n] && (a + b)[n..] == a[n..] + b;
      WellFormedAppend(a[n..], b);
    }
  }

  // ----- Maximal subparts

  /** An initial part of some well-formed sequence, short of the whole. */
  ghost predicate Subpart(p: seq<Byte>) { exists u :: WellFormedUnit(u) && |p| < |u| && p == u[..|p|] }

  /** The front of `s` begins no well-formed sequence. */
  predicate IllFormedFront(s: seq<Byte>) { forall n :: 1 <= n <= |s| ==> !WellFormedUnit(s[..n]) }

  /** The decoder substitutes exactly at an ill-formed front, and what one substitution uses is its maximal subpart:
      the longest initial part of a well-formed sequence found there, or a single byte when there is none. */
  lemma SubstitutesMaximalSubpart(s: seq<Byte>)
    requires s != [] && IllFormedFront(s)
    ensures DecodeStep(s).cp == REPLACEMENT
    ensures var n := DecodeStep(s).used; n > 1 ==> Subpart(s[..n])
    ensures var n := DecodeStep(s).used; forall m :: n < m <= |s| ==> !Subpart(s[..m])
  {
    ReplacedFront(s);
    var n := DecodeStep(s).used;
    if n > 1 { SubpartWitness(s, n); }
    forall m | n < m <= |s| ensures !Subpart(s[..m]) {
      forall u | WellFormedUnit(u) && m < |u| ensures s[..m] != u[..m] { NotInitial(s, u, m); }
    }
  }

  lemma NotInitial(s: seq<Byte>, u: seq<Byte>, m: nat)
    requires s != [] && IllFormedFront(s) && WellFormedUnit(u) && DecodeStep(s).used < m < |u| && m <= |s|
    ensures s[..m] != u[..m]
  {
    ReplacedFront(s);
    assert forall k: nat :: k < m ==> s[..m][k] == s[k] && u[..m][k] == u[k];
    assert |u| == 4 ==> m < 4;
    assert s[..1] != u[..1] || (m > 1 && s[..m][1] != u[..m][1]) || (m > 2 && s[..m][2] != u[..m][2]);
  }

  lemma ReplacedFront(s: seq<Byte>)
    requires s != [] && IllFormedFront(s)
    ensures DecodeStep(s).cp == REPLACEMENT && DecodeStep(s).used <= 3 && (DecodeStep(s).used > 1 ==> s[0] >= 0xE0)
  {
    assert s[..1] == [s[0]] && !WellFormedUnit(s[..1]);
    if |s| >= 2 { assert !WellFormedUnit(s[..2]); }
    if |s| >= 3 { assert !WellFormedUnit(s[..3]); }
    if |s| >= 4 { assert !WellFormedUnit(s[..4]); }
  }

  /** A lead with its valid continuations, completed by 80s. */
  lemma SubpartWitness(s: seq<Byte>, n: nat)
    requires s != [] && DecodeStep(s) == Step(REPLACEMENT, n) && 1 < n <= 3 && IllFormedFront(s)
    ensures Subpart(s[..n])
  {
    ReplacedFront(s);
    var u: seq<Byte> := s[..n] + (if s[0] >= 0xF0 && n == 2 then [0x80, 0x80] else [0x80]);
    assert forall k: nat :: k < n ==> u[k] == s[k];
    assert u[..n] == s[..n];
    assert WellFormedUnit(u);
  }

  // ----- The bit layouts of Table 3-6

  lemma OneByteForm(x: Byte)
    requires x < 0x80
    ensures Decode([x]) == [x]
  {
    assert [x][1..] == [];
  }

  /** Two, three and four bytes carry 5 + 6, 4 + 6 + 6 and 3 + 6 + 6 + 6 bits, the highest first. */
  lemma TwoByteForm(x: nat, y: nat)
    requires x < 0x20 && y < 0x40 && x * 0x40 + y >= 0x80
    ensures Decode([0xC0 + x, 0x80 + y]) == [x * 0x40 + y]
  {
    var s: seq<Byte> := [0xC0 + x, 0x80 + y];
    assert s[2..] == [];
  }

  lemma ThreeByteForm(x: nat, y: nat, z: nat)
    requires x < 0x10 && y < 0x40 && z < 0x40
    requires x * 0x1000 + y * 0x40 + z >= 0x800 && IsScalar(x * 0x1000 + y * 0x40 + z)
    ensures Decode([0xE0 + x, 0x80 + y, 0x80 + z]) == [x * 0x1000 + y * 0x40 + z]
  {
    var s: seq<Byte> := [0xE0 + x, 0x80 + y, 0x80 + z];
    assert s[3..] == [];
  }

  lemma FourByteForm(w: nat, x: nat, y: nat, z: nat)
    requires w < 0x8 && x < 0x40 && y < 0x40 && z < 0x40
    requires 0x1_0000 <= w * 0x40000 + x * 0x1000 + y * 0x40 + z <= 0x10FFFF
    ensures Decode([0xF0 + w, 0x80 + x, 0x80 + y, 0x80 + z]) == [w * 0x40000 + x * 0x1000 + y * 0x40 + z]
  {
    var s: seq<Byte> := [0xF0 + w, 0x80 + x, 0x80 + y, 0x80 + z];
    assert s[4..] == [];
  }
}
