/** The two block compressions: src/sha256.cpp lines 71-99 (portable) and 101-190 (SHA extensions). */
module Sha256Compress {
  import opened Arith
  import opened Sha256Spec

  // ----- Portable

  method CompressPortable(o: Ops, h: State, block: Block) returns (r: State)
    requires Laws(o)
    ensures r == CompressWith(o, h, block)
  {
    var w := ScheduleWords(o, block);
    var s := h;
    for i := 0 to 64
      invariant s == Rounds(o, h, w, i)
    {
      s := Step(o, s, o.k[i], w[i]);
      RoundsStep(o, h, w, i);
    }
    r := AddState(o, h, s);
  }

  lemma RoundsStep(o: Ops, s: State, w: seq<Word>, t: nat)
    requires t < 64 == |o.k| == |w|
    ensures Rounds(o, s, w, t + 1) == Round(o, Rounds(o, s, w, t), o.k[t], w[t])
  {}

  /** The 64 schedule words, filled in place. */
  method ScheduleWords(o: Ops, block: Block) returns (words: seq<Word>)
    requires Laws(o)
    ensures words == Schedule(o, Words(o, block), 64)
  {
    ghost var m := Words(o, block);
    var w := new Word[64](_ => 0);
    for i := 0 to 16
      invariant forall j :: 0 <= j < i ==> w[j] == m[j]
    {
      w[i] := o.bigEndian(block[4 * i], block[4 * i + 1], block[4 * i + 2], block[4 * i + 3]);
    }
    assert w[..16] == Schedule(o, m, 16);
    for i := 16 to 64
      invariant w[..i] == Schedule(o, m, i)
    {
      ghost var before := w[..i];
      Reversed(o, w[i - 16], o.smallSigma0(w[i - 15]), w[i - 7], o.smallSigma1(w[i - 2]));
      w[i] := o.add(o.add(o.add(w[i - 16], o.smallSigma0(w[i - 15])), w[i - 7]), o.smallSigma1(w[i - 2]));
      ScheduleStep(o, m, i, before);
      assert w[..i + 1] == before + [w[i]];
    }
    words := w[..];
  }

  lemma ScheduleStep(o: Ops, m: seq<Word>, n: nat, w: seq<Word>)
    requires |m| == 16 && n >= 16 && w == Schedule(o, m, n)
    ensures Schedule(o, m, n + 1) == w + [Next(o, w[n - 16], w[n - 15], w[n - 7], w[n - 2])]
  {}

  lemma Reversed(o: Ops, x: Word, y: Word, z: Word, t: Word)
    requires Laws(o)
    ensures o.add(o.add(o.add(x, y), z), t) == o.add(o.add(o.add(t, z), y), x)
  {
    assert AddLaw(o, o.add(o.add(x, y), z), t, x) && AddLaw(o, o.add(x, y), z, t);
    assert AddLaw(o, x, y, z) && AddLaw(o, z, o.add(x, y), t);
    assert AddLaw(o, t, z, o.add(x, y)) && AddLaw(o, o.add(t, z), y, x) && AddLaw(o, y, x, t);
  }

  /** The rotation of the eight working variables. */
  method Step(o: Ops, s: State, k: Word, w: Word) returns (r: State)
    ensures r == Round(o, s, k, w)
  {
    var t1 := o.add(o.add(o.add(o.add(s.h, o.bigSigma1(s.e)), o.ch(s.e, s.f, s.g)), k), w);
    var t2 := o.add(o.bigSigma0(s.a), o.maj(s.a, s.b, s.c));
    var h, g, f := s.g, s.f, s.e;
    var e := o.add(s.d, t1);
    var d, c, b := s.c, s.b, s.a;
    var a := o.add(t1, t2);
    r := State(a, b, c, d, e, f, g, h);
  }

  // ----- 128-bit registers

  /** Four 32-bit lanes, lane 0 lowest. */
  datatype Vec = Vec(l0: Word, l1: Word, l2: Word, l3: Word)

  function AddEpi32(o: Ops, a: Vec, b: Vec): Vec {
    Vec(o.add(a.l0, b.l0), o.add(a.l1, b.l1), o.add(a.l2, b.l2), o.add(a.l3, b.l3))
  }

  /** pshufd by 0xB1, 0x1B and 0x0E. */
  function ShuffleB1(v: Vec): Vec { Vec(v.l1, v.l0, v.l3, v.l2) }

  function Shuffle1B(v: Vec): Vec { Vec(v.l3, v.l2, v.l1, v.l0) }

  function Shuffle0E(v: Vec): Vec { Vec(v.l2, v.l3, v.l0, v.l0) }

  /** palignr: the concatenation a:b shifted right by 4 or 8 bytes. */
  function Alignr4(a: Vec, b: Vec): Vec { Vec(b.l1, b.l2, b.l3, a.l0) }

  function Alignr8(a: Vec, b: Vec): Vec { Vec(b.l2, b.l3, a.l0, a.l1) }

  /** pblendw by 0xF0: the low half of `a`, the high half of `b`. */
  function BlendF0(a: Vec, b: Vec): Vec { Vec(a.l0, a.l1, b.l2, b.l3) }

  /** The operands of sha256rnds2 after one round: C, D, G, H and A, B, E, F from lane 3 down. */
  datatype Pair = Pair(cdgh: Vec, abef: Vec)

  function RoundPair(o: Ops, p: Pair, wk: Word): Pair {
    var (a, b, e, f) := (p.abef.l3, p.abef.l2, p.abef.l1, p.abef.l0);
    var (c, d, g, h) := (p.cdgh.l3, p.cdgh.l2, p.cdgh.l1, p.cdgh.l0);
    var x := o.add(o.add(o.add(o.ch(e, f, g), o.bigSigma1(e)), wk), h);
    Pair(Vec(g, f, c, b), Vec(e, o.add(x, d), a, o.add(o.add(x, o.maj(a, b, c)), o.bigSigma0(a))))
  }

  /** sha256rnds2: two rounds with the low two lanes of W + K; the result is the new A, B, E, F. */
  function Rnds2(o: Ops, cdgh: Vec, abef: Vec, wk: Vec): Vec {
    RoundPair(o, RoundPair(o, Pair(cdgh, abef), wk.l0), wk.l1).abef
  }

  /** sha256msg1: W[t-16] + s0(W[t-15]) in every lane. */
  function Msg1(o: Ops, a: Vec, b: Vec): Vec {
    Vec(
      o.add(a.l0, o.smallSigma0(a.l1)), o.add(a.l1, o.smallSigma0(a.l2)),
      o.add(a.l2, o.smallSigma0(a.l3)), o.add(a.l3, o.smallSigma0(b.l0)))
  }

  /** sha256msg2: adds s1(W[t-2]), the last two lanes from the first two just made. */
  function Msg2(o: Ops, a: Vec, b: Vec): Vec {
    var w0, w1 := o.add(a.l0, o.smallSigma1(b.l2)), o.add(a.l1, o.smallSigma1(b.l3));
    Vec(w0, w1, o.add(a.l2, o.smallSigma1(w0)), o.add(a.l3, o.smallSigma1(w1)))
  }

  // ----- The state in two registers

  function Abef(s: State): Vec { Vec(s.f, s.e, s.b, s.a) }

  function Cdgh(s: State): Vec { Vec(s.h, s.g, s.d, s.c) }

  function InRegisters(s: State): Pair { Pair(Cdgh(s), Abef(s)) }

  lemma RoundInRegisters(o: Ops, s: State, k: Word, w: Word)
    requires Laws(o)
    ensures RoundPair(o, InRegisters(s), o.add(w, k)) == InRegisters(Round(o, s, k, w))
  {
    SameSum(o, s.h, o.bigSigma1(s.e), o.ch(s.e, s.f, s.g), k, w);
    var t1 := o.add(o.add(o.add(o.add(s.h, o.bigSigma1(s.e)), o.ch(s.e, s.f, s.g)), k), w);
    var maj, s0 := o.maj(s.a, s.b, s.c), o.bigSigma0(s.a);
    assert AddLaw(o, t1, s.d, s.d) && AddLaw(o, t1, maj, s0) && AddLaw(o, maj, s0, t1);
  }

  lemma SameSum(o: Ops, h: Word, s1: Word, ch: Word, k: Word, w: Word)
    requires Laws(o)
    ensures o.add(o.add(o.add(ch, s1), o.add(w, k)), h) == o.add(o.add(o.add(o.add(h, s1), ch), k), w)
  {
    var wk, x := o.add(w, k), o.add(ch, s1);
    assert AddLaw(o, o.add(x, wk), h, h) && AddLaw(o, h, x, wk) && AddLaw(o, ch, s1, h);
    assert AddLaw(o, h, s1, ch) && AddLaw(o, w, k, h);
    assert AddLaw(o, o.add(o.add(h, s1), ch), k, w);
  }

  /** Two rounds leave the old A, B, E, F as the new C, D, G, H. */
  lemma TwoRounds(o: Ops, s: State, w: seq<Word>, t: nat, wk: Vec)
    requires Laws(o) && |w| == 64 && t + 2 <= 64
    requires wk.l0 == o.add(w[t], o.k[t]) && wk.l1 == o.add(w[t + 1], o.k[t + 1])
    ensures Rnds2(o, Cdgh(Rounds(o, s, w, t)), Abef(Rounds(o, s, w, t)), wk) == Abef(Rounds(o, s, w, t + 2))
    ensures Abef(Rounds(o, s, w, t)) == Cdgh(Rounds(o, s, w, t + 2))
  {
    var r0, r1 := Rounds(o, s, w, t), Rounds(o, s, w, t + 1);
    RoundsStep(o, s, w, t);
    RoundsStep(o, s, w, t + 1);
    RoundInRegisters(o, r0, o.k[t], w[t]);
    RoundInRegisters(o, r1, o.k[t + 1], w[t + 1]);
  }

  // ----- The message in four registers

  /** Words 4g .. 4g+3. */
  function Group(w: seq<Word>, g: nat): Vec
    requires |w| == 64 && g < 16
  {
    Vec(w[4 * g], w[4 * g + 1], w[4 * g + 2], w[4 * g + 3])
  }

  lemma {:induction false} ScheduleAt(o: Ops, m: seq<Word>, n: nat, t: nat)
    requires |m| == 16 && 16 <= t < n
    ensures Schedule(o, m, n)[t]
         == Next(o, Schedule(o, m, n)[t - 16], Schedule(o, m, n)[t - 15], Schedule(o, m, n)[t - 7],
             Schedule(o, m, n)[t - 2])
  {
    ScheduleStep(o, m, n - 1, Schedule(o, m, n - 1));
    if t < n - 1 { ScheduleAt(o, m, n - 1, t); }
  }

  lemma {:induction false} ScheduleStarts(o: Ops, m: seq<Word>, n: nat)
    requires |m| == 16 && n >= 16
    ensures Schedule(o, m, n)[..16] == m
  {
    if n > 16 {
      ScheduleStarts(o, m, n - 1);
      ScheduleStep(o, m, n - 1, Schedule(o, m, n - 1));
    }
  }

  /** One schedule group: sha256msg1, the aligned add and sha256msg2 make the next four words. */
  method ScheduleGroup(o: Ops, ghost m: seq<Word>, ghost w: seq<Word>, g: nat, w0: Vec, w1: Vec, w2: Vec, w3: Vec)
    returns (r: Vec)
    requires Laws(o) && |m| == 16 && w == Schedule(o, m, 64) && 4 <= g < 16
    requires w0 == Group(w, g - 4) && w1 == Group(w, g - 3) && w2 == Group(w, g - 2) && w3 == Group(w, g - 1)
    ensures r == Group(w, g)
  {
    r := Msg2(o, AddEpi32(o, Msg1(o, w0, w1), Alignr4(w3, w2)), w3);
    LaneWord(o, m, w, 4 * g);
    LaneWord(o, m, w, 4 * g + 1);
    LaneWord(o, m, w, 4 * g + 2);
    LaneWord(o, m, w, 4 * g + 3);
  }

  lemma LaneWord(o: Ops, m: seq<Word>, w: seq<Word>, t: nat)
    requires Laws(o) && |m| == 16 && w == Schedule(o, m, 64) && 16 <= t < 64
    ensures o.add(o.add(o.add(w[t - 16], o.smallSigma0(w[t - 15])), w[t - 7]), o.smallSigma1(w[t - 2])) == w[t]
  {
    ScheduleAt(o, m, 64, t);
    Reversed(o, w[t - 16], o.smallSigma0(w[t - 15]), w[t - 7], o.smallSigma1(w[t - 2]));
  }

  /** Four rounds: two sha256rnds2, the second with the high lanes of W + K. */
  method Rounds4(o: Ops, ghost s: State, ghost w: seq<Word>, g: nat, p: Pair, wg: Vec) returns (r: Pair)
    requires Laws(o) && |w| == 64 && g < 16 && wg == Group(w, g) && p == InRegisters(Rounds(o, s, w, 4 * g))
    ensures r == InRegisters(Rounds(o, s, w, 4 * g + 4))
  {
    var msg := AddEpi32(o, wg, Vec(o.k[4 * g], o.k[4 * g + 1], o.k[4 * g + 2], o.k[4 * g + 3]));
    TwoRounds(o, s, w, 4 * g, msg);
    TwoRounds(o, s, w, 4 * g + 2, Shuffle0E(msg));
    var cdgh := Rnds2(o, p.cdgh, p.abef, msg);
    var abef := Rnds2(o, p.abef, cdgh, Shuffle0E(msg));
    r := Pair(cdgh, abef);
  }

  /** pshufb with the control that reverses the bytes of each dword. */
  const BSWAP32: seq<nat> := [3, 2, 1, 0, 7, 6, 5, 4, 11, 10, 9, 8, 15, 14, 13, 12]

  function ShuffleBytes(b: seq<Byte>): (r: seq<Byte>)
    requires |b| == 16
    ensures |r| == 16
  {
    seq(16, j requires 0 <= j < 16 => b[BSWAP32[j]])
  }

  /** Sixteen bytes as lanes: the machine is little-endian. */
  function Lanes(o: Ops, b: seq<Byte>): Vec
    requires |b| == 16
  {
    Vec(
      o.littleEndian(b[0], b[1], b[2], b[3]), o.littleEndian(b[4], b[5], b[6], b[7]),
      o.littleEndian(b[8], b[9], b[10], b[11]), o.littleEndian(b[12], b[13], b[14], b[15]))
  }

  method LoadGroup(o: Ops, block: Block, g: nat, ghost w: seq<Word>) returns (v: Vec)
    requires Laws(o) && g < 4 && w == Schedule(o, Words(o, block), 64)
    ensures v == Group(w, g)
  {
    var b := block[16 * g..16 * g + 16];
    v := Lanes(o, ShuffleBytes(b));
    LoadedLane(o, block, b, g, 0);
    LoadedLane(o, block, b, g, 1);
    LoadedLane(o, block, b, g, 2);
    LoadedLane(o, block, b, g, 3);
  }

  lemma LoadedLane(o: Ops, block: Block, b: seq<Byte>, g: nat, i: nat)
    requires Laws(o) && g < 4 && i < 4 && b == block[16 * g..16 * g + 16]
    ensures o.littleEndian(b[4 * i + 3], b[4 * i + 2], b[4 * i + 1], b[4 * i])
         == Schedule(o, Words(o, block), 64)[4 * g + i]
  {
    ScheduleStarts(o, Words(o, block), 64);
    assert Schedule(o, Words(o, block), 64)[4 * g + i] == Schedule(o, Words(o, block), 64)[..16][4 * g + i];
    assert LoadLaw(o, b[4 * i], b[4 * i + 1], b[4 * i + 2], b[4 * i + 3]);
    assert 4 * (4 * g + i) == 16 * g + 4 * i;
  }

  /** The SHA-extension compression: the state permuted into two registers, sixteen groups of
      four rounds, and the state permuted back. */
  method CompressShaNi(o: Ops, h: State, block: Block) returns (r: State)
    requires Laws(o)
    ensures r == CompressWith(o, h, block)
  {
    var dcba, hgfe := Vec(h.a, h.b, h.c, h.d), Vec(h.e, h.f, h.g, h.h);
    var cdab, efgh := ShuffleB1(dcba), Shuffle1B(hgfe);
    var start := Pair(BlendF0(efgh, cdab), Alignr8(cdab, efgh));
    assert start == InRegisters(h);
    var p := GroupsOfFour(o, h, block, start);
    var abef, cdgh := AddEpi32(o, p.abef, start.abef), AddEpi32(o, p.cdgh, start.cdgh);
    var feba, dchg := Shuffle1B(abef), ShuffleB1(cdgh);
    dcba, hgfe := BlendF0(feba, dchg), Alignr8(dchg, feba);
    r := State(dcba.l0, dcba.l1, dcba.l2, dcba.l3, hgfe.l0, hgfe.l1, hgfe.l2, hgfe.l3);
    ghost var t := Rounds(o, h, Schedule(o, Words(o, block), 64), 64);
    AddBackwards(o, h, t);
  }

  /** The registers add the input to the result, the portable form the result to the input. */
  lemma AddBackwards(o: Ops, s: State, t: State)
    requires Laws(o)
    ensures AddState(o, t, s) == AddState(o, s, t)
  {
    assert AddLaw(o, s.a, t.a, 0) && AddLaw(o, s.b, t.b, 0) && AddLaw(o, s.c, t.c, 0) && AddLaw(o, s.d, t.d, 0);
    assert AddLaw(o, s.e, t.e, 0) && AddLaw(o, s.f, t.f, 0) && AddLaw(o, s.g, t.g, 0) && AddLaw(o, s.h, t.h, 0);
  }

  method GroupsOfFour(o: Ops, h: State, block: Block, start: Pair) returns (p: Pair)
    requires Laws(o) && start == InRegisters(h)
    ensures p == InRegisters(Rounds(o, h, Schedule(o, Words(o, block), 64), 64))
  {
    ghost var m := Words(o, block);
    ghost var w := Schedule(o, m, 64);
    p := start;
    var w0 := LoadGroup(o, block, 0, w);
    var w1 := LoadGroup(o, block, 1, w);
    var w2 := LoadGroup(o, block, 2, w);
    var w3 := LoadGroup(o, block, 3, w);
    p := Rounds4(o, h, w, 0, p, w0);
    p := Rounds4(o, h, w, 1, p, w1);
    p := Rounds4(o, h, w, 2, p, w2);
    p := Rounds4(o, h, w, 3, p, w3);
    p, w0, w1, w2, w3 := FourGroups(o, h, m, w, 4, p, w0, w1, w2, w3);
    p, w0, w1, w2, w3 := FourGroups(o, h, m, w, 8, p, w0, w1, w2, w3);
    p, w0, w1, w2, w3 := FourGroups(o, h, m, w, 12, p, w0, w1, w2, w3);
  }

  /** Four schedule-and-round groups in a row: each register is rewritten from the other three and itself. */
  method FourGroups(o: Ops, ghost h: State, ghost m: seq<Word>, ghost w: seq<Word>, g: nat, p: Pair,
                    w0: Vec, w1: Vec, w2: Vec, w3: Vec)
    returns (r: Pair, v0: Vec, v1: Vec, v2: Vec, v3: Vec)
    requires Laws(o) && |m| == 16 && w == Schedule(o, m, 64) && g in {4, 8, 12}
    requires p == InRegisters(Rounds(o, h, w, 4 * g))
    requires w0 == Group(w, g - 4) && w1 == Group(w, g - 3) && w2 == Group(w, g - 2) && w3 == Group(w, g - 1)
    ensures r == InRegisters(Rounds(o, h, w, 4 * g + 16))
    ensures v0 == Group(w, g) && v1 == Group(w, g + 1) && v2 == Group(w, g + 2) && v3 == Group(w, g + 3)
  {
    v0 := ScheduleGroup(o, m, w, g, w0, w1, w2, w3);
    r := Rounds4(o, h, w, g, p, v0);
    v1 := ScheduleGroup(o, m, w, g + 1, w1, w2, w3, v0);
    r := Rounds4(o, h, w, g + 1, r, v1);
    v2 := ScheduleGroup(o, m, w, g + 2, w2, w3, v0, v1);
    r := Rounds4(o, h, w, g + 2, r, v2);
    v3 := ScheduleGroup(o, m, w, g + 3, w3, v0, v1, v2);
    r := Rounds4(o, h, w, g + 3, r, v3);
  }

  // ----- Dispatch

  datatype Impl = Portable | ShaNi

  /** Whichever implementation the process selected, a block's compression is the standard's. */
  method CompressBlock(o: Ops, impl: Impl, h: State, block: Block) returns (r: State)
    requires Laws(o)
    ensures r == CompressWith(o, h, block)
  {
    match impl
    case Portable => r := CompressPortable(o, h, block);
    case ShaNi => r := CompressShaNi(o, h, block);
  }
}
