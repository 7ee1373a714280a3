/** The forced-next table of one schema and the chain it drives: src/forced_table.h lines 50-62, 94-202 and 229-244,
with the row lookup of include/superslm/schema_masks.h lines 202-221. */
module ForcedTable {
  import opened Arith
  import opened ForcedGraph
  import opened Wrappers

  datatype Edge = Edge(id: nat, next: nat)

  /** A token DFA: one row of edges per state, ascending by token id, and the ascending accepting states. */
  datatype Dfa = Dfa(rows: seq<seq<Edge>>, accepting: seq<nat>) {
    ghost predicate Valid() {
      && (forall s, i :: 0 <= s < |rows| && 0 <= i < |rows[s]| ==> rows[s][i].next < |rows|)
      && (forall s :: 0 <= s < |rows| ==> Ascending(rows[s]))
      && forall i, j :: 0 <= i < j < |accepting| ==> accepting[i] < accepting[j]
    }
  }

  predicate Ascending(row: seq<Edge>) { forall i, j :: 0 <= i < j < |row| ==> row[i].id < row[j].id }

  /** Token bytes (none for an id past the vocabulary), special ids, and the single-byte tokens. */
  datatype Vocab = Vocab(tokens: seq<seq<Byte>>, special: seq<bool>, byteId: seq<nat>) {
    ghost predicate Valid() {
      && |byteId| == 0x100
      && forall b :: 0 <= b < 0x100 ==> byteId[b] < |tokens| && tokens[byteId[b]] == [b]
    }

    function BytesOf(id: nat): seq<Byte> { if id < |tokens| then tokens[id] else [] }

    predicate Special(id: nat) { id < |special| && special[id] }
  }

  // ----- Lookups

  ghost predicate Leads(row: seq<Edge>, id: nat, next: nat) { exists i :: 0 <= i < |row| && row[i] == Edge(id, next) }

  lemma LeadsOnce(row: seq<Edge>, id: nat, a: nat, b: nat)
    requires Ascending(row) && Leads(row, id, a) && Leads(row, id, b)
    ensures a == b
  {
    var i :| 0 <= i < |row| && row[i] == Edge(id, a);
    var j :| 0 <= j < |row| && row[j] == Edge(id, b);
    assert i == j;
  }

  /** The binary search of a row. */
  method Transition(row: seq<Edge>, id: nat) returns (next: Option<nat>)
    requires Ascending(row)
    ensures next.Some? ==> Leads(row, id, next.value)
    ensures next.None? ==> forall n :: !Leads(row, id, n)
  {
    var lo, hi := 0, |row|;
    while lo < hi
      invariant 0 <= lo <= hi <= |row|
      invariant forall i :: 0 <= i < lo ==> row[i].id < id
      invariant forall i :: hi <= i < |row| ==> row[i].id > id
    {
      var mid := lo + (hi - lo) / 2;
      if row[mid].id == id {
        assert row[mid] == Edge(id, row[mid].next);
        return Some(row[mid].next);
      }
      if row[mid].id < id { lo := mid + 1; } else { hi := mid; }
    }
    next := None;
  }

  method IsAccepting(d: Dfa, state: nat) returns (yes: bool)
    requires d.Valid()
    ensures yes <==> state in d.accepting
  {
    var lo, hi := 0, |d.accepting|;
    while lo < hi
      invariant 0 <= lo <= hi <= |d.accepting|
      invariant forall i :: 0 <= i < lo ==> d.accepting[i] < state
      invariant forall i :: hi <= i < |d.accepting| ==> d.accepting[i] > state
    {
      var mid := lo + (hi - lo) / 2;
      if d.accepting[mid] == state { return true; }
      if d.accepting[mid] < state { lo := mid + 1; } else { hi := mid; }
    }
    yes := false;
  }

  // ----- The forced test

  /** A plain token: has bytes and is no special id. */
  predicate Plain(v: Vocab, id: nat) { !v.Special(id) && |v.BytesOf(id)| > 0 }

  /** Every token of the row is plain and starts with byte `b`. */
  predicate OneFirstByte(v: Vocab, row: seq<Edge>, b: int) {
    forall i :: 0 <= i < |row| ==> Plain(v, row[i].id) && v.BytesOf(row[i].id)[0] == b
  }

  /** A state is forced to byte `b` and then to state `t`. */
  ghost predicate ForcedTo(d: Dfa, v: Vocab, s: nat, b: int, t: nat)
    requires v.Valid() && s < |d.rows|
  {
    && s !in d.accepting && d.rows[s] != [] && 0 <= b < 0x100
    && OneFirstByte(v, d.rows[s], b) && Leads(d.rows[s], v.byteId[b], t)
  }

  method ForcedTest(d: Dfa, v: Vocab, s: nat) returns (step: int, succ: nat)
    requires d.Valid() && v.Valid() && s < |d.rows|
    ensures step >= 0 ==> ForcedTo(d, v, s, step, succ)
    ensures step < 0 ==> step == -1 && forall b, t :: !ForcedTo(d, v, s, b, t)
    ensures succ < |d.rows|
  {
    step, succ := -1, 0;
    var row := d.rows[s];
    var accepting := IsAccepting(d, s);
    if row == [] || accepting { return; }
    var first, ok := RowFirst(v, row);
    if !ok { return; }
    var next := Transition(row, v.byteId[first]);
    if next.None? { return; }
    step, succ := first, next.value;
  }

  /** The scan of a row for its one first byte. */
  method RowFirst(v: Vocab, row: seq<Edge>) returns (first: int, ok: bool)
    requires row != []
    ensures ok ==> 0 <= first < 0x100 && OneFirstByte(v, row, first)
    ensures !ok ==> forall b :: !OneFirstByte(v, row, b)
  {
    first, ok := -1, true;
    var t := 0;
    while t < |row| && ok
      invariant 0 <= t <= |row|
      invariant ok ==> OneFirstByte(v, row[..t], first) && (t > 0 ==> 0 <= first < 0x100) && (t == 0 ==> first == -1)
      invariant !ok ==> forall b :: !OneFirstByte(v, row, b)
    {
      var id := row[t].id;
      var bytes := v.BytesOf(id);
      if v.Special(id) { ok := false; }
      else if bytes == [] { ok := false; }
      else if first < 0 { first := bytes[0]; }
      else if first != bytes[0] {
        ok := false;
        assert v.BytesOf(row[0].id)[0] == first by { assert row[..t][0] == row[0]; }
      }
      t := t + 1;
    }
    assert ok ==> row[..t] == row;
  }

  // ----- What the forced bytes mean

  /** Byte tokens lead from `s` along `bytes` to `t`. */
  ghost predicate Runs(d: Dfa, v: Vocab, s: nat, bytes: seq<Byte>, t: nat)
    requires d.Valid() && v.Valid()
    decreases |bytes|
  {
    s < |d.rows|
    && if bytes == [] then s == t
       else exists u :: Leads(d.rows[s], v.byteId[bytes[0]], u) && Runs(d, v, u, bytes[1..], t)
  }

  /** A token leads where its bytes lead, one byte token at a time. */
  ghost predicate ByteConsistent(d: Dfa, v: Vocab)
    requires d.Valid() && v.Valid()
  {
    forall s, i :: 0 <= s < |d.rows| && 0 <= i < |d.rows[s]| && Plain(v, d.rows[s][i].id) ==>
      Runs(d, v, s, v.BytesOf(d.rows[s][i].id), d.rows[s][i].next)
  }

  /** A forced graph of the schema: every step is a state's forced byte. */
  ghost predicate ForcedGraphOf(d: Dfa, v: Vocab, step: seq<int>, succ: seq<nat>, rank: seq<nat>)
    requires v.Valid()
  {
    && |step| == |d.rows| && Graph(step, succ) && Ranked(step, succ, rank)
    && forall s :: 0 <= s < |step| && step[s] >= 0 ==> ForcedTo(d, v, s, step[s], succ[s])
  }

  /** From a forced state the only byte that leads anywhere is the forced one, and it leads to the successor. */
  lemma OnlyForcedByte(d: Dfa, v: Vocab, s: nat, b: int, t: nat, c: Byte, u: nat)
    requires d.Valid() && v.Valid() && s < |d.rows| && ForcedTo(d, v, s, b, t) && Leads(d.rows[s], v.byteId[c], u)
    ensures c == b && u == t
  {
    var i :| 0 <= i < |d.rows[s]| && d.rows[s][i] == Edge(v.byteId[c], u);
    assert v.BytesOf(d.rows[s][i].id) == [c];
    LeadsOnce(d.rows[s], v.byteId[c], u, t);
  }

  /** Bytes run from a state either stay inside its forced text or have all of it as a prefix. */
  lemma {:induction false} AlongText(d: Dfa, v: Vocab, step: seq<int>, succ: seq<nat>, rank: seq<nat>, s: nat,
                                     bytes: seq<Byte>, t: nat)
    requires d.Valid() && v.Valid() && ForcedGraphOf(d, v, step, succ, rank) && Runs(d, v, s, bytes, t)
    ensures t < |step|
    ensures Text(step, succ, rank, s) <= bytes || Text(step, succ, rank, s) == bytes + Text(step, succ, rank, t)
    decreases |bytes|
  {
    if bytes != [] {
      var u :| Leads(d.rows[s], v.byteId[bytes[0]], u) && Runs(d, v, u, bytes[1..], t);
      AlongText(d, v, step, succ, rank, u, bytes[1..], t);
      if step[s] >= 0 {
        OnlyForcedByte(d, v, s, step[s], succ[s], bytes[0], u);
        SameFirst(step[s], Text(step, succ, rank, u), bytes, Text(step, succ, rank, t));
      }
    }
  }

  lemma SameFirst(b: int, text: seq<int>, bytes: seq<int>, rest: seq<int>)
    requires bytes != [] && bytes[0] == b && (text <= bytes[1..] || text == bytes[1..] + rest)
    ensures [b] + text <= bytes || [b] + text == bytes + rest
  {
    assert bytes == [b] + bytes[1..];
  }

  // ----- Documents

  /** A path of tokens the schema allows from `s`. */
  ghost predicate Path(d: Dfa, s: nat, path: seq<Edge>)
    decreases |path|
  {
    s < |d.rows| && (path == [] || (Leads(d.rows[s], path[0].id, path[0].next) && Path(d, path[0].next, path[1..])))
  }

  function End(s: nat, path: seq<Edge>): nat { if path == [] then s else path[|path| - 1].next }

  function Spelled(v: Vocab, ids: seq<nat>): seq<Byte> {
    if ids == [] then [] else v.BytesOf(ids[0]) + Spelled(v, ids[1..])
  }

  function Ids(path: seq<Edge>): (ids: seq<nat>)
    ensures |ids| == |path|
  {
    seq(|path|, i requires 0 <= i < |path| => path[i].id)
  }

  lemma RowTokenRuns(d: Dfa, v: Vocab, s: nat, b: int, t: nat, id: nat, next: nat)
    requires d.Valid() && v.Valid() && ByteConsistent(d, v) && s < |d.rows| && ForcedTo(d, v, s, b, t)
    requires Leads(d.rows[s], id, next)
    ensures Plain(v, id) && Runs(d, v, s, v.BytesOf(id), next)
  {
    var i :| 0 <= i < |d.rows[s]| && d.rows[s][i] == Edge(id, next);
    assert Plain(v, d.rows[s][i].id);
  }

  /** Every document completed from `s` begins with the forced text of `s`. */
  lemma {:induction false} DocumentsStartWithText(d: Dfa, v: Vocab, step: seq<int>, succ: seq<nat>, rank: seq<nat>,
                                                  s: nat,
                                                  path: seq<Edge>)
    requires d.Valid() && v.Valid() && ByteConsistent(d, v) && ForcedGraphOf(d, v, step, succ, rank)
    requires Path(d, s, path) && End(s, path) in d.accepting
    ensures Text(step, succ, rank, s) <= Spelled(v, Ids(path))
    decreases |path|
  {
    if step[s] >= 0 {
      assert path != [];
      var e, rest := path[0], path[1..];
      RowTokenRuns(d, v, s, step[s], succ[s], e.id, e.next);
      AlongText(d, v, step, succ, rank, s, v.BytesOf(e.id), e.next);
      PathFirst(v, s, path);
      DocumentsStartWithText(d, v, step, succ, rank, e.next, rest);
      PrefixThrough(Text(step, succ, rank, s), v.BytesOf(e.id), Text(step, succ, rank, e.next), Spelled(v, Ids(rest)));
    }
  }

  lemma PathFirst(v: Vocab, s: nat, path: seq<Edge>)
    requires path != []
    ensures Spelled(v, Ids(path)) == v.BytesOf(path[0].id) + Spelled(v, Ids(path[1..]))
    ensures End(path[0].next, path[1..]) == End(s, path)
  {
    assert Ids(path)[1..] == Ids(path[1..]);
  }

  lemma PrefixThrough(text: seq<int>, bytes: seq<int>, rest: seq<int>, more: seq<int>)
    requires (text <= bytes || text == bytes + rest) && rest <= more
    ensures text <= bytes + more
  {}

  // ----- The next forced token

  /** A token with bytes, all of them a prefix of the text. */
  predicate Prefixes(v: Vocab, id: nat, f: seq<int>) { |v.BytesOf(id)| > 0 && v.BytesOf(id) <= f }

  /** Index `i` holds the first of the row's longest tokens that are prefixes of the text. */
  predicate FirstLongest(v: Vocab, row: seq<Edge>, f: seq<int>, i: nat) {
    && i < |row| && Prefixes(v, row[i].id, f)
    && (forall j :: 0 <= j < |row| && Prefixes(v, row[j].id, f) ==> |v.BytesOf(row[j].id)| <= |v.BytesOf(row[i].id)|)
    && (forall j :: 0 <= j < i && Prefixes(v, row[j].id, f) ==> |v.BytesOf(row[j].id)| < |v.BytesOf(row[i].id)|)
  }

  /** The fallback scan. */
  method LongestPrefix(v: Vocab, row: seq<Edge>, f: seq<int>) returns (chosen: int)
    ensures chosen >= 0 ==> exists i: nat :: FirstLongest(v, row, f, i) && row[i].id == chosen
    ensures chosen < 0 ==> forall j :: 0 <= j < |row| ==> !Prefixes(v, row[j].id, f)
  {
    var best := 0;
    ghost var at: nat := 0;
    chosen := -1;
    for t := 0 to |row|
      invariant chosen < 0 ==> best == 0 && forall j :: 0 <= j < t ==> !Prefixes(v, row[j].id, f)
      invariant chosen >= 0 ==> FirstLongest(v, row[..t], f, at) && row[at].id == chosen && best == |v.BytesOf(chosen)|
    {
      var bytes := v.BytesOf(row[t].id);
      if |bytes| > best && |bytes| <= |f| && bytes <= f {
        best, chosen, at := |bytes|, row[t].id, t;
      }
      assert forall j :: 0 <= j < t ==> row[..t + 1][j] == row[..t][j];
    }
    assert row[..|row|] == row;
  }

  /** The chosen token: the encoder's first token when it is legal and a prefix, otherwise the longest legal prefix. */
  ghost predicate Chosen(d: Dfa, v: Vocab, s: nat, f: seq<int>, ids: seq<int>, token: int)
    requires s < |d.rows|
  {
    && token >= 0 && Prefixes(v, token, f) && (exists t :: Leads(d.rows[s], token, t))
    && if |ids| > 0 && ids[0] >= 0 && Prefixes(v, ids[0], f) && exists t :: Leads(d.rows[s], ids[0], t)
       then token == ids[0]
       else exists i: nat :: FirstLongest(v, d.rows[s], f, i) && d.rows[s][i].id == token
  }

  method ChooseNext(d: Dfa, v: Vocab, s: nat, f: seq<int>, ids: seq<int>) returns (token: int)
    requires d.Valid() && v.Valid() && s < |d.rows|
    requires f != [] && 0 <= f[0] < 0x100 && exists t :: Leads(d.rows[s], v.byteId[f[0]], t)
    ensures Chosen(d, v, s, f, ids, token)
  {
    if |ids| > 0 && ids[0] >= 0 {
      var next := Transition(d.rows[s], ids[0]);
      if next.Some? && Prefixes(v, ids[0], f) {
        assert Leads(d.rows[s], ids[0], next.value);
        return ids[0];
      }
    }
    token := LongestPrefix(v, d.rows[s], f);
    ByteTokenQualifies(d, v, s, f);
    if token >= 0 {
      var i: nat :| FirstLongest(v, d.rows[s], f, i) && d.rows[s][i].id == token;
      assert Leads(d.rows[s], token, d.rows[s][i].next);
    }
  }

  /** The single-byte token always qualifies. */
  lemma ByteTokenQualifies(d: Dfa, v: Vocab, s: nat, f: seq<int>)
    requires v.Valid() && s < |d.rows|
    requires f != [] && 0 <= f[0] < 0x100 && exists t :: Leads(d.rows[s], v.byteId[f[0]], t)
    ensures exists j :: 0 <= j < |d.rows[s]| && Prefixes(v, d.rows[s][j].id, f)
  {
    var t :| Leads(d.rows[s], v.byteId[f[0]], t);
    var j :| 0 <= j < |d.rows[s]| && d.rows[s][j] == Edge(v.byteId[f[0]], t);
    assert v.BytesOf(d.rows[s][j].id) == [f[0]];
    assert Prefixes(v, d.rows[s][j].id, f);
  }

  // ----- The table

  datatype Entry = Entry(nextForced: int, fLen: nat)

  /** What the table says of one state. */
  ghost predicate EntryRight(d: Dfa, v: Vocab, encode: seq<int> -> seq<int>, step: seq<int>, succ: seq<nat>,
                             rank: seq<nat>, s: nat, e: Entry)
    requires v.Valid() && ForcedGraphOf(d, v, step, succ, rank) && s < |d.rows|
  {
    var f := Text(step, succ, rank, s);
    && e.fLen == |f|
    && if step[s] < 0 then e.nextForced == -1 else Chosen(d, v, s, f, encode(f), e.nextForced)
  }

  /** The steps the forced test finds, before any cycle is cleared. */
  ghost predicate TestSteps(d: Dfa, v: Vocab, step: seq<int>, succ: seq<nat>)
    requires v.Valid()
  {
    && |step| == |succ| == |d.rows| && InRange(succ)
    && (forall s :: 0 <= s < |step| && step[s] >= 0 ==> ForcedTo(d, v, s, step[s], succ[s]))
    && (forall s, b, t :: 0 <= s < |step| && step[s] < 0 ==> !ForcedTo(d, v, s, b, t))
  }

  method TestAll(d: Dfa, v: Vocab) returns (step: seq<int>, succ: seq<nat>)
    requires d.Valid() && v.Valid()
    ensures TestSteps(d, v, step, succ)
  {
    step, succ := [], [];
    for s := 0 to |d.rows|
      invariant |step| == |succ| == s
      invariant forall k :: 0 <= k < s ==> succ[k] < |d.rows|
      invariant forall k :: 0 <= k < s && step[k] >= 0 ==> ForcedTo(d, v, k, step[k], succ[k])
      invariant forall k, b, t :: 0 <= k < s && step[k] < 0 ==> !ForcedTo(d, v, k, b, t)
    {
      var b, t := ForcedTest(d, v, s);
      step, succ := step + [b], succ + [t];
    }
  }

  /** The builder: the forced states are those the test accepts and no forced cycle contains; every entry is right. */
  method BuildForcedTable(d: Dfa, v: Vocab, encode: seq<int> -> seq<int>)
    returns (table: seq<Entry>, ghost step0: seq<int>, ghost step: seq<int>, ghost succ: seq<nat>, ghost rank: seq<nat>)
    requires d.Valid() && v.Valid() && |d.rows| <= UNSET
    ensures TestSteps(d, v, step0, succ) && ForcedGraphOf(d, v, step, succ, rank) && |table| == |d.rows|
    ensures forall s :: 0 <= s < |step| ==> step[s] == if OnCycle(step0, succ, s) then -1 else step0[s]
    ensures forall s :: 0 <= s < |table| ==> EntryRight(d, v, encode, step, succ, rank, s, table[s])
  {
    var first, next := TestAll(d, v);
    step0, succ := first, next;
    var kept;
    kept, rank := ClearCycles(first, next);
    step := kept;
    var flen := FillLengths(kept, next, rank);
    table := [];
    for s := 0 to |d.rows|
      invariant |table| == s
      invariant forall k :: 0 <= k < s ==> EntryRight(d, v, encode, step, succ, rank, k, table[k])
    {
      if kept[s] < 0 {
        table := table + [Entry(-1, 0)];
      } else {
        var f := ChainText(kept, next, rank, s);
        var token := ChooseNext(d, v, s, f, encode(f));
        table := table + [Entry(token, flen[s])];
      }
    }
  }

  // ----- The chain

  /** What fits the caller's buffer. */
  function Written(tokens: seq<nat>, cap: nat): seq<nat> { if |tokens| < cap then tokens else tokens[..cap] }

  lemma WrittenMore(tokens: seq<nat>, token: nat, cap: nat)
    ensures Written(tokens + [token], cap) == if |tokens| < cap then Written(tokens, cap) + [token]
        else Written(tokens, cap)
  {
    if |tokens| >= cap { assert (tokens + [token])[..cap] == tokens[..cap]; }
  }

  /** Follows the table: the tokens spell exactly the forced text; the first `cap` are written. */
  method ForcedChain(d: Dfa, v: Vocab, table: seq<Entry>, state: nat, cap: nat, ghost encode: seq<int> -> seq<int>,
                     ghost step: seq<int>, ghost succ: seq<nat>, ghost rank: seq<nat>)
    returns (count: nat, out: seq<nat>, ghost tokens: seq<nat>)
    requires d.Valid() && v.Valid() && ByteConsistent(d, v) && ForcedGraphOf(d, v, step, succ, rank)
    requires |table| == |d.rows| && state < |table|
    requires forall s :: 0 <= s < |table| ==> EntryRight(d, v, encode, step, succ, rank, s, table[s])
    ensures Spelled(v, tokens) == Text(step, succ, rank, state) && count == |tokens|
    ensures out == Written(tokens, cap)
    ensures |out| == Min(count, cap) && Spelled(v, out) <= Text(step, succ, rank, state)
    ensures count <= cap ==> Spelled(v, out) == Text(step, succ, rank, state)
  {
    count, out, tokens := 0, [], [];
    var w: nat, guard: nat := state, 0;
    TextIsShort(step, succ, rank, state);
    while guard < |table| && table[w].nextForced >= 0
      invariant w < |table| && guard == count == |tokens| <= |Spelled(v, tokens)|
      invariant Spelled(v, tokens) + Text(step, succ, rank, w) == Text(step, succ, rank, state)
      invariant out == Written(tokens, cap)
      decreases |table| - guard
    {
      var token: nat := table[w].nextForced;
      var next := FollowToken(d, v, w, token, encode, step, succ, rank, table[w]);
      SpelledMore(v, tokens, token);
      Regroup(Spelled(v, tokens), v.BytesOf(token), Text(step, succ, rank, next));
      WrittenMore(tokens, token, cap);
      if count < cap { out := out + [token]; }
      tokens := tokens + [token];
      count := count + 1;
      w := next;
      guard := guard + 1;
    }
    assert EntryRight(d, v, encode, step, succ, rank, w, table[w]);
    WrittenSpells(v, tokens, cap);
  }

  /** What is written spells a prefix, and everything when nothing is cut off. */
  lemma WrittenSpells(v: Vocab, tokens: seq<nat>, cap: nat)
    ensures |Written(tokens, cap)| == Min(|tokens|, cap) && Spelled(v, Written(tokens, cap)) <= Spelled(v, tokens)
    ensures |tokens| <= cap ==> Written(tokens, cap) == tokens
  {
    if |tokens| >= cap { SpelledPrefix(v, tokens, cap); }
  }

  lemma {:induction false} SpelledPrefix(v: Vocab, ids: seq<nat>, k: nat)
    requires k <= |ids|
    ensures Spelled(v, ids[..k]) <= Spelled(v, ids)
  {
    if k > 0 {
      assert ids[..k][1..] == ids[1..][..k - 1];
      SpelledPrefix(v, ids[1..], k - 1);
    }
  }

  lemma Regroup(a: seq<int>, b: seq<int>, c: seq<int>)
    ensures (a + b) + c == a + (b + c)
  {}

  method FollowToken(d: Dfa, v: Vocab, w: nat, token: nat, ghost encode: seq<int> -> seq<int>, ghost step: seq<int>,
                     ghost succ: seq<nat>, ghost rank: seq<nat>, ghost e: Entry)
    returns (next: nat)
    requires d.Valid() && v.Valid() && ByteConsistent(d, v) && ForcedGraphOf(d, v, step, succ, rank) && w < |d.rows|
    requires EntryRight(d, v, encode, step, succ, rank, w, e) && e.nextForced == token
    ensures next < |d.rows| && |v.BytesOf(token)| > 0
    ensures Text(step, succ, rank, w) == v.BytesOf(token) + Text(step, succ, rank, next)
  {
    var found := Transition(d.rows[w], token);
    ghost var t :| Leads(d.rows[w], token, t);
    next := found.value;
    RowTokenRuns(d, v, w, step[w], succ[w], token, next);
    AlongText(d, v, step, succ, rank, w, v.BytesOf(token), next);
    TokenConsumes(d, v, step, succ, rank, w, v.BytesOf(token), next);
  }

  /** A token that is a prefix of the text leaves exactly the rest of it. */
  lemma TokenConsumes(d: Dfa, v: Vocab, step: seq<int>, succ: seq<nat>, rank: seq<nat>, w: nat, bytes: seq<Byte>,
                      next: nat)
    requires d.Valid() && v.Valid() && ForcedGraphOf(d, v, step, succ, rank) && Runs(d, v, w, bytes, next)
    requires bytes <= Text(step, succ, rank, w)
    ensures next < |step| && Text(step, succ, rank, w) == bytes + Text(step, succ, rank, next)
  {
    AlongText(d, v, step, succ, rank, w, bytes, next);
    if Text(step, succ, rank, w) <= bytes {
      assert Text(step, succ, rank, w) == bytes;
      WholeText(d, v, step, succ, rank, w, bytes, next);
    }
  }

  /** Running the whole text ends where the text ends. */
  lemma {:induction false} WholeText(d: Dfa, v: Vocab, step: seq<int>, succ: seq<nat>, rank: seq<nat>, w: nat,
                                     bytes: seq<Byte>, next: nat)
    requires d.Valid() && v.Valid() && ForcedGraphOf(d, v, step, succ, rank) && Runs(d, v, w, bytes, next)
    requires bytes == Text(step, succ, rank, w)
    ensures next < |step| && Text(step, succ, rank, next) == []
    decreases |bytes|
  {
    if bytes != [] {
      var u :| Leads(d.rows[w], v.byteId[bytes[0]], u) && Runs(d, v, u, bytes[1..], next);
      OnlyForcedByte(d, v, w, step[w], succ[w], bytes[0], u);
      WholeText(d, v, step, succ, rank, u, bytes[1..], next);
    }
  }

  lemma {:induction false} SpelledMore(v: Vocab, ids: seq<nat>, id: nat)
    ensures Spelled(v, ids + [id]) == Spelled(v, ids) + v.BytesOf(id)
  {
    if ids == [] {
      assert [id][1..] == [] && ids + [id] == [id];
    } else {
      assert (ids + [id])[1..] == ids[1..] + [id];
      SpelledMore(v, ids[1..], id);
    }
  }
}
