/** The page allocator of src/kv_pages.cpp on values: the pool, a holder, and one function per mutex section.

A verb that frees pages has up to four parts: a section that counts down under the pool mutex, the fill of the
pages that reached 0 outside it, a section that pushes them, and the holder's own clean-up. Between the first
part and the push those pages are in nobody's table and not yet free; the phase of the holder names them. */
module PageModel {
  import opened Arith

  const MAX_COUNT: nat := 0xFFFF_FFFF

  datatype Status = Ok | Exhausted | InvalidArgument | RefcountUnderflow

  function Worse(a: Status, b: Status): Status { if a != Ok then a else b }

  datatype Pool = Pool(freeList: seq<nat>, refcount: seq<nat>, dirty: seq<bool>, sharedMaps: seq<nat>,
      sharedDistinct: int)

  predicate WellFormed(pool: Pool) {
    |pool.refcount| == |pool.dirty| == |pool.sharedMaps|
  }

  predicate InPool(pool: Pool, pages: seq<nat>) {
    WellFormed(pool) && forall i :: 0 <= i < |pages| ==> pages[i] < |pool.refcount|
  }

  datatype Op = Unmap | Adopt(src: nat, incoming: seq<nat>) | Release | Return

  datatype Phase = Ready | Busy(op: Op, pending: seq<nat>, filled: bool) | Gone

  datatype Holder = Holder(table: seq<nat>, mapped: nat, shared: nat, materialized: nat, reserve: seq<nat>, cap: nat,
      phase: Phase)

  predicate HolderShape(h: Holder) {
    h.mapped <= |h.table| && h.shared + h.materialized <= h.mapped
  }

  /** The leading entries whose unmap takes the pool path; the code's clamp to `mapped` included. */
  function PoolPath(h: Holder): nat {
    if h.shared + h.materialized > h.mapped then h.mapped else h.shared + h.materialized
  }

  function Reversed(s: seq<nat>): (r: seq<nat>)
    ensures |r| == |s|
  {
    if s == [] then [] else [s[|s| - 1]] + Reversed(s[..|s| - 1])
  }

  lemma {:induction false} ReversedPermutes(s: seq<nat>)
    ensures multiset(Reversed(s)) == multiset(s)
  {
    if s != [] {
      ReversedPermutes(s[..|s| - 1]);
      assert s == s[..|s| - 1] + [s[|s| - 1]];
    }
  }

  lemma {:induction false} ReversedPrepend(x: nat, s: seq<nat>)
    ensures Reversed([x] + s) == Reversed(s) + [x]
  {
    if s == [] {
      assert [x] + s == [x] && Reversed([x]) == [x];
    } else {
      var k := |s| - 1;
      assert ([x] + s)[..k + 1] == [x] + s[..k];
      ReversedPrepend(x, s[..k]);
    }
  }

  lemma MoreReversed(s: seq<nat>, i: nat)
    requires i < |s|
    ensures Reversed(s[i..]) == Reversed(s[i + 1..]) + [s[i]]
  {
    assert s[i..] == [s[i]] + s[i + 1..];
    ReversedPrepend(s[i], s[i + 1..]);
  }

  // ----- Single counts

  function EnterShared(pool: Pool, p: nat): Pool
    requires InPool(pool, [p])
  {
    assert [p][0] == p;
    pool.(sharedMaps := pool.sharedMaps[p := pool.sharedMaps[p] + 1],
          sharedDistinct := pool.sharedDistinct + if pool.sharedMaps[p] == 0 then 1 else 0)
  }

  function LeaveShared(pool: Pool, p: nat): Pool
    requires InPool(pool, [p])
  {
    assert [p][0] == p;
    if pool.sharedMaps[p] == 0 then pool
    else pool.(sharedMaps := pool.sharedMaps[p := pool.sharedMaps[p] - 1],
               sharedDistinct := pool.sharedDistinct - if pool.sharedMaps[p] == 1 then 1 else 0)
  }

  // ----- Loops over a table's leading entries

  datatype Counted = Counted(pool: Pool, freed: seq<nat>, status: Status)

  /** The counting-down loop: the first `shared` pages also leave the shared counts; a page that reaches 0 joins
      `freed`; a count already at 0 is left alone and reported. */
  function CountDown(pool: Pool, pages: seq<nat>, shared: nat): (r: Counted)
    requires InPool(pool, pages)
    ensures WellFormed(r.pool) && |r.pool.refcount| == |pool.refcount| && |r.freed| <= |pages|
    ensures r.pool.freeList == pool.freeList && r.pool.dirty == pool.dirty
  {
    if pages == [] then Counted(pool, [], Ok)
    else
      var k := |pages| - 1;
      var r := CountDown(pool, pages[..k], shared);
      CountDownOne(r, pages[k], k < shared)
  }

  function CountDownOne(r: Counted, p: nat, isShared: bool): (r': Counted)
    requires WellFormed(r.pool) && p < |r.pool.refcount|
    ensures WellFormed(r'.pool) && |r'.pool.refcount| == |r.pool.refcount| && |r'.freed| <= |r.freed| + 1
    ensures r'.pool.freeList == r.pool.freeList && r'.pool.dirty == r.pool.dirty
  {
    var pool := if isShared then LeaveShared(r.pool, p) else r.pool;
    var count := pool.refcount[p];
    if count == 0 then Counted(pool, r.freed, Worse(r.status, RefcountUnderflow))
    else Counted(pool.(refcount := pool.refcount[p := count - 1]), if count == 1 then r.freed + [p]
        else r.freed, r.status)
  }

  /** The sharing loop: every page gains one reference and one shared entry. */
  function CountUp(pool: Pool, pages: seq<nat>): (r: Pool)
    requires InPool(pool, pages)
    ensures WellFormed(r) && |r.refcount| == |pool.refcount|
    ensures r.freeList == pool.freeList && r.dirty == pool.dirty
  {
    if pages == [] then pool
    else
      var k := |pages| - 1;
      var r := CountUp(pool, pages[..k]);
      EnterShared(r.(refcount := r.refcount[pages[k] := r.refcount[pages[k]] + 1]), pages[k])
  }

  /** The refusal check of a share: the first page at 0 or at the maximum count decides. */
  function CheckShareable(pool: Pool, pages: seq<nat>): Status
    requires InPool(pool, pages)
  {
    if pages == [] then Ok
    else
      var k := |pages| - 1;
      var before := CheckShareable(pool, pages[..k]);
      if before != Ok then before
      else if pool.refcount[pages[k]] == 0 then RefcountUnderflow
      else if pool.refcount[pages[k]] == MAX_COUNT then InvalidArgument
      else Ok
  }

  datatype Drawn = Drawn(pool: Pool, reserve: seq<nat>)

  /** The drawing loop of create: `n` pages from the top of the free stack, refcount := 1. */
  function Draw(pool: Pool, n: nat): (r: Drawn)
    requires InPool(pool, pool.freeList) && n <= |pool.freeList|
    ensures InPool(r.pool, r.pool.freeList) && |r.pool.refcount| == |pool.refcount|
    ensures r.pool.freeList == pool.freeList[..|pool.freeList| - n] && |r.reserve| == n
    ensures r.pool.dirty == pool.dirty && r.pool.sharedMaps == pool.sharedMaps
        && r.pool.sharedDistinct == pool.sharedDistinct
  {
    if n == 0 then Drawn(pool, [])
    else
      var r := Draw(pool, n - 1);
      var last := |r.pool.freeList| - 1;
      var p := r.pool.freeList[last];
      Drawn(r.pool.(freeList := r.pool.freeList[..last], refcount := r.pool.refcount[p := 1]), r.reserve + [p])
  }

  datatype Zeroed = Zeroed(pool: Pool, reserve: seq<nat>, n: nat, status: Status)

  /** The reserve loop of release: each count := 0, except that a page already at 0 is reported and swapped behind
      the `n` pages that will be freed. */
  function ZeroReserve(pool: Pool, reserve: seq<nat>, i: nat, n: nat): (r: Zeroed)
    requires InPool(pool, reserve) && i <= n <= |reserve|
    ensures WellFormed(r.pool) && |r.pool.refcount| == |pool.refcount| && r.n <= |r.reserve| == |reserve|
    ensures r.pool.freeList == pool.freeList && r.pool.dirty == pool.dirty
    decreases n - i
  {
    if i == n then Zeroed(pool, reserve, n, Ok)
    else
      if pool.refcount[reserve[i]] == 0 then
        var r := ZeroReserve(pool, reserve[i := reserve[n - 1]][n - 1 := reserve[i]], i, n - 1);
        r.(status := Worse(RefcountUnderflow, r.status))
      else ZeroReserve(pool.(refcount := pool.refcount[reserve[i] := 0]), reserve, i + 1, n)
  }

  function Clean(pool: Pool, pages: seq<nat>): Pool {
    pool.(dirty := seq(|pool.dirty|, p requires 0 <= p < |pool.dirty| => pool.dirty[p] && p !in pages))
  }

  function PushFree(pool: Pool, pages: seq<nat>): Pool { pool.(freeList := pool.freeList + pages) }

  // ----- The verbs, part by part

  datatype Result = Result(status: Status, pool: Pool, holder: Holder)

  predicate Fits(pool: Pool, h: Holder) {
    HolderShape(h) && InPool(pool, h.table[..h.mapped]) && InPool(pool, h.reserve)
  }

  lemma LeadingInPool(pool: Pool, h: Holder, n: nat)
    requires Fits(pool, h) && n <= h.mapped
    ensures InPool(pool, h.table[..n])
  {
    forall i | 0 <= i < n ensures h.table[..n][i] < |pool.refcount| { assert h.table[..h.mapped][i] == h.table[i]; }
  }

  /** reserve -> table, without the mutex. */
  function MapNext(pool: Pool, h: Holder): Result
    requires Fits(pool, h)
  {
    if h.mapped >= |h.table| then Result(InvalidArgument, pool, h)
    else if h.reserve == [] then Result(Exhausted, pool, h)
    else
      Result(Ok, pool.(dirty := pool.dirty[h.reserve[|h.reserve| - 1] := true]), MapOne(h))
  }

  function MapOne(h: Holder): Holder
    requires h.mapped < |h.table| && h.reserve != []
  {
    var last := |h.reserve| - 1;
    h.(reserve := h.reserve[..last], table := h.table[h.mapped := h.reserve[last]], mapped := h.mapped + 1)
  }

  /** The argument checks of a share, then one section. */
  function ShareLeading(pool: Pool, dst: Holder, src: Holder, pages: nat): Result
    requires Fits(pool, dst) && Fits(pool, src)
  {
    if dst.mapped != 0 || pages == 0 || pages > src.mapped
        || pages > |dst.table| then Result(InvalidArgument, pool, dst)
    else
      var incoming := src.table[..pages];
      var check := CheckShareable(pool, incoming);
      if check != Ok then Result(check, pool, dst)
      else Result(Ok, CountUp(pool, incoming),
                  dst.(table := incoming + dst.table[pages..], mapped := pages, shared := pages, materialized := 0))
  }

  /** The first `count` table entries from the reserve, recorded as materialized; without the mutex. */
  function MapMaterialized(pool: Pool, h: Holder, count: nat): Result
    requires Fits(pool, h)
  {
    if h.mapped != 0 || count > |h.table| then Result(InvalidArgument, pool, h)
    else if count > |h.reserve| then Result(Exhausted, pool, h)
    else
      Result(Ok, Soil(pool, Reversed(h.reserve[|h.reserve| - count..])), Materialize(h, count))
  }

  function Soil(pool: Pool, pages: seq<nat>): Pool {
    pool.(dirty := seq(|pool.dirty|, p requires 0 <= p < |pool.dirty| => pool.dirty[p] || p in pages))
  }

  function Materialize(h: Holder, count: nat): Holder
    requires count <= |h.table| && count <= |h.reserve|
  {
    var left := |h.reserve| - count;
    h.(reserve := h.reserve[..left], table := Reversed(h.reserve[left..]) + h.table[count..],
       mapped := count, shared := 0, materialized := count)
  }

  /** The rollback of private tail entries; without the mutex. */
  function UnmapTail(h: Holder, keep: nat): Holder
    requires HolderShape(h)
  {
    var floor := Max(h.shared + h.materialized, keep);
    if floor >= h.mapped then h else DropTo(h, floor)
  }

  function DropTo(h: Holder, floor: nat): Holder
    requires floor <= h.mapped <= |h.table|
  {
    h.(reserve := h.reserve + Reversed(h.table[floor..h.mapped]), mapped := floor)
  }

  /** The private entries, last mapped first, as they return to the reserve. */
  function PrivateBack(h: Holder): seq<nat>
    requires HolderShape(h)
  {
    Reversed(h.table[PoolPath(h)..h.mapped])
  }

  function UnmapBegin(pool: Pool, h: Holder): Result
    requires Fits(pool, h)
  {
    var leading := h.table[..PoolPath(h)];
    var d := CountDown(pool, leading, h.shared);
    Result(d.status, d.pool, h.(table := d.freed + h.table[|d.freed|..], phase := Busy(Unmap, d.freed, false)))
  }

  function AdoptBegin(pool: Pool, dst: Holder, src: Holder, srcId: nat, pages: nat): Result
    requires Fits(pool, dst) && Fits(pool, src)
  {
    if pages > src.mapped || pages > |dst.table| then Result(InvalidArgument, pool, dst)
    else
      var incoming := src.table[..pages];
      var check := CheckShareable(pool, incoming);
      if check != Ok then Result(check, pool, dst)
      else
        var up := CountUp(pool, incoming);
        assert Fits(up, dst);
        var r := UnmapBegin(up, dst);
        r.(holder := r.holder.(phase := Busy(Adopt(srcId, incoming), r.holder.phase.pending, false)))
  }

  function ReleaseBegin(pool: Pool, h: Holder): Result
    requires Fits(pool, h)
  {
    var d := CountDown(pool, h.table[..h.mapped], h.shared);
    var z := ZeroReserve(d.pool, h.reserve, 0, |h.reserve|);
    Result(Worse(d.status, z.status), z.pool,
           h.(table := d.freed + h.table[|d.freed|..], reserve := z.reserve,
              phase := Busy(Release, d.freed + z.reserve[..z.n], false)))
  }

  function ReturnBegin(pool: Pool, h: Holder): Result
    requires Fits(pool, h)
  {
    var z := ZeroReserve(pool, h.reserve, 0, |h.reserve|);
    Result(z.status, z.pool, h.(reserve := z.reserve, phase := Busy(Return, z.reserve[..z.n], false)))
  }

  /** The holder's own clean-up after the push. `srcTable` is read again here by an adopt, outside the mutex. */
  function Finish(h: Holder, srcTable: seq<nat>): Holder
    requires HolderShape(h) && h.phase.Busy?
    requires h.phase.op.Adopt? ==> |h.phase.op.incoming| <= |h.table| && |h.phase.op.incoming| <= |srcTable|
  {
    match h.phase.op
    case Unmap => h.(reserve := h.reserve + PrivateBack(h), mapped := 0, shared := 0, materialized := 0, phase := Ready)
    case Adopt(_, incoming) =>
      var pages := |incoming|;
      h.(reserve := h.reserve + PrivateBack(h), table := srcTable[..pages] + h.table[pages..],
         mapped := pages, shared := pages, materialized := 0, phase := Ready)
    case Release => h.(phase := Gone)
    case Return => h.(reserve := [], phase := Ready)
  }

  /** A verb run through with nothing in between: the rest of what `r` began. */
  function Complete(r: Result, srcTable: seq<nat>): Result
    requires r.holder.phase.Busy? && HolderShape(r.holder)
    requires r.holder.phase.op.Adopt? ==>
               |r.holder.phase.op.incoming| <= |r.holder.table| && |r.holder.phase.op.incoming| <= |srcTable|
  {
    var pending := r.holder.phase.pending;
    Result(r.status, PushFree(Clean(r.pool, pending), pending), Finish(r.holder, srcTable))
  }
}
