/** The allocator's own form: a pool and a holder whose verbs update their fields, each proved to compute exactly
the corresponding functions of `PageModel`. A verb here runs through without interruption; `PageProtocol` is about
what happens between its parts. */
module PageAllocator {
  import opened Arith
  import opened PageModel
  import opened PageTables

  const POISON: nat := 0xCD

  class PagePool {
    const base: array<nat>
    const pageBytes: nat
    var freeList: seq<nat>
    var refcount: seq<nat>
    var dirty: seq<bool>
    var sharedMaps: seq<nat>
    var sharedDistinct: int

    function View(): Pool
      reads this
    {
      Pool(freeList, refcount, dirty, sharedMaps, sharedDistinct)
    }

    ghost predicate Valid()
      reads this
    {
      WellFormed(View()) && pageBytes > 0 && base.Length == |refcount| * pageBytes
    }

    constructor (memory: array<nat>, pageCount: nat, bytes: nat)
      requires bytes > 0 && memory.Length == pageCount * bytes
      ensures Valid() && base == memory && pageBytes == bytes && |refcount| == pageCount
      ensures forall p :: 0 <= p < pageCount ==> refcount[p] == sharedMaps[p] == 0 && !dirty[p]
      ensures |freeList| == pageCount && forall i :: 0 <= i < pageCount ==> freeList[i] == pageCount - 1 - i
    {
      base, pageBytes := memory, bytes;
      refcount, sharedMaps := seq(pageCount, _ => 0), seq(pageCount, _ => 0);
      dirty, sharedDistinct := seq(pageCount, _ => false), 0;
      new;
      freeList := [];
      var i := pageCount;
      while i > 0
        invariant 0 <= i <= pageCount && |freeList| == pageCount - i
        invariant forall k :: 0 <= k < |freeList| ==> freeList[k] == pageCount - 1 - k
        modifies this`freeList
      {
        i := i - 1;
        freeList := freeList + [i];
      }
    }

    method SharedMapLeave(p: nat)
      requires Valid() && p < |refcount|
      modifies this`sharedMaps, this`sharedDistinct
      ensures View() == LeaveShared(old(View()), p)
    {
      if sharedMaps[p] == 0 { return; }
      sharedMaps := sharedMaps[p := sharedMaps[p] - 1];
      if sharedMaps[p] == 0 { sharedDistinct := sharedDistinct - 1; }
    }

    method SharedMapEnter(p: nat)
      requires Valid() && p < |refcount|
      modifies this`sharedMaps, this`sharedDistinct
      ensures View() == EnterShared(old(View()), p)
    {
      if sharedMaps[p] == 0 { sharedDistinct := sharedDistinct + 1; }
      sharedMaps := sharedMaps[p := sharedMaps[p] + 1];
    }

    method Decrement(p: nat) returns (status: Status, reachedZero: bool)
      requires Valid() && p < |refcount|
      modifies this`refcount
      ensures status == if old(refcount[p]) == 0 then RefcountUnderflow else Ok
      ensures reachedZero <==> old(refcount[p]) == 1
      ensures refcount == if old(refcount[p]) == 0 then old(refcount) else old(refcount)[p := old(refcount[p]) - 1]
    {
      reachedZero := false;
      if refcount[p] == 0 { return RefcountUnderflow, reachedZero; }
      refcount := refcount[p := refcount[p] - 1];
      reachedZero := refcount[p] == 0;
      status := Ok;
    }

    /** One entry of the counting-down loop; a page that reaches 0 is compacted into the table's own leading entries. */
    method CountDownEntry(table: array<nat>, i: nat, isShared: bool, toFree: nat, status: Status)
      returns (toFree': nat, status': Status)
      requires Valid() && toFree <= i < table.Length && table[i] < |refcount|
      modifies this`refcount, this`sharedMaps, this`sharedDistinct, table
      ensures Valid() && |refcount| == old(|refcount|) && toFree <= toFree' <= i + 1
      ensures Counted(View(), table[..toFree'], status')
              == CountDownOne(Counted(old(View()), old(table[..toFree]), status), old(table[i]), isShared)
      ensures table[toFree'..] == old(table[..])[toFree'..]
    {
      var p := table[i];
      if isShared { SharedMapLeave(p); }
      var one, zero := Decrement(p);
      status' := Worse(status, one);
      toFree' := toFree;
      if zero {
        table[toFree] := p;
        toFree' := toFree + 1;
      }
    }

    /** The counting-down loop of unmap, adopt and release. */
    method CountDownEntries(table: array<nat>, n: nat, shared: nat) returns (toFree: nat, status: Status)
      requires Valid() && n <= table.Length && InPool(View(), table[..n])
      modifies this`refcount, this`sharedMaps, this`sharedDistinct, table
      ensures Valid() && |refcount| == old(|refcount|) && toFree <= n
      ensures Counted(View(), table[..toFree], status) == CountDown(old(View()), old(table[..n]), shared)
      ensures table[toFree..] == old(table[..])[toFree..]
    {
      ghost var pool, was := View(), table[..];
      toFree, status := 0, Ok;
      var i := 0;
      while i < n
        invariant toFree <= i <= n && InPool(pool, was[..i])
        invariant Counted(View(), table[..toFree], status) == CountDown(pool, was[..i], shared)
        invariant table[toFree..] == was[toFree..]
        invariant Valid() && |refcount| == |pool.refcount|
      {
        ghost var mid, from := table[..], toFree;
        SameFrom(mid, was, from, i);
        CountDownMore(pool, was, n, i, shared);
        toFree, status := CountDownEntry(table, i, i < shared, toFree, status);
        SameAfter(table[..], mid, was, from, toFree);
        i := i + 1;
      }
    }

    method CheckShareable(table: array<nat>, n: nat) returns (status: Status)
      requires Valid() && n <= table.Length && InPool(View(), table[..n])
      ensures status == PageModel.CheckShareable(View(), table[..n])
    {
      var i := 0;
      while i < n
        invariant 0 <= i <= n && InPool(View(), table[..i]) && PageModel.CheckShareable(View(), table[..i]) == Ok
      {
        assert table[i] == table[..n][i] && table[..i + 1][..i] == table[..i];
        if refcount[table[i]] == 0 || refcount[table[i]] == MAX_COUNT {
          status := if refcount[table[i]] == 0 then RefcountUnderflow else InvalidArgument;
          assert table[..n][..i + 1] == table[..i + 1];
          RefusalStays(View(), table[..n], i + 1);
          return;
        }
        i := i + 1;
      }
      status := Ok;
    }

    /** The sharing loop of share and adopt. */
    method CountUpEntries(table: array<nat>, n: nat)
      requires Valid() && n <= table.Length && InPool(View(), table[..n])
      modifies this`refcount, this`sharedMaps, this`sharedDistinct
      ensures Valid() && |refcount| == old(|refcount|)
      ensures View() == CountUp(old(View()), table[..n])
    {
      ghost var pool := View();
      var i := 0;
      while i < n
        invariant 0 <= i <= n && InPool(pool, table[..i]) && View() == CountUp(pool, table[..i])
        invariant Valid() && |refcount| == |pool.refcount|
      {
        assert table[i] == table[..n][i] && table[..i + 1][..i] == table[..i];
        refcount := refcount[table[i] := refcount[table[i]] + 1];
        SharedMapEnter(table[i]);
        i := i + 1;
      }
    }

    /** The fill half of freeing, outside the lock: every dirty listed page is filled whole and becomes clean, and a
        run of adjacent dirty pages is filled at once. No other byte and no other flag changes. */
    method PoisonIfDirty(pages: seq<nat>)
      requires Valid() && InPool(View(), pages)
      modifies this`dirty, base
      ensures Valid() && View() == Clean(old(View()), pages)
      ensures Poisoned(old(base[..]), base[..], old(dirty), pages, pageBytes)
    {
      ghost var was, bytes := View(), base[..];
      var i := 0;
      assert Clean(was, pages[..0]) == was;
      while i < |pages|
        invariant 0 <= i <= |pages| && Valid() && View() == Clean(was, pages[..i])
        invariant Poisoned(bytes, base[..], was.dirty, pages[..i], pageBytes)
      {
        ghost var mid := base[..];
        var j := PoisonRun(pages, i);
        assert pages[..j] == pages[..i] + pages[i..j];
        CleanInTurn(was, pages[..i], pages[i..j]);
        PoisonInTurn(bytes, mid, base[..], was, pages[..i], pages[i..j], pageBytes);
        i := j;
      }
      assert pages[..i] == pages;
    }

    /** One turn of that loop: a clean page is passed over, a dirty one is filled with the run it starts. */
    method PoisonRun(pages: seq<nat>, i: nat) returns (j: nat)
      requires Valid() && InPool(View(), pages) && i < |pages|
      modifies this`dirty, base
      ensures i < j <= |pages| && Valid() && View() == Clean(old(View()), pages[i..j])
      ensures Poisoned(old(base[..]), base[..], old(dirty), pages[i..j], pageBytes)
    {
      if !dirty[pages[i]] {
        j := i + 1;
        assert pages[i..j] == [pages[i]];
        assert View() == Clean(View(), pages[i..j]);
      } else {
        var lo, hi;
        lo, hi, j := RunFrom(pages, i);
        FillPages(lo, hi);
        ClearFlags(pages, i, j);
      }
    }

    /** The longest run this loop finds: entries `i` up to `j` are the dirty pages `lo..hi`, all of them. */
    method RunFrom(pages: seq<nat>, i: nat) returns (lo: nat, hi: nat, j: nat)
      requires Valid() && InPool(View(), pages) && i < |pages| && dirty[pages[i]]
      ensures lo <= hi < |dirty| && i < j <= |pages|
      ensures forall p: nat :: p in pages[i..j] <==> lo <= p <= hi
      ensures forall p :: lo <= p <= hi ==> dirty[p]
    {
      lo, hi, j := pages[i], pages[i], i + 1;
      var dir := 0;
      while j < |pages|
        invariant lo <= hi < |dirty| && i < j <= |pages|
        invariant forall p: nat :: p in pages[i..j] <==> lo <= p <= hi
        invariant forall p :: lo <= p <= hi ==> dirty[p]
      {
        var q := pages[j];
        assert pages[i..j + 1] == pages[i..j] + [q];
        if !dirty[q] { break; }
        if dir >= 0 && q == hi + 1 {
          hi, dir := q, 1;
        } else if dir <= 0 && lo > 0 && q == lo - 1 {
          lo, dir := q, -1;
        } else {
          break;
        }
        j := j + 1;
      }
    }

    method FillPages(lo: nat, hi: nat)
      requires Valid() && lo <= hi < |refcount|
      modifies base
      ensures forall k :: 0 <= k < base.Length ==> base[k] == if lo <= k / pageBytes <= hi then POISON else old(base[k])
    {
      var begin, end := lo * pageBytes, (hi + 1) * pageBytes;
      MulMono(lo, hi + 1, pageBytes);
      MulMono(hi + 1, |refcount|, pageBytes);
      var k := begin;
      while k < end
        invariant begin <= k <= end <= base.Length
        invariant forall m :: 0 <= m < base.Length ==> base[m] == if begin <= m < k then POISON else old(base[m])
      {
        base[k] := POISON;
        k := k + 1;
      }
      forall m | 0 <= m < base.Length
        ensures begin <= m < end <==> lo <= m / pageBytes <= hi
      {
        InPages(m, lo, hi, pageBytes);
      }
    }

    method ClearFlags(pages: seq<nat>, i: nat, j: nat)
      requires Valid() && InPool(View(), pages) && i <= j <= |pages|
      modifies this`dirty
      ensures Valid() && View() == Clean(old(View()), pages[i..j])
    {
      ghost var was := View();
      var k := i;
      while k < j
        invariant i <= k <= j && |dirty| == |was.dirty|
        invariant forall p: nat :: p < |dirty| ==> dirty[p] == (was.dirty[p] && p !in pages[i..k])
      {
        assert pages[i..k + 1] == pages[i..k] + [pages[k]];
        dirty := dirty[pages[k] := false];
        k := k + 1;
      }
      assert dirty == Clean(was, pages[i..j]).dirty;
    }

    /** Create's section: the top of the free stack, page by page. */
    method DrawPages(n: nat) returns (taken: seq<nat>)
      requires Valid() && InPool(View(), freeList) && n <= |freeList|
      modifies this`freeList, this`refcount
      ensures Valid() && Drawn(View(), taken) == Draw(old(View()), n) && InPool(View(), taken)
      ensures freeList == old(freeList)[..|old(freeList)| - n] && |taken| == n
      ensures forall i :: 0 <= i < n ==> taken[i] == old(freeList)[|old(freeList)| - 1 - i]
    {
      ghost var was := View();
      taken := [];
      var i := 0;
      while i < n
        invariant 0 <= i <= n && Valid() && InPool(View(), freeList) && Drawn(View(), taken) == Draw(was, i)
      {
        var last := |freeList| - 1;
        var p := freeList[last];
        freeList := freeList[..last];
        refcount := refcount[p := 1];
        taken := taken + [p];
        i := i + 1;
      }
      DrawnInPool(was, n);
      DrawTakes(was, n);
    }

    method PushPages(pages: seq<nat>)
      modifies this`freeList
      ensures View() == PushFree(old(View()), pages)
    {
      var i := 0;
      while i < |pages|
        invariant 0 <= i <= |pages| && freeList == old(freeList) + pages[..i]
      {
        assert pages[..i + 1] == pages[..i] + [pages[i]];
        freeList := freeList + [pages[i]];
        i := i + 1;
      }
      assert pages[..i] == pages;
    }
  }

  class PageHolder {
    const pool: PagePool
    const table: array<nat>
    const capacity: nat
    var mapped: nat
    var shared: nat
    var materialized: nat
    var reserve: seq<nat>

    function View(): Holder
      reads this, table
    {
      Holder(table[..], mapped, shared, materialized, reserve, capacity, Ready)
    }

    ghost predicate Valid()
      reads this, table, pool
    {
      pool.Valid() && Fits(pool.View(), View()) && table != pool.base
    }

    /** Draws the reserve from the free stack once the capacity checks have passed. */
    constructor Create(from: PagePool, entries: array<nat>, reservePages: nat)
      requires from.Valid() && InPool(from.View(), from.freeList) && reservePages <= |from.freeList|
          && entries != from.base
      modifies from`freeList, from`refcount
      ensures var d := Draw(old(from.View()), reservePages);
              from.View() == d.pool && View() == Holder(entries[..], 0, 0, 0, d.reserve, reservePages, Ready)
      ensures pool == from && table == entries && Valid()
      ensures from.freeList == old(from.freeList)[..|old(from.freeList)| - reservePages] && |reserve| == reservePages
      ensures forall i :: 0 <= i < reservePages ==> reserve[i] == old(from.freeList)[|old(from.freeList)| - 1 - i]
    {
      pool, table, capacity := from, entries, reservePages;
      mapped, shared, materialized, reserve := 0, 0, 0, [];
      new;
      reserve := from.DrawPages(reservePages);
    }

    method MapNext() returns (status: Status)
      requires Valid()
      modifies this`reserve, this`mapped, table, pool`dirty
      ensures Result(status, pool.View(), View()) == PageModel.MapNext(old(pool.View()), old(View()))
      ensures status == Ok <==> old(mapped) < table.Length && |old(reserve)| > 0
      ensures status == Ok ==> mapped == old(mapped) + 1 && reserve == old(reserve)[..|old(reserve)| - 1]
      ensures status == Ok ==> table[..] == old(table[..])[old(mapped) := old(reserve)[|old(reserve)| - 1]]
      ensures status != Ok ==> View() == old(View()) && pool.View() == old(pool.View())
    {
      if mapped >= table.Length { return InvalidArgument; }
      if reserve == [] { return Exhausted; }
      TakeTo(mapped);
      mapped := mapped + 1;
      status := Ok;
    }

    /** The top of the reserve becomes table entry `i`. */
    method TakeTo(i: nat)
      requires i < table.Length && reserve != [] && reserve[|reserve| - 1] < |pool.dirty|
      modifies this`reserve, table, pool`dirty
      ensures var p := old(reserve[|reserve| - 1]);
              reserve == old(reserve)[..|old(reserve)| - 1] && table[..] == old(table[..])[i := p]
              && pool.dirty == old(pool.dirty)[p := true]
    {
      var p := reserve[|reserve| - 1];
      reserve := reserve[..|reserve| - 1];
      pool.dirty := pool.dirty[p := true];
      table[i] := p;
    }

    /** The first `count` table entries, from the top of the reserve. */
    method TakeMany(count: nat)
      requires Valid() && count <= table.Length && count <= |reserve|
      modifies this`reserve, table, pool`dirty
      ensures reserve == old(reserve)[..|old(reserve)| - count]
      ensures var taken := Reversed(old(reserve)[|old(reserve)| - count..]);
              table[..] == taken + old(table[..])[count..] && pool.View() == Soil(old(pool.View()), taken)
    {
      ghost var was, entries, whole := pool.View(), table[..], reserve;
      var i := 0;
      assert whole[|whole|..] == [] && Soil(was, []) == was;
      while i < count
        invariant 0 <= i <= count && Took(was, entries, whole, i, pool.View(), table[..], reserve)
      {
        TookOneMore(was, entries, whole, i, pool.View(), table[..], reserve);
        TakeTo(i);
        i := i + 1;
      }
    }

    method MapMaterialized(count: nat) returns (status: Status)
      requires Valid()
      modifies this, table, pool`dirty
      ensures Result(status, pool.View(), View()) == PageModel.MapMaterialized(old(pool.View()), old(View()), count)
      ensures status == Ok <==> old(mapped) == 0 && count <= table.Length && count <= |old(reserve)|
      ensures status == Ok ==> mapped == materialized == count && shared == 0
      ensures status == Ok ==> reserve == old(reserve)[..|old(reserve)| - count]
      ensures status == Ok ==> forall i :: 0 <= i < count ==> table[i] == old(reserve)[|old(reserve)| - 1 - i]
      ensures status == Ok ==> forall i :: count <= i < table.Length ==> table[i] == old(table[i])
      ensures status != Ok ==> View() == old(View()) && pool.View() == old(pool.View())
    {
      MaterializedCopies(pool.View(), View(), count);
      if mapped != 0 || count > table.Length { return InvalidArgument; }
      if count > |reserve| { return Exhausted; }
      ghost var x := View();
      TakeMany(count);
      mapped, shared, materialized := count, 0, count;
      assert View() == Materialize(x, count);
      status := Ok;
    }

    method ShareLeading(src: PageHolder, pages: nat) returns (status: Status)
      requires Valid() && src.Valid() && src != this && src.pool == pool && src.table != table
      modifies this, table, pool`refcount, pool`sharedMaps, pool`sharedDistinct
      ensures Result(status, pool.View(), View())
              == PageModel.ShareLeading(old(pool.View()), old(View()), old(src.View()), pages)
      ensures status == Ok ==> pages <= src.table.Length && pages <= table.Length
      ensures status == Ok ==> mapped == shared == pages && materialized == 0 && reserve == old(reserve)
      ensures status == Ok ==> forall i :: 0 <= i < pages ==> table[i] == old(src.table[i])
      ensures status == Ok ==> forall i :: pages <= i < table.Length ==> table[i] == old(table[i])
      ensures status != Ok ==> View() == old(View()) && pool.View() == old(pool.View())
    {
      if mapped != 0 || pages == 0 || pages > src.mapped || pages > table.Length { return InvalidArgument; }
      LeadingInPool(pool.View(), src.View(), pages);
      status := pool.CheckShareable(src.table, pages);
      if status != Ok { return; }
      pool.CountUpEntries(src.table, pages);
      CopyLeading(src, pages);
      mapped, shared, materialized := pages, pages, 0;
      CopiedOver(src.table[..], old(table[..]), pages);
    }

    method CopyLeading(src: PageHolder, pages: nat)
      requires src.table != table && pages <= table.Length && pages <= src.table.Length
      modifies table
      ensures table[..] == src.table[..pages] + old(table[..])[pages..]
    {
      var i := 0;
      while i < pages
        invariant 0 <= i <= pages
        invariant forall k :: 0 <= k < i ==> table[k] == src.table[k]
        invariant forall k :: i <= k < table.Length ==> table[k] == old(table[k])
      {
        table[i] := src.table[i];
        i := i + 1;
      }
      assert table[..] == src.table[..pages] + old(table[..])[pages..];
    }

    method UnmapTail(keep: nat)
      requires Valid()
      modifies this`reserve, this`mapped
      ensures View() == PageModel.UnmapTail(old(View()), keep)
      ensures mapped == if keep >= old(mapped) || shared + materialized >= old(mapped) then old(mapped)
                        else if keep >= shared + materialized then keep else shared + materialized
      ensures mapped <= old(mapped) <= table.Length && PushedBack(reserve, old(reserve), table[mapped..old(mapped)])
    {
      TailDropped(View(), keep);
      var floor := Max(shared + materialized, keep);
      if floor >= mapped { return; }
      PrivateToReserve(floor);
      mapped := floor;
    }

    /** Table entries from the last mapped down to `from`, pushed back on the reserve. */
    method PrivateToReserve(from: nat)
      requires from <= mapped <= table.Length
      modifies this`reserve
      ensures reserve == old(reserve) + Reversed(table[from..mapped])
    {
      ghost var t, was := table[..mapped], reserve;
      var i := mapped;
      assert t[i..] == [];
      while i > from
        invariant from <= i <= mapped && table[..mapped] == t && reserve == was + Reversed(t[i..])
      {
        i := i - 1;
        assert table[i] == t[i];
        MoreReversed(t, i);
        reserve := reserve + [table[i]];
      }
      assert t[from..] == table[from..mapped];
    }

    /** The fill and the push, when there is something to free. */
    method FreePages(pages: seq<nat>)
      requires pool.Valid() && InPool(pool.View(), pages)
      modifies pool`dirty, pool`freeList, pool.base
      ensures pool.Valid() && pool.View() == PushFree(Clean(old(pool.View()), pages), pages)
      ensures Poisoned(old(pool.base[..]), pool.base[..], old(pool.dirty), pages, pool.pageBytes)
    {
      assert Clean(pool.View(), []) == pool.View();
      if pages != [] {
        pool.PoisonIfDirty(pages);
        pool.PushPages(pages);
      }
    }

    method UnmapAll() returns (status: Status)
      requires Valid()
      modifies this, table, pool, pool.base
      ensures Result(status, pool.View(), View()) == Complete(UnmapBegin(old(pool.View()), old(View())), [])
      ensures mapped == shared == materialized == 0
      ensures PushedBack(reserve, old(reserve), old(table[shared + materialized..mapped]))
    {
      ghost var x := View();
      ReversedPushesBack(reserve, table[shared + materialized..mapped]);
      LeadingInPool(pool.View(), x, PoolPath(x));
      UnmapRunsThrough(pool.View(), x);
      var poolPath := Min(shared + materialized, mapped);
      assert table[..poolPath] == x.table[..PoolPath(x)] && table[poolPath..mapped] == x.table[PoolPath(x)..x.mapped];
      status := Vacate(poolPath);
      mapped, shared, materialized := 0, 0, 0;
    }

    /** Leading entries to the pool, the rest to the reserve. */
    method Vacate(poolPath: nat) returns (status: Status)
      requires Valid() && poolPath <= mapped
      modifies this`reserve, table, pool, pool.base
      ensures var d := CountDown(old(pool.View()), old(table[..poolPath]), shared);
              status == d.status && pool.View() == PushFree(Clean(d.pool, d.freed), d.freed)
              && table[..] == d.freed + old(table[..])[|d.freed|..]
              && reserve == old(reserve) + Reversed(old(table[poolPath..mapped]))
    {
      ghost var t := table[..];
      var toFree;
      toFree, status := CountDownLeading(poolPath);
      ghost var t' := table[..];
      FreePages(table[..toFree]);
      assert table[..] == t' && table[poolPath..mapped] == t[poolPath..mapped];
      PrivateToReserve(poolPath);
    }

    /** The counting-down section over this holder's leading entries. */
    method CountDownLeading(n: nat) returns (toFree: nat, status: Status)
      requires Valid() && n <= mapped
      modifies table, pool`refcount, pool`sharedMaps, pool`sharedDistinct
      ensures toFree <= n && pool.Valid() && InPool(pool.View(), table[..toFree])
      ensures var d := CountDown(old(pool.View()), old(table[..n]), shared);
              d == Counted(pool.View(), table[..toFree], status) && table[..] == d.freed + old(table[..])[toFree..]
    {
      LeadingInPool(pool.View(), View(), n);
      FreedInPool(pool.View(), table[..n], shared);
      toFree, status := pool.CountDownEntries(table, n, shared);
      assert table[..] == table[..toFree] + table[toFree..];
    }

    method AdoptShare(src: PageHolder, srcId: nat, pages: nat) returns (status: Status)
      requires Valid() && src.Valid() && src != this && src.pool == pool && src.table != table && src.table != pool.base
      modifies this, table, pool, pool.base
      ensures var b := AdoptBegin(old(pool.View()), old(View()), old(src.View()), srcId, pages);
              Result(status, pool.View(), View()) == if b.holder.phase.Busy? then Complete(b, old(src.table[..])) else b
      ensures var b := AdoptBegin(old(pool.View()), old(View()), old(src.View()), srcId, pages);
              b.holder.phase.Busy? ==>
                && mapped == shared == pages && materialized == 0 && pages <= src.table.Length && pages <= table.Length
                && table[..pages] == old(src.table[..pages])
                && PushedBack(reserve, old(reserve), old(table[shared + materialized..mapped]))
    {
      ReversedPushesBack(reserve, table[shared + materialized..mapped]);
      if pages > src.mapped || pages > table.Length { return InvalidArgument; }
      LeadingInPool(pool.View(), src.View(), pages);
      LeadingInPool(pool.View(), View(), PoolPath(View()));
      status := pool.CheckShareable(src.table, pages);
      if status != Ok { return; }
      AdoptRunsThrough(pool.View(), View(), src.View(), srcId, pages);
      pool.CountUpEntries(src.table, pages);
      status := TakeOver(src, pages);
    }

    /** The unmap of an adopt, then the counted pages written into the table. */
    method TakeOver(src: PageHolder, pages: nat) returns (status: Status)
      requires Valid() && src != this && src.pool == pool && src.table != table && src.table != pool.base
      requires pages <= table.Length && pages <= src.table.Length
      modifies this, table, pool, pool.base
      ensures var x := old(View());
              var d := CountDown(old(pool.View()), x.table[..PoolPath(x)], x.shared);
              Result(status, pool.View(), View())
                  == Result(d.status, PushFree(Clean(d.pool, d.freed), d.freed),
                  Adopted(x, d.freed, old(src.table[..]), pages))
    {
      ghost var x := View();
      var poolPath := Min(shared + materialized, mapped);
      assert table[..poolPath] == x.table[..PoolPath(x)] && table[poolPath..mapped] == x.table[PoolPath(x)..x.mapped];
      status := Vacate(poolPath);
      CopyLeading(src, pages);
      mapped, shared, materialized := pages, pages, 0;
    }

    method Release() returns (status: Status)
      requires Valid()
      modifies this, table, pool, pool.base
      ensures var b := ReleaseBegin(old(pool.View()), old(View()));
              status == b.status && pool.View() == Complete(b, []).pool
    {
      var toFree, n, reported;
      toFree, status := CountDownLeading(mapped);
      n, reported := ZeroReserve();
      status := Worse(status, reported);
      ghost var mid := pool.View();
      FreedTogether(mid, table[..toFree], reserve[..n]);
      pool.PoisonIfDirty(table[..toFree]);
      pool.PoisonIfDirty(reserve[..n]);
      pool.PushPages(table[..toFree]);
      pool.PushPages(reserve[..n]);
    }

    method ReturnReserve() returns (status: Status, returned: nat)
      requires Valid()
      modifies this, pool, pool.base
      ensures var b := ReturnBegin(old(pool.View()), old(View()));
              Result(status, pool.View(), View()) == Complete(b, []) && returned == |b.holder.phase.pending|
    {
      assert Clean(pool.View(), []) == pool.View();
      if reserve == [] { return Ok, 0; }
      var n;
      n, status := ZeroReserve();
      pool.PoisonIfDirty(reserve[..n]);
      pool.PushPages(reserve[..n]);
      reserve, returned := [], n;
    }

    /** The reserve loop of release and return: a page already at 0 is reported and swapped behind the rest. */
    method ZeroReserve() returns (n: nat, status: Status)
      requires pool.Valid() && InPool(pool.View(), reserve)
      modifies this`reserve, pool`refcount
      ensures pool.Valid() && n <= |reserve| && InPool(pool.View(), reserve)
      ensures Zeroed(pool.View(), reserve, n, status)
              == PageModel.ZeroReserve(old(pool.View()), old(reserve), 0, |old(reserve)|)
    {
      ghost var whole := PageModel.ZeroReserve(pool.View(), reserve, 0, |reserve|);
      n, status := |reserve|, Ok;
      var i := 0;
      while i < n
        invariant 0 <= i <= n <= |reserve| && pool.Valid() && InPool(pool.View(), reserve)
        invariant var z := PageModel.ZeroReserve(pool.View(), reserve, i, n);
            z.(status := Worse(status, z.status)) == whole
        decreases n - i
      {
        var p := reserve[i];
        if pool.refcount[p] == 0 {
          status := Worse(status, RefcountUnderflow);
          n := n - 1;
          reserve := reserve[i := reserve[n]][n := p];
        } else {
          pool.refcount := pool.refcount[p := 0];
          i := i + 1;
        }
      }
    }
  }

  lemma SameFrom(a: seq<nat>, b: seq<nat>, k: nat, i: nat)
    requires |a| == |b| && k <= i < |a| && a[k..] == b[k..]
    ensures a[i] == b[i]
  {
    assert a[k..][i - k] == b[k..][i - k];
  }

  lemma SameAfter(a: seq<nat>, b: seq<nat>, c: seq<nat>, k: nat, m: nat)
    requires |a| == |b| == |c| && k <= m <= |a| && a[m..] == b[m..] && b[k..] == c[k..]
    ensures a[m..] == c[m..]
  {
    assert b[k..][m - k..] == b[m..] && c[k..][m - k..] == c[m..];
  }

  lemma CountDownMore(pool: Pool, pages: seq<nat>, n: nat, i: nat, shared: nat)
    requires i < n <= |pages| && InPool(pool, pages[..n])
    ensures pages[i] < |pool.refcount| && InPool(pool, pages[..i]) && InPool(pool, pages[..i + 1])
    ensures CountDown(pool, pages[..i + 1], shared)
         == CountDownOne(CountDown(pool, pages[..i], shared), pages[i], i < shared)
  {
    assert pages[..n][i] == pages[i] && pages[..i + 1][..i] == pages[..i];
    forall k | 0 <= k <= i ensures pages[k] < |pool.refcount| { assert pages[..n][k] == pages[k]; }
  }

  lemma {:induction false} FreedInPool(pool: Pool, pages: seq<nat>, shared: nat)
    requires InPool(pool, pages)
    ensures InPool(pool, CountDown(pool, pages, shared).freed)
  {
    if pages != [] { FreedInPool(pool, pages[..|pages| - 1], shared); }
  }

  lemma {:induction false} DrawnInPool(pool: Pool, n: nat)
    requires InPool(pool, pool.freeList) && n <= |pool.freeList|
    ensures InPool(Draw(pool, n).pool, Draw(pool, n).reserve)
  {
    if n > 0 { DrawnInPool(pool, n - 1); }
  }

  /** The holder at the end of an unmap. */
  function Unmapped(x: Holder, freed: seq<nat>): Holder
    requires HolderShape(x) && |freed| <= PoolPath(x)
  {
    x.(table := freed + x.table[|freed|..], reserve := x.reserve + Reversed(x.table[PoolPath(x)..x.mapped]),
       mapped := 0, shared := 0, materialized := 0)
  }

  lemma UnmapRunsThrough(pool: Pool, x: Holder)
    requires Fits(pool, x) && x.phase.Ready? && InPool(pool, x.table[..PoolPath(x)])
    ensures var d := CountDown(pool, x.table[..PoolPath(x)], x.shared);
            Complete(UnmapBegin(pool, x), [])
                == Result(d.status, PushFree(Clean(d.pool, d.freed), d.freed), Unmapped(x, d.freed))
  {
    UnmapEnds(x, CountDown(pool, x.table[..PoolPath(x)], x.shared).freed);
  }

  lemma UnmapEnds(x: Holder, freed: seq<nat>)
    requires HolderShape(x) && x.phase.Ready? && |freed| <= PoolPath(x)
    ensures Finish(x.(table := freed + x.table[|freed|..], phase := Busy(Unmap, freed, false)), [])
        == Unmapped(x, freed)
  {
    VacateEnds(x, freed);
  }

  /** The holder at the end of an adopt. */
  function Adopted(x: Holder, freed: seq<nat>, srcTable: seq<nat>, pages: nat): Holder
    requires HolderShape(x) && |freed| <= PoolPath(x) && pages <= |x.table| && pages <= |srcTable|
  {
    x.(table := srcTable[..pages] + (freed + x.table[|freed|..])[pages..],
        reserve := x.reserve + Reversed(x.table[PoolPath(x)..x.mapped]),
       mapped := pages, shared := pages, materialized := 0)
  }

  /** An adopt whose checks pass, run through. */
  lemma AdoptRunsThrough(pool: Pool, x: Holder, src: Holder, srcId: nat, pages: nat)
    requires Fits(pool, x) && Fits(pool, src) && x.phase.Ready? && pages <= src.mapped && pages <= |x.table|
    requires InPool(pool, src.table[..pages]) && PageModel.CheckShareable(pool, src.table[..pages]) == Ok
    requires InPool(pool, x.table[..PoolPath(x)])
    ensures var b := AdoptBegin(pool, x, src, srcId, pages);
            var d := CountDown(CountUp(pool, src.table[..pages]), x.table[..PoolPath(x)], x.shared);
            b.holder.phase.Busy?
            && Complete(b, src.table)
                == Result(d.status, PushFree(Clean(d.pool, d.freed), d.freed), Adopted(x, d.freed, src.table, pages))
  {
    var d := CountDown(CountUp(pool, src.table[..pages]), x.table[..PoolPath(x)], x.shared);
    AdoptEnds(x, d.freed, src.table, srcId, pages);
  }

  lemma AdoptEnds(x: Holder, freed: seq<nat>, srcTable: seq<nat>, srcId: nat, pages: nat)
    requires HolderShape(x) && x.phase.Ready? && |freed| <= PoolPath(x) && pages <= |x.table| && pages <= |srcTable|
    ensures var y := x.(table := freed + x.table[|freed|..],
            phase := Busy(Adopt(srcId, srcTable[..pages]), freed, false));
            Finish(y, srcTable) == Adopted(x, freed, srcTable, pages)
  {
    VacateEnds(x, freed);
  }

  lemma VacateEnds(x: Holder, freed: seq<nat>)
    requires HolderShape(x) && |freed| <= PoolPath(x)
    ensures PrivateBack(x.(table := freed + x.table[|freed|..])) == Reversed(x.table[PoolPath(x)..x.mapped])
  {
    assert (freed + x.table[|freed|..])[PoolPath(x)..x.mapped] == x.table[PoolPath(x)..x.mapped];
  }

  lemma FreedTogether(pool: Pool, a: seq<nat>, b: seq<nat>)
    ensures PushFree(PushFree(Clean(Clean(pool, a), b), a), b) == PushFree(Clean(pool, a + b), a + b)
  {
    CleanInTurn(pool, a, b);
    assert pool.freeList + a + b == pool.freeList + (a + b);
  }

  /** The pool, table and reserve after the topmost `i` pages of `whole` have become the table's first entries. */
  predicate Took(was: Pool, entries: seq<nat>, whole: seq<nat>, i: nat, pool: Pool, table: seq<nat>, reserve: seq<nat>)
    requires i <= |whole| && i <= |entries|
  {
    var taken := Reversed(whole[|whole| - i..]);
    table == taken + entries[i..] && reserve == whole[..|whole| - i] && pool == Soil(was, taken)
  }

  lemma TookOneMore(was: Pool, entries: seq<nat>, whole: seq<nat>, i: nat, pool: Pool, table: seq<nat>,
                    reserve: seq<nat>)
    requires InPool(was, whole) && i < |whole| && i < |entries| && Took(was, entries, whole, i, pool, table, reserve)
    ensures var k := |whole| - i - 1;
            |reserve| == k + 1 && reserve[k] < |pool.dirty| && i < |table|
            && Took(was, entries, whole, i + 1, pool.(dirty := pool.dirty[reserve[k] := true]), table[i := reserve[k]],
                reserve[..k])
  {
    var k := |whole| - i - 1;
    MoreReversed(whole, k);
    PutAfter(Reversed(whole[k + 1..]), entries, i, whole[k]);
    SoilOneMore(was, Reversed(whole[k + 1..]), whole[k]);
  }

  lemma PutAfter(a: seq<nat>, s: seq<nat>, i: nat, p: nat)
    requires |a| == i < |s|
    ensures (a + s[i..])[i := p] == (a + [p]) + s[i + 1..]
  {}

  lemma SoilOneMore(pool: Pool, pages: seq<nat>, p: nat)
    requires p < |pool.dirty|
    ensures Soil(pool, pages).(dirty := Soil(pool, pages).dirty[p := true]) == Soil(pool, pages + [p])
  {}

  predicate InDirty(dirty: seq<bool>, p: int) { 0 <= p < |dirty| && dirty[p] }

  /** The bytes after the dirty ones of `pages` are filled: those pages' bytes are the poison value, all others kept. */
  predicate Poisoned(bytes: seq<nat>, bytes': seq<nat>, dirty: seq<bool>, pages: seq<nat>, pageBytes: nat)
    requires pageBytes > 0
  {
    && |bytes'| == |bytes|
    && forall k :: 0 <= k < |bytes| ==>
         bytes'[k] == if k / pageBytes in pages && InDirty(dirty, k / pageBytes) then POISON else bytes[k]
  }

  lemma CleanInTurn(pool: Pool, a: seq<nat>, b: seq<nat>)
    ensures Clean(Clean(pool, a), b) == Clean(pool, a + b)
  {}

  lemma PoisonInTurn(bytes: seq<nat>, mid: seq<nat>, bytes': seq<nat>, pool: Pool, a: seq<nat>, b: seq<nat>,
                     pageBytes: nat)
    requires pageBytes > 0 && Poisoned(bytes, mid, pool.dirty, a, pageBytes)
    requires Poisoned(mid, bytes', Clean(pool, a).dirty, b, pageBytes)
    ensures Poisoned(bytes, bytes', pool.dirty, a + b, pageBytes)
  {
    forall k | 0 <= k < |bytes|
      ensures bytes'[k] == if k / pageBytes in a + b && InDirty(pool.dirty, k / pageBytes) then POISON else bytes[k]
    {
      var p := k / pageBytes;
      assert p in a + b <==> p in a || p in b;
    }
  }

  lemma InPages(m: nat, lo: nat, hi: nat, bytes: nat)
    requires bytes > 0
    ensures lo * bytes <= m < (hi + 1) * bytes <==> lo <= m / bytes <= hi
  {
    var q := m / bytes;
    DivBounds(m, bytes);
    assert (q + 1) * bytes == q * bytes + bytes;
    if q < lo { MulMono(q + 1, lo, bytes); }
    else if q > hi { MulMono(hi + 1, q, bytes); }
    else { MulMono(lo, q, bytes); MulMono(q + 1, hi + 1, bytes); }
  }

  /** A refusal by a prefix is the refusal of the whole. */
  lemma {:induction false} RefusalStays(pool: Pool, pages: seq<nat>, n: nat)
    requires InPool(pool, pages) && n <= |pages| && PageModel.CheckShareable(pool, pages[..n]) != Ok
    ensures PageModel.CheckShareable(pool, pages) == PageModel.CheckShareable(pool, pages[..n])
    decreases |pages|
  {
    if n == |pages| { assert pages[..n] == pages; }
    else {
      var k := |pages| - 1;
      assert pages[..k][..n] == pages[..n];
      RefusalStays(pool, pages[..k], n);
    }
  }
}
