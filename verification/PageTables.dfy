/** Where each verb of src/kv_pages.cpp puts which page: entry by entry for the tables, and in order for the reserves.
The counts are the matter of `PageLaws`. */
module PageTables {
  import opened PageModel
  import opened PageLaws

  lemma {:induction false} ReversedAt(s: seq<nat>, k: nat)
    requires k < |s|
    ensures Reversed(s)[k] == s[|s| - 1 - k]
  {
    if k > 0 { ReversedAt(s[..|s| - 1], k - 1); }
  }

  /** `end` is `start` followed by the entries of `pages`, last first. */
  ghost predicate PushedBack(end: seq<nat>, start: seq<nat>, pages: seq<nat>) {
    && |end| == |start| + |pages| && end[..|start|] == start
    && forall k :: |start| <= k < |end| ==> end[k] == pages[|end| - 1 - k]
  }

  lemma ReversedPushesBack(start: seq<nat>, pages: seq<nat>)
    ensures PushedBack(start + Reversed(pages), start, pages)
  {
    var end := start + Reversed(pages);
    forall k | |start| <= k < |end| ensures end[k] == pages[|end| - 1 - k] { ReversedAt(pages, k - |start|); }
  }

  // ----- From the reserve to the table

  /** The top of the reserve becomes the next table entry. */
  lemma NextMapped(pool: Pool, h: Holder)
    requires Fits(pool, h)
    ensures var r := MapNext(pool, h);
            && (r.status == Ok <==> h.mapped < |h.table| && |h.reserve| > 0)
            && (r.status != Ok ==> r.pool == pool && r.holder == h)
            && (r.status == Ok ==>
                  r.holder.mapped == h.mapped + 1 && |r.holder.table| == |h.table|
                  && r.holder.reserve == h.reserve[..|h.reserve| - 1]
                  && r.holder.table[h.mapped] == h.reserve[|h.reserve| - 1]
                  && forall i :: 0 <= i < |h.table| && i != h.mapped ==> r.holder.table[i] == h.table[i])
  {}

  /** The first table entries come off the reserve, top first. */
  lemma MaterializedCopies(pool: Pool, h: Holder, count: nat)
    requires Fits(pool, h)
    ensures var r := MapMaterialized(pool, h, count);
            && (r.status == Ok <==> h.mapped == 0 && count <= |h.table| && count <= |h.reserve|)
            && (r.status != Ok ==> r.pool == pool && r.holder == h)
            && (r.status == Ok ==>
                  r.holder.mapped == r.holder.materialized == count && r.holder.shared == 0
                  && |r.holder.table| == |h.table| && r.holder.reserve == h.reserve[..|h.reserve| - count]
                  && (forall i :: 0 <= i < count ==> r.holder.table[i] == h.reserve[|h.reserve| - 1 - i])
                  && forall i :: count <= i < |h.table| ==> r.holder.table[i] == h.table[i])
  {
    if h.mapped == 0 && count <= |h.table| && count <= |h.reserve| {
      var left := |h.reserve| - count;
      forall i | 0 <= i < count ensures Reversed(h.reserve[left..])[i] == h.reserve[|h.reserve| - 1 - i] {
        ReversedAt(h.reserve[left..], i);
      }
    }
  }

  /** The table loses its entries from the floor on; they go back to the reserve, last mapped first. */
  lemma TailDropped(h: Holder, keep: nat)
    requires HolderShape(h)
    ensures var y := UnmapTail(h, keep);
            && y.table == h.table && y.shared == h.shared && y.materialized == h.materialized
            && (h.shared + h.materialized >= h.mapped || keep >= h.mapped ==> y == h)
            && (h.shared + h.materialized < h.mapped && keep < h.mapped ==>
                  (y.mapped == keep || y.mapped == h.shared + h.materialized)
                  && y.mapped >= keep && y.mapped >= h.shared + h.materialized
                  && PushedBack(y.reserve, h.reserve, h.table[y.mapped..h.mapped]))
  {
    var y := UnmapTail(h, keep);
    if y != h { ReversedPushesBack(h.reserve, h.table[y.mapped..h.mapped]); }
  }

  // ----- Sharing

  /** A page can take one more reference when its count lies in [1, 2^32 - 2]. */
  predicate CountsAdmit(pool: Pool, pages: seq<nat>)
    requires InPool(pool, pages)
  {
    forall i :: 0 <= i < |pages| ==> 1 <= pool.refcount[pages[i]] <= 0xFFFF_FFFE
  }

  /** The counts are 32-bit numbers. */
  predicate CountsAreWords(pool: Pool) { forall p :: 0 <= p < |pool.refcount| ==> pool.refcount[p] <= 0xFFFF_FFFF }

  lemma PassesExactly(pool: Pool, pages: seq<nat>)
    requires InPool(pool, pages) && CountsAreWords(pool)
    ensures PageModel.CheckShareable(pool, pages) == Ok <==> CountsAdmit(pool, pages)
  {
    CheckPasses(pool, pages);
  }

  /** The receiver gets the source's leading entries in their own order, or nothing happens. */
  lemma ShareCopies(pool: Pool, dst: Holder, src: Holder, pages: nat)
    requires Fits(pool, dst) && Fits(pool, src) && CountsAreWords(pool)
    ensures pages <= src.mapped ==> InPool(pool, src.table[..pages])
    ensures var r := ShareLeading(pool, dst, src, pages);
            && (r.status == Ok <==>
                  dst.mapped == 0 && 0 < pages <= src.mapped && pages <= |dst.table|
                  && CountsAdmit(pool, src.table[..pages]))
            && (r.status != Ok ==> r.pool == pool && r.holder == dst)
            && (r.status == Ok ==>
                  r.holder.mapped == r.holder.shared == pages && r.holder.materialized == 0
                  && r.holder.reserve == dst.reserve && |r.holder.table| == |dst.table|
                  && (forall i :: 0 <= i < pages ==> r.holder.table[i] == src.table[i])
                  && forall i :: pages <= i < |dst.table| ==> r.holder.table[i] == dst.table[i])
  {
    if pages <= src.mapped {
      LeadingInPool(pool, src, pages);
      PassesExactly(pool, src.table[..pages]);
    }
  }

  /** An adopt starts under the same conditions on arguments and counts, and otherwise nothing happens. */
  lemma AdoptStarts(pool: Pool, dst: Holder, src: Holder, srcId: nat, pages: nat)
    requires Fits(pool, dst) && Fits(pool, src) && dst.phase.Ready? && CountsAreWords(pool)
    ensures pages <= src.mapped ==> InPool(pool, src.table[..pages])
    ensures var b := AdoptBegin(pool, dst, src, srcId, pages);
            && (b.holder.phase.Busy? <==>
                  pages <= src.mapped && pages <= |dst.table| && CountsAdmit(pool, src.table[..pages]))
            && (b.holder.phase.Busy? ==> b.holder.phase.op == Adopt(srcId, src.table[..pages]))
            && (!b.holder.phase.Busy? ==> b.status != Ok && b.pool == pool && b.holder == dst)
  {
    if pages <= src.mapped {
      LeadingInPool(pool, src, pages);
      PassesExactly(pool, src.table[..pages]);
    }
  }

  // ----- The ends of the long verbs

  /** An unmap ends with nothing mapped and the private entries back on the reserve, last mapped first. */
  lemma UnmapEmpties(h: Holder)
    requires HolderShape(h) && h.phase.Busy? && h.phase.op.Unmap?
    ensures var y := Finish(h, []);
            y.mapped == y.shared == y.materialized == 0 && y.table == h.table && y.phase.Ready?
            && PushedBack(y.reserve, h.reserve, h.table[PoolPath(h)..h.mapped])
  {
    ReversedPushesBack(h.reserve, h.table[PoolPath(h)..h.mapped]);
  }

  /** An adopt ends with the source's leading entries in their own order, and the private entries it had mapped back
      on the reserve, last mapped first. */
  lemma AdoptCopies(h: Holder, srcTable: seq<nat>)
    requires HolderShape(h) && h.phase.Busy? && h.phase.op.Adopt?
    requires |h.phase.op.incoming| <= |h.table| && |h.phase.op.incoming| <= |srcTable|
    ensures var y, pages := Finish(h, srcTable), |h.phase.op.incoming|;
            && y.mapped == y.shared == pages && y.materialized == 0 && y.phase.Ready? && |y.table| == |h.table|
            && (forall i :: 0 <= i < pages ==> y.table[i] == srcTable[i])
            && (forall i :: pages <= i < |h.table| ==> y.table[i] == h.table[i])
            && PushedBack(y.reserve, h.reserve, h.table[PoolPath(h)..h.mapped])
  {
    CopiedOver(srcTable, h.table, |h.phase.op.incoming|);
    ReversedPushesBack(h.reserve, h.table[PoolPath(h)..h.mapped]);
  }

  lemma CopiedOver(a: seq<nat>, b: seq<nat>, n: nat)
    requires n <= |a| && n <= |b|
    ensures var c := a[..n] + b[n..];
            && |c| == |b| && (forall i :: 0 <= i < n ==> c[i] == a[i])
            && forall i :: n <= i < |b| ==> c[i] == b[i]
  {}

  // ----- Drawing

  /** A create takes the top of the free stack, topmost first, and sets exactly those counts to 1. */
  lemma DrawTakes(pool: Pool, n: nat)
    requires InPool(pool, pool.freeList) && n <= |pool.freeList|
    ensures var d := Draw(pool, n);
            && d.pool.freeList == pool.freeList[..|pool.freeList| - n] && |d.reserve| == n
            && (forall i :: 0 <= i < n ==> d.reserve[i] == pool.freeList[|pool.freeList| - 1 - i])
            && forall p :: 0 <= p < |pool.refcount| ==>
                 d.pool.refcount[p] == if p in d.reserve then 1 else pool.refcount[p]
  {
    DrawMoves(pool, n);
    DrawSetsOne(pool, n);
    var top := pool.freeList[|pool.freeList| - n..];
    forall i | 0 <= i < n ensures Draw(pool, n).reserve[i] == pool.freeList[|pool.freeList| - 1 - i] {
      ReversedAt(top, i);
    }
  }
}
