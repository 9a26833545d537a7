/** The buffer pool over the database file: page numbers come from the file's free list, which
    evictions and flushes may write over. */
module PoolFile {
  import opened Wrappers
  import opened ByteCodec
  import opened PageHeader
  import opened RowIds
  import F = FileManager
  import P = BufferPool
  import T = TxnOverlay

  // ----- the pool's disk as a file -----

  /** The disk holds the pages of a file of that many pages, all but the header page. */
  ghost predicate Covers(disk: P.Disk, count: nat) {
    && 1 <= count <= U32_LIMIT
    && (forall p :: p in disk <==> 0 < p < count)
    && forall p :: p in disk ==> |disk[p]| == PAGE_SIZE
  }

  ghost function FileOf(disk: P.Disk, count: nat, head: PageId): (d: F.Disk)
    ensures d.head == head && |d.file| == count
    ensures forall p :: 0 <= p < count && p in disk ==> d.file[p] == disk[p]
  {
    F.Disk(seq(count, i => if i in disk then disk[i] else Zeros(PAGE_SIZE)), head)
  }

  lemma FileWrite(disk: P.Disk, count: nat, head: PageId, p: PageId, data: Bytes)
    requires Covers(disk, count) && p in disk && |data| == PAGE_SIZE
    ensures Covers(disk[p := data], count)
    ensures FileOf(disk[p := data], count, head) == F.Write(FileOf(disk, count, head), p, data)
  {
  }

  lemma FileGrow(disk: P.Disk, count: nat, head: PageId)
    requires Covers(disk, count) && count < U32_LIMIT
    ensures Covers(disk[count := Zeros(PAGE_SIZE)], count + 1)
    ensures var d := FileOf(disk, count, head);
            FileOf(disk[count := Zeros(PAGE_SIZE)], count + 1, head) == d.(file := d.file + [Zeros(PAGE_SIZE)])
  {
  }

  // ----- links -----

  /** The page that a page's header links to. */
  function Link(raw: Bytes): Option<PageId>
    requires |raw| == PAGE_SIZE
  {
    match Parse(raw) case Some(h) => Some(h.nextPage) case None => None
  }

  /** What the free list depends on. */
  lemma LinksKeep(d: F.Disk, d': F.Disk, free: seq<PageId>)
    requires F.DiskOK(d) && F.DiskOK(d') && F.FreeList(d, free) && d'.head == d.head && |d'.file| == |d.file|
    requires forall p :: p in free && 0 <= p < |d.file| ==> Link(d'.file[p]) == Link(d.file[p])
    ensures F.FreeList(d', free)
  {
    hide Parse;
    forall i | 0 <= i < |free|
      ensures F.LinkOK(d', free, i)
    {
      assert F.LinkOK(d, free, i) && free[i] in free;
    }
  }

  lemma LinksFixed(d: F.Disk, d': F.Disk, free: seq<PageId>, p: PageId)
    requires F.DiskOK(d) && F.DiskOK(d') && F.FreeList(d, free) && F.FreeList(d', free) && p in free
    ensures 0 < p < |d.file| && p < |d'.file| && Link(d.file[p]).Some? && Link(d'.file[p]) == Link(d.file[p])
  {
    hide Parse;
    var i :| 0 <= i < |free| && free[i] == p;
    assert F.LinkOK(d, free, i) && F.LinkOK(d', free, i);
  }

  // ----- cached copies of free pages -----

  /** If page p has a dirty cached copy, it links where the page on disk does. */
  predicate Settled(disk: P.Disk, cache: map<PageId, P.Entry>, p: PageId) {
    p in cache && cache[p].dirty ==>
      p in disk && |disk[p]| == |cache[p].data| == PAGE_SIZE && Link(cache[p].data) == Link(disk[p])
  }

  /** No free page has a dirty cached copy with another link. */
  ghost predicate Quiet(disk: P.Disk, cache: map<PageId, P.Entry>, free: seq<PageId>) {
    forall p :: p in free ==> Settled(disk, cache, p)
  }

  ghost predicate Fits(disk: P.Disk, cache: map<PageId, P.Entry>) {
    forall p :: p in cache ==> p in disk && |cache[p].data| == PAGE_SIZE
  }

  /** The free list survives the next flush exactly if no free page has a dirty cached copy with
      another link. */
  lemma FlushKeepsListIff(disk: P.Disk, cache: map<PageId, P.Entry>, count: nat, head: PageId, free: seq<PageId>,
                          used: set<PageId>)
    requires Covers(disk, count) && Fits(disk, cache) && F.Sane(FileOf(disk, count, head), free, used)
    ensures Covers(P.Flushed(disk, cache), count)
    ensures F.Sane(FileOf(P.Flushed(disk, cache), count, head), free, used) <==> Quiet(disk, cache, free)
  {
    var d, d' := FileOf(disk, count, head), FileOf(P.Flushed(disk, cache), count, head);
    F.ListInside(d, free);
    hide Link, F.FreeList, FileOf;
    assert F.DiskOK(d');
    if Quiet(disk, cache, free) {
      LinksKeep(d, d', free);
    }
    if F.FreeList(d', free) {
      forall p | p in free
        ensures Settled(disk, cache, p)
      {
        LinksFixed(d, d', free, p);
      }
    }
  }

  /** While it is so, evictions keep the list as well. */
  lemma SpilledKeepsList(disk: P.Disk, cache: map<PageId, P.Entry>, disk': P.Disk, cache': map<PageId, P.Entry>,
                         count: nat, head: PageId, free: seq<PageId>, used: set<PageId>)
    requires Covers(disk, count) && F.Sane(FileOf(disk, count, head), free, used) && Quiet(disk, cache, free)
    requires P.Spilled(disk, cache, disk', cache') && Fits(disk, cache)
    ensures Covers(disk', count) && F.Sane(FileOf(disk', count, head), free, used) && Quiet(disk', cache', free)
  {
    var d, d' := FileOf(disk, count, head), FileOf(disk', count, head);
    F.ListInside(d, free);
    hide Link, F.FreeList, FileOf;
    assert F.DiskOK(d');
    forall p | p in free
      ensures Link(d'.file[p]) == Link(d.file[p]) && Settled(disk', cache', p)
    {
      assert Settled(disk, cache, p);
    }
    LinksKeep(d, d', free);
  }

  /** A freed page links to the old head of the list. */
  lemma FreedLink(raw: Bytes, p: PageId, t: PageType, next: PageId)
    requires |raw| == PAGE_SIZE && 0 <= p < U32_LIMIT && 0 <= next < U32_LIMIT
    ensures Link(F.FreeImage(raw, p, t, next)) == Some(next)
  {
    F.FreedReads(raw, p, t, next);
  }

  /** If page p has a dirty cached copy, it links to the page named. */
  predicate LinksTo(cache: map<PageId, P.Entry>, p: PageId, next: PageId) {
    p in cache && cache[p].dirty ==> |cache[p].data| == PAGE_SIZE && Link(cache[p].data) == Some(next)
  }

  /** Freeing a page in use keeps the list on disk, and keeps it safe from later flushes exactly if
      a dirty cached copy of the page links to the old head. */
  lemma FreedQuietIff(disk: P.Disk, cache: map<PageId, P.Entry>, count: nat, head: PageId, free: seq<PageId>,
                      used: set<PageId>, p: PageId, t: PageType)
    requires Covers(disk, count) && F.Sane(FileOf(disk, count, head), free, used) && Fits(disk, cache)
    requires p in used && 0 <= p < U32_LIMIT && p in disk && F.TypeOf(disk[p]) == Some(t) && 0 <= head < U32_LIMIT
    ensures var disk' := disk[p := F.FreeImage(disk[p], p, t, head)];
            && Covers(disk', count) && F.Sane(FileOf(disk', count, p), [p] + free, used - {p})
            && F.Release(FileOf(disk, count, head), p) == Ok(FileOf(disk', count, p))
            && (Quiet(disk', cache, [p] + free) <==> Quiet(disk, cache, free) && LinksTo(cache, p, head))
  {
    var d, image := FileOf(disk, count, head), F.FreeImage(disk[p], p, t, head);
    F.FreeSane(d, free, used, p);
    FreedLink(disk[p], p, t, head);
    FileWrite(disk, count, head, p, image);
    var disk' := disk[p := image];
    assert FileOf(disk', count, p) == FileOf(disk', count, head).(head := p);
    hide F.FreeImage, Link, F.FreeList, FileOf;
    forall q | q in free
      ensures Settled(disk', cache, q) <==> Settled(disk, cache, q)
    {
    }
    assert forall q :: q in [p] + free <==> q == p || q in free;
    assert Settled(disk', cache, p) <==> LinksTo(cache, p, head);
  }

  /** Allocation keeps the list on disk and safe. */
  lemma AllocQuiet(disk: P.Disk, cache: map<PageId, P.Entry>, count: nat, head: PageId, free: seq<PageId>,
                   used: set<PageId>)
    requires Covers(disk, count) && F.Sane(FileOf(disk, count, head), free, used) && count < U32_LIMIT
    requires Quiet(disk, cache, free) && Fits(disk, cache)
    ensures head == 0 <==> free == []
    ensures head != 0 ==>
              && head in disk && |disk[head]| == PAGE_SIZE && Link(disk[head]).Some? && head !in used
              && var next := Link(disk[head]).value;
                 F.Alloc(FileOf(disk, count, head)) == Ok((FileOf(disk, count, next), head))
                 && F.Sane(FileOf(disk, count, next), free[1..], used + {head}) && Quiet(disk, cache, free[1..])
    ensures head == 0 ==>
              && count !in used && count !in cache && count !in disk
              && var disk' := disk[count := Zeros(PAGE_SIZE)];
                 Covers(disk', count + 1)
                 && F.Alloc(FileOf(disk, count, head)) == Ok((FileOf(disk', count + 1, head), count))
                 && F.Sane(FileOf(disk', count + 1, head), free, used + {count}) && Quiet(disk', cache, free)
  {
    var d := FileOf(disk, count, head);
    F.AllocSane(d, free, used);
    F.ListInside(d, free);
    if head == 0 {
      FileGrow(disk, count, head);
    }
    hide Parse;
  }

  /** Writing to pages in use does not touch the list. */
  lemma UsedWritten(disk: P.Disk, cache: map<PageId, P.Entry>, disk': P.Disk, cache': map<PageId, P.Entry>,
                    count: nat, head: PageId, free: seq<PageId>, used: set<PageId>)
    requires Covers(disk, count) && Covers(disk', count) && F.Sane(FileOf(disk, count, head), free, used)
    requires forall p :: p in disk && p !in used ==> disk'[p] == disk[p]
    requires Quiet(disk, cache, free) && forall p :: p in cache' && p !in used ==> p in cache && cache'[p] == cache[p]
    ensures F.Sane(FileOf(disk', count, head), free, used) && Quiet(disk', cache', free)
  {
    var d, d' := FileOf(disk, count, head), FileOf(disk', count, head);
    F.ListInside(d, free);
    hide Link, F.FreeList, FileOf;
    assert F.DiskOK(d');
    forall p | p in free
      ensures Link(d'.file[p]) == Link(d.file[p]) && Settled(disk', cache', p)
    {
      assert Settled(disk, cache, p);
    }
    LinksKeep(d, d', free);
  }

  /** Once more pages are free, what matters is their cached copies. */
  lemma MoreFree(disk: P.Disk, disk': P.Disk, cache: map<PageId, P.Entry>, free: seq<PageId>, free': seq<PageId>,
                 freed: set<PageId>)
    requires Quiet(disk, cache, free) && forall p :: p in free' <==> p in free || p in freed
    requires disk'.Keys == disk.Keys && forall p :: p in disk && p in free ==> disk'[p] == disk[p]
    ensures Quiet(disk', cache, free') <==> forall p :: p in freed ==> Settled(disk', cache, p)
  {
    hide Link;
    forall p | p in free
      ensures Settled(disk', cache, p)
    {
      assert Settled(disk, cache, p);
    }
  }

  // ----- the object -----

  class PagedFile {
    const pool: P.BufferPool
    var pageCount: nat
    var freeListHead: PageId
    ghost var free: seq<PageId>
    ghost var used: set<PageId>

    ghost function File(): F.Disk
      reads this, pool
    {
      FileOf(pool.disk, pageCount, freeListHead)
    }

    /** The free list on disk is sound. */
    ghost predicate Listed()
      reads this, pool
    {
      pool.Valid() && Covers(pool.disk, pageCount) && F.Sane(File(), free, used)
    }

    /** It is, and stays so whatever the pool writes to disk. */
    ghost predicate Valid()
      reads this, pool
    {
      Listed() && Quiet(pool.disk, pool.cache, free)
    }

    /** The pages in use, as their users see them: what PageStore calls its pages. */
    ghost function Pages(): map<PageId, Bytes>
      reads this, pool
    {
      map p | p in used && p in pool.View() :: pool.View()[p]
    }

    /** A file without free pages. */
    constructor (pool: P.BufferPool, pageCount: nat)
      requires pool.Valid() && Covers(pool.disk, pageCount)
      ensures Valid() && this.pool == pool && this.pageCount == pageCount
      ensures free == [] && used == pool.disk.Keys
    {
      this.pool, this.pageCount, freeListHead := pool, pageCount, 0;
      free, used := [], pool.disk.Keys;
    }

    /** A page whose bytes parse can be read while fewer pages are pinned than the pool holds. */
    lemma ParsingReadable(p: PageId)
      requires pool.Valid() && |pool.pinned| < pool.capacity
      requires p in pool.View() && |pool.View()[p]| == PAGE_SIZE && Parse(pool.View()[p]).Some?
      ensures pool.Readable(p)
    {
      SubsetSize(pool.cache.Keys * pool.pinned, pool.pinned);
    }

    lemma Cached()
      requires pool.Valid()
      ensures Fits(pool.disk, pool.cache)
    {
    }

    method GetPage(p: PageId) returns (r: Result<Bytes, P.PoolError>)
      requires Valid()
      modifies pool
      ensures Valid() && pool.View() == old(pool.View()) && Pages() == old(Pages())
      ensures r.Ok? && p in pool.View() ==> r.value == pool.View()[p]
      ensures r.Ok? ==> p in pool.cache
      ensures r.Ok? <==> old(pool.Readable(p))
      ensures r.Err? ==>
        match r.error
        case PageOutOfRange => p !in old(pool.disk)
        case BadPageType => p in old(pool.disk) && Link(old(pool.disk)[p]).None?
        case AllPinned => p in old(pool.disk) && |old(pool.cache.Keys) * pool.pinned| >= pool.capacity
      ensures pool.pinned == old(pool.pinned)
    {
      hide P.BufferPool.Valid, P.BufferPool.View, P.BufferPool.Readable, P.Spilled, F.Sane, Quiet;
      Cached();
      ghost var disk, cache := pool.disk, pool.cache;
      r := pool.GetPage(p);
      SpilledKeepsList(disk, cache, pool.disk, pool.cache, pageCount, freeListHead, free, used);
      ViewAt(p);
    }

    lemma ViewAt(p: PageId)
      ensures p in pool.View() ==> p in pool.disk && pool.View()[p] == P.Served(pool.disk, pool.cache, p)
    {
    }

    /** The head of the list, or else a new page at the end: never a page in use. */
    method AllocPage() returns (p: PageId)
      requires Valid() && pageCount < U32_LIMIT
      modifies this, pool`disk, pool`stale
      ensures Valid() && p !in old(used) && used == old(used) + {p} && p in pool.disk
      ensures F.Alloc(old(File())) == Ok((File(), p))
      ensures free == if old(free) == [] then [] else old(free)[1..]
      ensures forall q :: q in old(pool.disk) ==> q in pool.disk && pool.disk[q] == old(pool.disk)[q]
      ensures pageCount == if old(free) == [] then old(pageCount) + 1 else old(pageCount)
      ensures pool.View() == if old(free) == [] then old(pool.View())[p := Zeros(PAGE_SIZE)] else old(pool.View())
      ensures forall q :: q in old(pool.View()) ==> q in pool.View() && pool.View()[q] == old(pool.View())[q]
    {
      hide FileOf, F.Sane, F.Alloc, Quiet, P.CoherentIn, P.ViewOf, Link;
      Cached();
      AllocQuiet(pool.disk, pool.cache, pageCount, freeListHead, free, used);
      if freeListHead != 0 {
        p := freeListHead;
        freeListHead := Link(pool.disk[p]).value;
        free, used := free[1..], used + {p};
      } else {
        p := pageCount;
        Outside(p);
        pool.WriteBehind(p, Zeros(PAGE_SIZE));
        pageCount := pageCount + 1;
        used := used + {p};
      }
    }

    lemma Outside(p: PageId)
      requires p !in pool.disk
      ensures p !in pool.View()
    {
    }

    /** Puts a page in use on the list, past the pool. The list is safe from what the pool writes
        later exactly if a dirty cached copy of the page links to the old head of the list. */
    method FreePage(p: PageId) returns (r: Result<(), F.FileError>)
      requires Listed() && p in used
      modifies this, pool`disk, pool`stale
      ensures Listed() && pageCount == old(pageCount)
      ensures r.Ok? <==> F.Release(old(File()), p).Ok?
      ensures r.Ok? ==> F.Release(old(File()), p) == Ok(File()) && free == [p] + old(free) && used == old(used) - {p}
      ensures r.Ok? ==> pool.disk.Keys == old(pool.disk.Keys)
      ensures r.Ok? ==> forall q :: q in pool.disk && q != p ==> pool.disk[q] == old(pool.disk[q])
      ensures r.Ok? ==> (Valid() <==> old(Valid()) && LinksTo(pool.cache, p, old(freeListHead)))
      ensures forall q :: q in old(pool.View()) && q != p ==> q in pool.View() && pool.View()[q] == old(pool.View())[q]
      ensures r.Err? ==> r.error == F.BadPageType && File() == old(File()) && free == old(free) && used == old(used)
      ensures r.Err? ==> pool.disk == old(pool.disk) && pool.View() == old(pool.View())
    {
      hide FileOf, F.Sane, F.Release, F.TypeOf, F.FreeImage, Quiet, P.CoherentIn, P.ViewOf, Link, LinksTo;
      Numbered(p);
      var t := F.TypeOf(pool.disk[p]);
      if t.None? {
        return Err(F.BadPageType);
      }
      Cached();
      FreedQuietIff(pool.disk, pool.cache, pageCount, freeListHead, free, used, p, t.value);
      pool.WriteBehind(p, F.FreeImage(pool.disk[p], p, t.value, freeListHead));
      free, used := [p] + free, used - {p};
      freeListHead := p;
      return Ok(());
    }

    /** Writes a page in use to disk, past the pool: a read returns the new bytes exactly if the pool
        has no other copy. */
    method WritePage(p: PageId, data: Bytes)
      requires Valid() && p in used && |data| == PAGE_SIZE
      modifies pool`disk, pool`stale
      ensures Valid() && p in pool.disk
      ensures P.Served(pool.disk, pool.cache, p) == data <==> p !in pool.cache || pool.cache[p].data == data
      ensures pool.View() == if p in pool.cache then old(pool.View()) - {p} else old(pool.View())[p := data]
    {
      hide FileOf, F.Sane, Quiet, P.CoherentIn, P.ViewOf, Link;
      ghost var disk := pool.disk;
      Numbered(p);
      FileWrite(pool.disk, pageCount, freeListHead, p, data);
      pool.WriteBehind(p, data);
      UsedWritten(disk, pool.cache, pool.disk, pool.cache, pageCount, freeListHead, free, used);
    }

    /** A page allocated and then written past the pool, as tables, indexes and the catalog do: one page
        more, unless the pool still has a copy from the page's earlier life. */
    method NewPage(data: Bytes) returns (p: PageId)
      requires Valid() && pageCount < U32_LIMIT && |data| == PAGE_SIZE
      modifies this, pool`disk, pool`stale
      ensures Valid() && p !in old(used) && used == old(used) + {p} && p in pool.disk
      ensures p !in pool.cache ==> Pages() == old(Pages())[p := data]
      ensures P.Served(pool.disk, pool.cache, p) == data <==> p !in pool.cache || pool.cache[p].data == data
    {
      hide FileOf, F.Sane, Quiet, P.CoherentIn, P.ViewOf, Link;
      p := AllocPage();
      WritePage(p, data);
      if p !in pool.cache {
        P.SameMap(Pages(), old(Pages())[p := data]);
      }
    }

    /** The same, replacing the cached copy as well. */
    method Adopt(p: PageId, data: Bytes)
      requires Valid() && p in used && |data| == PAGE_SIZE
      modifies pool
      ensures Valid() && pool.View() == old(pool.View())[p := data] && p in pool.cache
      ensures pool.pinned == old(pool.pinned)
    {
      hide FileOf, F.Sane, Quiet, P.OrderedBy, P.CoherentIn, P.ViewOf, Link;
      ghost var disk, cache := pool.disk, pool.cache;
      Numbered(p);
      FileWrite(pool.disk, pageCount, freeListHead, p, data);
      pool.Adopt(p, data);
      UsedWritten(disk, cache, pool.disk, pool.cache, pageCount, freeListHead, free, used);
    }

    /** Changes the cached copy of a page in use; for a page that is not cached the bytes are lost. */
    method SetPageData(p: PageId, data: Bytes)
      requires Valid() && p in used && |data| == PAGE_SIZE
      modifies pool
      ensures Valid()
      ensures pool.View() == if p in old(pool.cache) then old(pool.View())[p := data] else old(pool.View())
      ensures Pages() == if p in old(pool.cache) then old(Pages())[p := data] else old(Pages())
      ensures pool.pinned == old(pool.pinned)
    {
      hide FileOf, F.Sane, Quiet, P.OrderedBy, P.CoherentIn, P.ViewOf, Link;
      ghost var cache := pool.cache;
      pool.SetPageData(p, data);
      pool.MarkDirty(p);
      UsedWritten(pool.disk, cache, pool.disk, pool.cache, pageCount, freeListHead, free, used);
    }

    /** Flushes, copies shadow pages over their originals on disk and empties the cache. */
    method Install(shadows: T.Shadows)
      requires Valid()
      requires forall p :: p in shadows ==>
                 p in pool.View() && shadows[p] in pool.View() && shadows[p] !in shadows && p in used
      modifies pool
      ensures Valid() && pool.disk == pool.View() && pool.pinned == old(pool.pinned)
      ensures var pages := T.Copied(old(pool.View()), shadows, shadows.Keys);
              forall p :: p in pages ==> p in pool.View() && pool.View()[p] == pages[p]
    {
      hide FileOf, F.Sane, Quiet, P.OrderedBy, P.CoherentIn, P.ViewOf, Link;
      hide T.Copied;
      Cached();
      FlushKeepsListIff(pool.disk, pool.cache, pageCount, freeListHead, free, used);
      pool.Flush();
      ghost var view, flushed := pool.View(), pool.disk;
      Listing();
      CopiedInside(view, flushed, shadows);
      CopyShadows(shadows);
      CopiedElsewhere(flushed, shadows);
      QuietEmpty(flushed, free);
      pool.Clear();
      UsedWritten(flushed, map[], pool.disk, pool.cache, pageCount, freeListHead, free, used);
    }

    method CopyShadows(shadows: T.Shadows)
      requires forall p :: p in shadows ==> p in pool.disk && shadows[p] in pool.disk && shadows[p] !in shadows
      requires Covers(pool.disk, pageCount)
      modifies pool`disk
      ensures pool.disk == T.Copied(old(pool.disk), shadows, shadows.Keys) && Covers(pool.disk, pageCount)
    {
      var rest := shadows.Keys;
      ghost var before := pool.disk;
      while rest != {}
        invariant rest <= shadows.Keys && pool.disk == T.Copied(before, shadows, shadows.Keys - rest)
        invariant Covers(pool.disk, pageCount)
        decreases rest
      {
        var p := Pick(rest);
        pool.disk := pool.disk[p := pool.disk[shadows[p]]];
        rest := rest - {p};
      }
    }

    lemma CopiedInside(view: T.Pages, disk: T.Pages, shadows: T.Shadows)
      requires forall p :: p in shadows ==> p in view && shadows[p] in view
      requires forall p :: p in view ==> p in disk && disk[p] == view[p]
      ensures forall p :: p in shadows ==> p in disk && shadows[p] in disk
      ensures var pages, pages' := T.Copied(view, shadows, shadows.Keys), T.Copied(disk, shadows, shadows.Keys);
              forall p :: p in pages ==> p in pages' && pages'[p] == pages[p]
    {
      forall p | p in shadows
        ensures p in disk && shadows[p] in disk && disk[shadows[p]] == view[shadows[p]]
      {
        var q := shadows[p];
        assert q in view && disk[q] == view[q];
      }
    }

    lemma CopiedElsewhere(disk: T.Pages, shadows: T.Shadows)
      requires forall p :: p in shadows ==> shadows[p] in disk
      ensures forall p :: p in disk && p !in shadows ==> T.Copied(disk, shadows, shadows.Keys)[p] == disk[p]
    {
    }

    lemma QuietEmpty(disk: P.Disk, free: seq<PageId>)
      ensures Quiet(disk, map[], free)
    {
    }

    lemma Listing()
      requires pool.Valid()
      ensures forall p :: p in pool.View() ==> p in pool.disk
    {
    }

    lemma Numbered(p: PageId)
      requires Listed() && p in used
      ensures p in pool.disk && |pool.disk[p]| == PAGE_SIZE && 0 < p < U32_LIMIT && 0 <= freeListHead < U32_LIMIT
      ensures F.TypeOf(pool.disk[p]).None? ==> F.Release(File(), p) == Err(F.BadPageType)
    {
    }
  }
}
