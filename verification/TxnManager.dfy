/** Transactions over the buffer pool and the file: copy on write, commit and rollback. */
module TxnManager {
  import opened Wrappers
  import opened ByteCodec
  import opened TxnOverlay
  import R = TxnRuns
  import P = BufferPool
  import F = FileManager
  import W = PoolFile
  import opened RowIds

  datatype TxnError = NotFound | NoActive | SeveralActive

  datatype RollbackError = BadTxn(txn: TxnError) | BadFree(file: F.FileError)

  datatype Request = BeginTxn | WriteTo(txn: TxnId, page: PageId, data: Bytes) | CommitTo(id: Option<TxnId>)
                   | RollbackOf(id: Option<TxnId>)

  /** The step that a request takes when it is not refused. */
  predicate Takes(q: Request, step: R.Step) {
    match q
    case BeginTxn => step.Begin?
    case WriteTo(t, p, data) => step == R.Write(t, p, data)
    case CommitTo(id) => step.Commit? && (id.Some? ==> step.t == id.value)
    case RollbackOf(id) => step.Rollback? && (id.Some? ==> step.t == id.value)
  }

  /** The state after a request. */
  function After(s: R.TxnState, step: Option<R.Step>): R.TxnState {
    if step.Some? then R.Next(s, step.value) else s
  }

  /** The steps of the requests not refused. */
  function Taken(replies: seq<Option<R.Step>>): (steps: seq<R.Step>)
    ensures |steps| <= |replies|
  {
    if replies == [] then []
    else
      var k := |replies| - 1;
      Taken(replies[..k]) + if replies[k].Some? then [replies[k].value] else []
  }

  lemma TakenNext(s: R.TxnState, replies: seq<Option<R.Step>>, r: Option<R.Step>)
    requires R.AllEnabled(s, Taken(replies))
    requires r.Some? ==> R.Enabled(R.Execute(s, Taken(replies)), r.value)
    ensures R.AllEnabled(s, Taken(replies + [r]))
    ensures R.Execute(s, Taken(replies + [r])) == After(R.Execute(s, Taken(replies)), r)
  {
    hide R.AllEnabled, R.Enabled, R.Next, R.Execute;
    var steps := Taken(replies);
    assert (replies + [r])[..|replies|] == replies;
    if r.Some? {
      R.ExecuteSnoc(s, steps, r.value);
      R.AllEnabledSnoc(s, steps, r.value);
    } else {
      assert steps + [] == steps;
    }
  }

  /** The fifth byte of a page that can be freed: never written, or one of three page types. */
  ghost predicate KnownType(disk: P.Disk, p: PageId) {
    p in disk && |disk[p]| == PAGE_SIZE && disk[p][4] <= 3
  }

  /** Among the requests replied to, the writes of transactions active at the time were made, and no others. */
  ghost predicate WritesMade(s: R.TxnState, qs: seq<Request>, replies: seq<Option<R.Step>>)
    requires |replies| <= |qs|
  {
    forall i :: 0 <= i < |replies| && qs[i].WriteTo? ==>
      (replies[i].Some? <==> qs[i].txn in R.Execute(s, Taken(replies[..i])).writes)
  }

  lemma WritesMadeNext(s: R.TxnState, qs: seq<Request>, replies: seq<Option<R.Step>>, r: Option<R.Step>)
    requires |replies| < |qs| && WritesMade(s, qs, replies)
    requires var q := qs[|replies|]; q.WriteTo? ==> (r.Some? <==> q.txn in R.Execute(s, Taken(replies)).writes)
    ensures WritesMade(s, qs, replies + [r])
  {
    hide R.Execute, Taken;
    assert forall i :: 0 <= i < |replies| ==> (replies + [r])[..i] == replies[..i];
    assert (replies + [r])[..|replies|] == replies;
  }

  /** All pages have a header that parses. */
  ghost predicate AllParse(s: R.TxnState) {
    P.AllParse(s.stored) && forall t :: t in s.writes ==> P.AllParse(s.writes[t])
  }

  ghost predicate DataParse(qs: seq<Request>) {
    forall q :: q in qs && q.WriteTo? ==> P.Parses(q.data)
  }

  lemma ParsingAfter(s: R.TxnState, q: Request, step: Option<R.Step>)
    requires AllParse(s) && (q.WriteTo? ==> P.Parses(q.data)) && (step.Some? ==> Takes(q, step.value))
    ensures AllParse(After(s, step))
  {
    hide P.Parses;
  }

  class TransactionManager {
    const file: W.PagedFile
    var active: map<TxnId, Shadows>
    var counter: int
    /** The pages that belong to tables, indexes and the catalog. */
    ghost const base: set<PageId>

    ghost function View(): Pages
      reads file.pool
    {
      file.pool.View()
    }

    /** All that the transactions rely on but for the free list. */
    ghost predicate Intact()
      reads this, file, file.pool
    {
      && Sound(View(), base, active) && InUse(base, active, file.used)
      && forall t :: t in active ==> t <= counter
    }

    ghost predicate Valid()
      reads this, file, file.pool
    {
      file.Valid() && Intact()
    }

    /** What transaction t reads. */
    ghost function Seen(t: TxnId): Pages
      requires Intact() && t in active
      reads this, file, file.pool
    {
      Overlay(View(), active[t], base)
    }

    /** The base pages. */
    ghost function Stored(): Pages
      requires Intact()
      reads this, file, file.pool
    {
      Base(View(), base)
    }

    /** The page that t reads for p. */
    function Own(t: TxnId, p: PageId): PageId
      requires t in active
      reads this
    {
      if p in active[t] then active[t][p] else p
    }

    ghost predicate CanRead(t: TxnId, p: PageId)
      reads this, file.pool
    {
      t in active && file.pool.Readable(Own(t, p))
    }

    /** The state of TxnRuns that this is. */
    ghost function State(): R.TxnState
      requires Intact()
      reads this, file, file.pool
    {
      R.StateOf(View(), base, active)
    }

    constructor (file: W.PagedFile, ghost base: set<PageId>)
      requires file.Valid() && base <= file.used && forall p :: p in base ==> p in file.pool.View()
      ensures Valid() && this.file == file && this.base == base && active == map[]
    {
      this.file, this.base, active, counter := file, base, map[], 0;
    }

    /** A new transaction sees the base pages. */
    method Begin() returns (t: TxnId)
      requires Valid()
      modifies this
      ensures Valid() && t !in old(active) && active == old(active)[t := map[]] && counter == old(counter) + 1
      ensures Seen(t) == Stored() == old(Stored())
      ensures forall u :: u in old(active) ==> Seen(u) == old(Seen(u))
      ensures State() == R.Next(old(State()), R.Begin(t))
    {
      hide Sound, Overlay, Base, P.BufferPool.View, W.PagedFile.Valid, R.StateOf;
      counter := counter + 1;
      t := counter;
      NoShadows(View(), base, active, t);
      R.BeginStep(View(), base, active, t);
      active := active[t := map[]];
    }

    /** The transaction meant: the one named, or the only one active. */
    method ResolveTxn(id: Option<TxnId>) returns (r: Result<TxnId, TxnError>)
      ensures r.Ok? ==> r.value in active && (id.Some? ==> r.value == id.value) && (id.None? ==> |active| == 1)
      ensures r.Err? <==> if id.Some? then id.value !in active else |active| != 1
      ensures r.Err? ==> r.error == if id.Some? then NotFound else if active == map[] then NoActive else SeveralActive
    {
      if id.Some? {
        return if id.value in active then Ok(id.value) else Err(NotFound);
      }
      if |active| == 1 {
        assert active.Keys != {} && |active.Keys| == 1;
        var t := Pick(active.Keys);
        return Ok(t);
      }
      return Err(if active == map[] then NoActive else SeveralActive);
    }

    /** The transaction's own version of the page if it has one, or else the base page. */
    method GetPage(t: TxnId, p: PageId) returns (r: Result<Bytes, P.PoolError>)
      requires Valid() && t in active && p in base
      modifies file.pool
      ensures Valid() && View() == old(View())
      ensures r.Ok? ==> r.value == Seen(t)[p] && Own(t, p) in file.pool.cache
      ensures r.Ok? <==> old(file.pool.Readable(Own(t, p)))
      ensures r.Err? ==>
        match r.error
        case PageOutOfRange => false
        case BadPageType => Own(t, p) in old(file.pool.disk) && W.Link(old(file.pool.disk)[Own(t, p)]).None?
        case AllPinned => |old(file.pool.cache.Keys) * file.pool.pinned| >= file.pool.capacity
      ensures file.pool.pinned == old(file.pool.pinned)
    {
      hide Apart, P.BufferPool.View, P.BufferPool.Readable, W.PagedFile.Valid;
      OnDisk(t, p);
      if p in active[t] {
        assert ShadowOK(View(), base, active[t], p);
        r := file.GetPage(active[t][p]);
      } else {
        r := file.GetPage(p);
      }
    }

    lemma OnDisk(t: TxnId, p: PageId)
      requires Valid() && t in active && p in base
      ensures p in file.pool.disk && Own(t, p) in View() && Own(t, p) in file.pool.disk
      ensures |file.pool.disk[Own(t, p)]| == PAGE_SIZE
    {
      if p in active[t] {
        assert ShadowOK(View(), base, active[t], p);
      }
    }

    /** The shadow page, allocated on the first write and filled with a copy of the page. */
    method EnsureShadow(t: TxnId, p: PageId) returns (r: Result<PageId, P.PoolError>)
      requires Valid() && t in active && p in base && file.pageCount < U32_LIMIT
      requires p in active[t] ==> active[t][p] in file.pool.cache
      modifies this`active, file, file.pool
      ensures Valid() && active.Keys == old(active.Keys) && file.pageCount <= old(file.pageCount) + 1
      ensures Stored() == old(Stored()) && forall u :: u in active ==> Seen(u) == old(Seen(u))
      ensures r.Ok? ==> p in active[t] && active[t][p] == r.value && r.value in file.pool.cache
      ensures r.Ok? ==> active[t].Keys == old(active[t].Keys) + {p}
      ensures forall u :: u in active && u != t ==> active[u] == old(active[u])
      ensures r.Err? ==> active == old(active)
      ensures r.Ok? <==> p in old(active)[t] || old(file.pool.Readable(p))
      ensures file.pool.pinned == old(file.pool.pinned)
    {
      hide Sound, Overlay, Base, InUse, Unused, P.BufferPool.View, P.BufferPool.Readable, W.PagedFile.Valid;
      if p in active[t] {
        return Ok(active[t][p]);
      }
      var shadow := NewShadow(p);
      PresentBase(p);
      var data := file.GetPage(p);
      if data.Err? {
        return Err(data.error);
      }
      CopyToShadow(t, p, shadow, data.value);
      return Ok(shadow);
    }

    /** A page that is nobody's; whether page p can be read does not change. */
    method NewShadow(p: PageId) returns (shadow: PageId)
      requires Valid() && p in base && file.pageCount < U32_LIMIT
      modifies file, file.pool`disk, file.pool`stale
      ensures Valid() && shadow in file.used && Unused(base, active, shadow)
      ensures file.pageCount <= old(file.pageCount) + 1
      ensures Stored() == old(Stored()) && forall u :: u in active ==> Seen(u) == old(Seen(u))
      ensures file.pool.Readable(p) <==> old(file.pool.Readable(p))
    {
      hide Sound, Overlay, Base, InUse, Unused, P.BufferPool.View, W.PagedFile.Valid;
      ghost var pages := View();
      PresentBase(p);
      shadow := file.AllocPage();
      MorePages(pages, View(), base, active);
      MoreInUse(base, active, old(file.used), shadow);
    }

    lemma PresentBase(p: PageId)
      requires Sound(View(), base, active) && p in base
      ensures p in View() && p in file.pool.disk
    {
    }

    /** Makes a page that is nobody's the shadow page, holding a copy of the base page. */
    method CopyToShadow(t: TxnId, p: PageId, shadow: PageId, data: Bytes)
      requires Valid() && t in active && p in base && p !in active[t]
      requires shadow in file.used && Unused(base, active, shadow)
      requires p in View() && data == View()[p]
      modifies this`active, file.pool
      ensures Valid() && active == old(active)[t := old(active)[t][p := shadow]] && shadow in file.pool.cache
      ensures Stored() == old(Stored()) && forall u :: u in active ==> Seen(u) == old(Seen(u))
      ensures file.pool.pinned == old(file.pool.pinned)
    {
      hide ShadowOK, Apart, Sound, Unused, W.PagedFile.Valid;
      ShadowAdded(View(), base, active, t, p, shadow);
      PageSize(p);
      file.Adopt(shadow, data);
      active := active[t := active[t][p := shadow]];
    }

    lemma PageSize(p: PageId)
      requires file.Valid() && p in View()
      ensures |View()[p]| == PAGE_SIZE
    {
    }

    /** Reads the page and then writes it, as the tables do: the transaction sees the new bytes,
        and nobody else sees anything. */
    method WritePage(t: TxnId, p: PageId, data: Bytes) returns (r: Result<(), P.PoolError>)
      requires Valid() && t in active && p in base && |data| == PAGE_SIZE && file.pageCount < U32_LIMIT
      modifies this`active, file, file.pool
      ensures Valid() && active.Keys == old(active.Keys) && file.pageCount <= old(file.pageCount) + 1
      ensures Stored() == old(Stored())
      ensures Seen(t) == if r.Ok? then old(Seen(t))[p := data] else old(Seen(t))
      ensures forall u :: u in active && u != t ==> Seen(u) == old(Seen(u))
      ensures State() == if r.Ok? then R.Next(old(State()), R.Write(t, p, data)) else old(State())
      ensures r.Ok? <==> old(file.pool.Readable(Own(t, p)))
      ensures file.pool.pinned == old(file.pool.pinned)
    {
      hide ShadowOK, Apart, Sound, Overlay, Base, P.BufferPool.View, W.PagedFile.Valid, R.StateOf, R.Next;
      hide P.BufferPool.Readable;
      ghost var pages, shadows := View(), active;
      var read := GetPage(t, p);
      if read.Err? {
        return Err(read.error);
      }
      CachedReadable(Own(t, p));
      var shadow := EnsureShadow(t, p);
      assert shadow.Ok?;
      ShadowWritten(View(), base, active, t, p, data);
      file.SetPageData(shadow.value, data);
      R.AllReadable(pages, base, shadows);
      R.AllReadable(View(), base, active);
      R.WriteStep(pages, base, shadows, View(), active, t, p, data);
      return Ok(());
    }

    lemma CachedReadable(p: PageId)
      requires p in file.pool.cache
      ensures file.pool.Readable(p)
    {
    }

    /** Makes what the transaction sees the base. The others keep their own pages; elsewhere they
        see the new base. */
    method CommitTxn(t: TxnId)
      requires Valid() && t in active
      modifies this`active, file.pool
      ensures Valid() && active == old(active) - {t}
      ensures Stored() == old(Seen(t)) && file.pool.disk == View() && file.pool.pinned == old(file.pool.pinned)
      ensures forall u :: u in active ==>
                Seen(u) == old(Rebased(View(), active[u], active[t], base))
      ensures State() == R.Next(old(State()), R.Commit(t))
    {
      hide ShadowOK, Apart, Sound, Overlay, Base, Rebased, Copied, P.BufferPool.View, W.PagedFile.Valid, R.StateOf;
      hide R.Next, R.Readable;
      ghost var pages, shadows := View(), active;
      CopiedMeaning(pages, base, active, t);
      ShadowsUsed(t);
      file.Install(active[t]);
      MorePages(Copied(pages, active[t], active[t].Keys), View(), base, active - {t});
      active := active - {t};
      R.AllReadable(pages, base, shadows);
      R.AllReadable(View(), base, active);
      R.CommitStep(pages, base, shadows, View(), t);
    }

    lemma ShadowsUsed(t: TxnId)
      requires Intact() && t in active
      ensures forall p :: p in active[t] ==> p in file.used && active[t][p] in file.used && active[t][p] in View()
    {
      forall p | p in active[t]
        ensures p in file.used && active[t][p] in file.used && active[t][p] in View()
      {
        assert ShadowOK(View(), base, active[t], p);
      }
    }

    method Commit(id: Option<TxnId>) returns (r: Result<TxnId, TxnError>)
      requires Valid()
      modifies this`active, file.pool
      ensures r.Err? <==> if id.Some? then id.value !in old(active) else |old(active)| != 1
      ensures Valid() && active == if r.Ok? then old(active) - {r.value} else old(active)
      ensures r.Ok? ==> (id.Some? ==> r.value == id.value) && r.value in old(active) && Stored() == old(Seen(r.value))
      ensures State() == if r.Ok? then R.Next(old(State()), R.Commit(r.value)) else old(State())
      ensures file.pool.pinned == old(file.pool.pinned)
    {
      hide ShadowOK, Apart, Sound, Overlay, Base, P.BufferPool.View, W.PagedFile.Valid, R.StateOf, R.Next;
      r := ResolveTxn(id);
      if r.Ok? {
        CommitTxn(r.value);
      }
    }

    /** Gives all shadow pages back, stopping at one of unknown type. */
    method FreeShadows(shadows: Shadows) returns (r: Result<(), F.FileError>)
      requires file.Listed() && forall p :: p in shadows ==> shadows[p] in file.used
      requires forall p, q :: p in shadows && q in shadows && p != q ==> shadows[p] != shadows[q]
      modifies file, file.pool`disk, file.pool`stale
      ensures file.Listed() && file.pageCount == old(file.pageCount) && file.pool.disk.Keys == old(file.pool.disk.Keys)
      ensures old(file.used) - ShadowIds(shadows) <= file.used
      ensures forall p :: p in old(View()) && p !in ShadowIds(shadows) ==> p in View() && View()[p] == old(View())[p]
      ensures forall p :: p in file.pool.disk && p !in ShadowIds(shadows) ==>
                file.pool.disk[p] == old(file.pool.disk)[p]
      ensures r.Ok? ==> forall p :: p in file.free <==> p in old(file.free) || p in ShadowIds(shadows)
      ensures r.Ok? <==> forall p :: p in shadows ==> KnownType(old(file.pool.disk), shadows[p])
    {
      hide Sound, Overlay, Base, KnownType, P.BufferPool.View, W.PagedFile.Valid, W.PagedFile.Listed;
      var rest := shadows.Keys;
      r := Ok(());
      while rest != {} && r.Ok?
        invariant file.Listed() && rest <= shadows.Keys && file.pageCount == old(file.pageCount)
        invariant old(file.used) - ShadowIds(shadows) <= file.used && file.pool.disk.Keys == old(file.pool.disk.Keys)
        invariant forall p :: p in rest ==>
                    (KnownType(file.pool.disk, shadows[p]) <==> KnownType(old(file.pool.disk), shadows[p]))
        invariant r.Ok? ==> forall p :: p in shadows && p !in rest ==> KnownType(old(file.pool.disk), shadows[p])
        invariant r.Err? ==> exists p :: p in shadows && !KnownType(old(file.pool.disk), shadows[p])
        invariant forall p :: p in rest ==> shadows[p] in file.used
        invariant forall p :: p in old(View()) && p !in ShadowIds(shadows) ==>
                    p in View() && View()[p] == old(View())[p]
        invariant forall p :: p in file.pool.disk && p !in ShadowIds(shadows) ==>
                    file.pool.disk[p] == old(file.pool.disk)[p]
        invariant r.Ok? ==> forall p :: p in file.free <==>
                              p in old(file.free) || exists q :: q in shadows && q !in rest && shadows[q] == p
        decreases rest
      {
        var p := Pick(rest);
        assert shadows[p] in ShadowIds(shadows);
        Freeable(shadows[p]);
        ghost var disk := file.pool.disk;
        r := file.FreePage(shadows[p]);
        SameTypes(disk, file.pool.disk, shadows[p]);
        rest := rest - {p};
      }
    }

    lemma SameTypes(disk: P.Disk, disk': P.Disk, p: PageId)
      requires disk'.Keys == disk.Keys && forall q :: q in disk && q != p ==> disk'[q] == disk[q]
      ensures forall q :: q != p ==> (KnownType(disk', q) <==> KnownType(disk, q))
    {
    }

    lemma Freeable(p: PageId)
      requires file.Listed() && p in file.used
      ensures F.Release(file.File(), p).Ok? <==> KnownType(file.pool.disk, p)
    {
      file.Numbered(p);
    }

    /** Drops the transaction and its shadow pages: the base and what every other transaction sees
        stay as they were. All is well afterwards, and further requests can be served, exactly if no
        page freed has a dirty cached copy that links elsewhere than the page on disk. */
    method Rollback(id: Option<TxnId>) returns (r: Result<TxnId, RollbackError>)
      requires Valid()
      modifies this`active, file, file.pool`disk, file.pool`stale
      ensures r.Err? && r.error.BadTxn? <==> if id.Some? then id.value !in old(active) else |old(active)| != 1
      ensures r.Err? ==> active == old(active)
      ensures r.Err? && r.error.BadFree? ==>
                exists t, p :: t in active && (id.Some? ==> t == id.value) && p in active[t]
                               && !KnownType(old(file.pool.disk), active[t][p])
      ensures r.Err? && r.error.BadTxn? ==> Valid() && State() == old(State())
      ensures r.Ok? ==> r.value in old(active) && (id.Some? ==> r.value == id.value)
      ensures r.Ok? ==> active == old(active) - {r.value}
      ensures r.Ok? ==> forall s :: s in ShadowIds(old(active)[r.value]) ==> KnownType(old(file.pool.disk), s)
      ensures BaseIs(old(Stored())) && file.Listed() && file.pageCount == old(file.pageCount)
      ensures r.Ok? ==>
                && Intact() && Stored() == old(Stored())
                && (forall u :: u in active ==> Seen(u) == old(Seen(u)))
                && State() == R.Next(old(State()), R.Rollback(r.value))
      ensures r.Ok? ==> (Valid() <==> forall s :: s in ShadowIds(old(active)[r.value]) ==>
                           W.Settled(file.pool.disk, file.pool.cache, s))
    {
      hide Sound, Overlay, Base, ShadowOK, Apart, P.BufferPool.View, R.StateOf, R.Next;
      hide W.PagedFile.Listed, W.Quiet, W.Settled, InUse, Unused;
      var found := ResolveTxn(id);
      if found.Err? {
        BaseShown();
        return Err(BadTxn(found.error));
      }
      var t := found.value;
      ghost var pages, disk, free, used := View(), file.pool.disk, file.free, file.used;
      ShadowsUsed(t);
      ShadowsApart(t);
      FreeInside();
      var done := FreeShadows(active[t]);
      UnusedPages(pages, View(), base, active, t);
      InUseWithout(pages, base, active, t, used, file.used);
      BaseAt(pages, View(), base, active, t);
      if done.Err? {
        return Err(BadFree(done.error));
      }
      W.MoreFree(disk, file.pool.disk, file.pool.cache, free, file.free, ShadowIds(active[t]));
      R.AllReadable(pages, base, active);
      R.AllReadable(View(), base, active - {t});
      R.RollbackStep(pages, base, active, View(), t);
      active := active - {t};
      return Ok(t);
    }

    /** Each base page is there and reads so. */
    ghost predicate BaseIs(pages: Pages)
      reads file.pool
    {
      forall p :: p in base ==> p in View() && p in pages && View()[p] == pages[p]
    }

    /** One request. It is unclean if it rolls back and leaves the free list at the mercy of later
        flushes, or stops at a shadow page of unknown type. */
    method Serve(q: Request) returns (step: Option<R.Step>, clean: bool)
      requires Valid() && file.pageCount < U32_LIMIT
      requires q.WriteTo? ==> q.page in base && |q.data| == PAGE_SIZE
      modifies this, file, file.pool
      ensures file.pageCount <= old(file.pageCount) + 1
      ensures step.Some? ==> Takes(q, step.value) && R.Enabled(old(State()), step.value)
      ensures clean ==> Valid() && State() == After(old(State()), step)
      ensures clean && (q.CommitTo? || q.RollbackOf?) ==>
                (step.None? <==> if q.id.Some? then q.id.value !in old(active) else |old(active)| != 1)
      ensures q.BeginTxn? ==> step.Some?
      ensures q.WriteTo? ==> (step.Some? <==> old(CanRead(q.txn, q.page)))
      ensures file.pool.pinned == old(file.pool.pinned)
      ensures !clean && step.None? ==>
                exists t, p :: t in old(active) && p in old(active)[t]
                               && !KnownType(old(file.pool.disk), old(active)[t][p])
      ensures !clean ==> q.RollbackOf? && (step.Some? ==> !Valid())
      ensures BaseIs(After(old(State()), step).stored)
    {
      hide Sound, Overlay, Base, ShadowOK, Apart, P.BufferPool.View, R.StateOf, W.PagedFile.Valid, R.Next;
      hide KnownType, P.BufferPool.Readable, InUse, Unused, W.Settled;
      Enabling();
      clean := true;
      match q {
      case BeginTxn =>
        var t := Begin();
        step := Some(R.Begin(t));
      case WriteTo(t, p, data) =>
        step := None;
        if t in active {
          var done := WritePage(t, p, data);
          step := if done.Ok? then Some(R.Write(t, p, data)) else None;
        }
      case CommitTo(id) =>
        var done := Commit(id);
        step := if done.Ok? then Some(R.Commit(done.value)) else None;
      case RollbackOf(id) =>
        step, clean := ServeRollback(id);
      }
      if clean {
        Enabling();
        BaseShown();
      }
    }

    method ServeRollback(id: Option<TxnId>) returns (step: Option<R.Step>, clean: bool)
      requires Valid()
      modifies this`active, file, file.pool`disk, file.pool`stale
      ensures file.pageCount == old(file.pageCount)
      ensures step.Some? ==> Takes(RollbackOf(id), step.value) && R.Enabled(old(State()), step.value)
      ensures clean ==> Valid() && State() == After(old(State()), step)
      ensures clean ==> (step.None? <==> if id.Some? then id.value !in old(active) else |old(active)| != 1)
      ensures !clean && step.None? ==>
                exists t, p :: t in old(active) && p in old(active)[t]
                               && !KnownType(old(file.pool.disk), old(active)[t][p])
      ensures !clean && step.Some? ==> !Valid()
      ensures BaseIs(After(old(State()), step).stored)
    {
      hide Sound, Overlay, Base, ShadowOK, Apart, P.BufferPool.View, R.StateOf, W.PagedFile.Valid, R.Next;
      hide KnownType;
      Enabling();
      var shadows := active;
      var done := Rollback(id);
      step := if done.Ok? then Some(R.Rollback(done.value)) else None;
      clean := if done.Err? then done.error.BadTxn?
               else forall s :: s in ShadowIds(shadows[done.value]) ==> W.Settled(file.pool.disk, file.pool.cache, s);
      RollbackStored(old(State()), if done.Ok? then done.value else 0);
    }

    lemma RollbackStored(s: R.TxnState, t: TxnId)
      ensures R.Next(s, R.Rollback(t)).stored == s.stored
    {
    }

    /** While all pages parse and fewer are pinned than the pool holds, every write is possible. */
    lemma Writable(t: TxnId, p: PageId)
      requires Valid() && t in active && p in base
      requires |file.pool.pinned| < file.pool.capacity && AllParse(State())
      ensures CanRead(t, p)
    {
      hide Apart, W.PagedFile.Valid, P.BufferPool.View, P.BufferPool.Readable, P.BufferPool.Valid;
      OnDisk(t, p);
      R.SoundReadable(View(), base, active, t);
      if p in active[t] {
        R.OwnAt(View(), base, active[t]);
        assert State().writes[t][p] == View()[active[t][p]];
      } else {
        assert State().stored[p] == View()[p];
      }
      PoolValid();
      file.ParsingReadable(Own(t, p));
    }

    lemma MayWrite(t: TxnId, p: PageId)
      requires Valid() && p in base && |file.pool.pinned| < file.pool.capacity && AllParse(State())
      ensures CanRead(t, p) <==> t in active
    {
      hide AllParse, W.PagedFile.Valid, Intact, P.BufferPool.Readable;
      if t in active {
        Writable(t, p);
      }
    }

    lemma PoolValid()
      requires file.Valid()
      ensures file.pool.Valid()
    {
    }

    lemma Enabling()
      requires Intact()
      ensures forall t :: t in State().writes <==> t in active
      ensures State().stored == Stored() && forall p :: p in State().stored <==> p in base
      ensures active == map[] ==> State().writes == map[]
    {
      assert active == map[] ==> State().writes.Keys == {};
    }

    /** Any run of requests, up to the first that is unclean: the pages are in the state that the
        steps taken lead to. So the base is what the committed transactions leave when played one
        after the other, and a transaction that does not commit leaves no trace in it. While all
        pages parse and fewer are pinned than the pool holds, no write of an active transaction is
        refused. */
    method ServeAll(qs: seq<Request>) returns (replies: seq<Option<R.Step>>, clean: bool)
      requires Valid() && file.pageCount + |qs| <= U32_LIMIT
      requires forall q :: q in qs && q.WriteTo? ==> q.page in base && |q.data| == PAGE_SIZE
      modifies this, file, file.pool
      ensures |replies| <= |qs| && (clean ==> |replies| == |qs|) && (!clean ==> replies != [])
      ensures forall i :: 0 <= i < |replies| && replies[i].Some? ==> Takes(qs[i], replies[i].value)
      ensures clean ==> Valid() && State() == R.Execute(old(State()), Taken(replies))
      ensures !clean ==> qs[|replies| - 1].RollbackOf?
      ensures BaseIs(R.Execute(old(State()), Taken(replies)).stored)
      ensures old(active) == map[] ==> BaseIs(R.Replay(old(Stored()), Taken(replies)))
      ensures forall t :: t !in old(active) && R.NeverCommits(Taken(replies), t) ==>
                BaseIs(R.Execute(old(State()), R.Erase(Taken(replies), t)).stored)
      ensures |file.pool.pinned| < file.pool.capacity && AllParse(old(State())) && DataParse(qs) ==>
                WritesMade(old(State()), qs, replies)
    {
      hide Sound, Overlay, Base, R.StateOf, W.PagedFile.Valid, R.Next, R.Execute, R.AllEnabled, Taken, BaseIs;
      hide AllParse, Takes, After, KnownType, CanRead, WritesMade, P.Parses;
      ghost var calm := |file.pool.pinned| < file.pool.capacity && AllParse(State()) && DataParse(qs);
      replies, clean := [], true;
      ghost var s := State();
      Enabling();
      BaseShown();
      RunNone(s, qs);
      while |replies| < |qs| && clean
        invariant |replies| <= |qs| && (!clean ==> replies != [] && qs[|replies| - 1].RollbackOf?)
        invariant file.pageCount <= old(file.pageCount) + |replies|
        invariant forall i :: 0 <= i < |replies| && replies[i].Some? ==> Takes(qs[i], replies[i].value)
        invariant clean ==> Valid() && State() == R.Execute(s, Taken(replies))
        invariant R.AllEnabled(s, Taken(replies)) && BaseIs(R.Execute(s, Taken(replies)).stored)
        invariant file.pool.pinned == old(file.pool.pinned) && (calm && clean ==> AllParse(State()))
        invariant calm ==> WritesMade(s, qs, replies)
        decreases |qs| - |replies|
      {
        assert qs[|replies|] in qs;
        ghost var q := qs[|replies|];
        Enabling();
        if calm && q.WriteTo? {
          MayWrite(q.txn, q.page);
        }
        ghost var before := State();
        var step, tidy := Serve(qs[|replies|]);
        if calm {
          ParsingAfter(before, q, step);
          WritesMadeNext(s, qs, replies, step);
        }
        TakenNext(s, replies, step);
        replies, clean := replies + [step], tidy;
      }
      RunMeaning(s, Taken(replies));
    }

    lemma RunNone(s: R.TxnState, qs: seq<Request>)
      ensures R.AllEnabled(s, Taken([])) && R.Execute(s, Taken([])) == s && WritesMade(s, qs, [])
    {
    }

    lemma RunMeaning(s: R.TxnState, steps: seq<R.Step>)
      requires R.AllEnabled(s, steps)
      ensures s.writes == map[] ==> R.Execute(s, steps).stored == R.Replay(s.stored, steps)
      ensures forall t :: t !in s.writes && R.NeverCommits(steps, t) ==>
                R.Execute(s, R.Erase(steps, t)).stored == R.Execute(s, steps).stored
    {
      hide R.Execute, R.AllEnabled, R.Replay, R.NeverCommits;
      if s.writes == map[] {
        assert s == R.TxnState(s.stored, map[]);
        R.Serial(s.stored, steps);
      }
      forall t | t !in s.writes && R.NeverCommits(steps, t)
        ensures R.Execute(s, R.Erase(steps, t)).stored == R.Execute(s, steps).stored
      {
        R.NoTrace(s, steps, t);
      }
    }

    lemma BaseShown()
      requires Intact()
      ensures BaseIs(Stored())
    {
    }

    lemma ShadowsApart(t: TxnId)
      requires Intact() && t in active
      ensures forall p, q :: p in active[t] && q in active[t] && p != q ==> active[t][p] != active[t][q]
    {
      forall p, q | p in active[t] && q in active[t] && p != q
        ensures active[t][p] != active[t][q]
      {
        assert Apart(active, t, p, t, q);
      }
    }

    lemma FreeInside()
      requires file.Listed()
      ensures forall p :: p in file.free ==> p in file.pool.disk && p !in file.used
    {
      F.ListInside(file.File(), file.free);
    }

    lemma BaseAt(pages: Pages, pages': Pages, base: set<PageId>, active: map<TxnId, Shadows>, t: TxnId)
      requires Sound(pages, base, active) && Sound(pages', base, active - {t})
      requires Base(pages, base) == Base(pages', base)
      ensures forall p :: p in base ==> p in pages' && p in Base(pages, base) && pages'[p] == Base(pages, base)[p]
    {
      forall p | p in base
        ensures p in pages' && p in Base(pages, base) && pages'[p] == Base(pages, base)[p]
      {
        assert Base(pages, base)[p] == Base(pages', base)[p];
      }
    }
  }
}
