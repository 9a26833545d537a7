/** Interleaved transactions on one file when the pool evicts nothing: how a transaction rolled back
    reaches the base. */
module TxnStore {
  import opened Wrappers
  import opened ByteCodec
  import opened PageHeader
  import opened RowIds
  import opened TxnOverlay
  import F = FileManager
  import P = BufferPool
  import R = TxnRuns
  import SlottedPage
  import W = PoolFile

  /** The pages on disk, the head of the free list, the cached pages and the shadow pages. */
  datatype Store = Store(disk: P.Disk, count: nat, head: PageId, cache: map<PageId, P.Entry>,
                         active: map<TxnId, Shadows>)

  ghost predicate StoreOK(s: Store) {
    && W.Covers(s.disk, s.count) && W.Fits(s.disk, s.cache) && 0 <= s.head < U32_LIMIT
    && forall t, p :: t in s.active && p in s.active[t] ==> p in s.disk && s.active[t][p] in s.disk
  }

  /** What reads of the pages return, past all shadows. */
  ghost function Shown(s: Store): Pages {
    P.ViewOf(s.disk, s.cache, {})
  }

  // ----- the steps -----

  ghost predicate Readable(s: Store, p: PageId)
    requires StoreOK(s)
  {
    p in s.disk && (p in s.cache || Parse(s.disk[p]).Some?)
  }

  /** A read caches the page. */
  ghost function Fetch(s: Store, p: PageId): (s': Store)
    requires StoreOK(s) && Readable(s, p)
    ensures StoreOK(s')
  {
    if p in s.cache then s else s.(cache := s.cache[p := P.Entry(s.disk[p], false)])
  }

  ghost predicate Allocatable(s: Store)
    requires StoreOK(s)
  {
    if s.head == 0 then s.count < U32_LIMIT else s.head in s.disk && W.Link(s.disk[s.head]).Some?
  }

  /** The head of the free list, or else a new page. */
  ghost function Alloc(s: Store): (r: (Store, PageId))
    requires StoreOK(s) && Allocatable(s)
    ensures StoreOK(r.0) && r.1 in r.0.disk && r.0.cache == s.cache && r.0.active == s.active
    ensures F.DiskOK(W.FileOf(s.disk, s.count, s.head)) ==>
              F.Alloc(W.FileOf(s.disk, s.count, s.head)) == Ok((W.FileOf(r.0.disk, r.0.count, r.0.head), r.1))
  {
    if s.head == 0 then
      W.FileGrow(s.disk, s.count, s.head);
      (s.(disk := s.disk[s.count := Zeros(PAGE_SIZE)], count := s.count + 1), s.count)
    else (s.(head := W.Link(s.disk[s.head]).value), s.head)
  }

  /** The page that transaction t reads for p. */
  function Own(s: Store, t: TxnId, p: PageId): PageId
    requires t in s.active
  {
    if p in s.active[t] then s.active[t][p] else p
  }

  ghost predicate Enabled(s: Store, step: R.Step)
    requires StoreOK(s)
  {
    match step
    case Begin(t) => t !in s.active
    case Write(t, p, data) =>
      && t in s.active && p in s.disk && |data| == PAGE_SIZE && Readable(s, Own(s, t, p))
      && (p in s.active[t] || Allocatable(s))
    case Commit(t) => t in s.active && forall p :: p in s.active[t] ==> s.active[t][p] !in s.active[t]
    case Rollback(t) => t in s.active
  }

  /** A step that cannot be taken changes nothing. */
  ghost function Next(s: Store, step: R.Step): (s': Store)
    requires StoreOK(s)
    ensures StoreOK(s')
  {
    if !Enabled(s, step) then s
    else
      match step
      case Begin(t) => s.(active := s.active[t := map[]])
      case Write(t, p, data) => WriteTo(s, t, p, data)
      case Commit(t) =>
        var shadows := s.active[t];
        CopiedCovers(s, shadows);
        s.(disk := Copied(P.Flushed(s.disk, s.cache), shadows, shadows.Keys), cache := map[], active := s.active - {t})
      case Rollback(t) => FreeAll(s.(active := s.active - {t}), ShadowIds(s.active[t]))
  }

  lemma CopiedCovers(s: Store, shadows: Shadows)
    requires StoreOK(s) && forall p :: p in shadows ==> shadows[p] in s.disk
    ensures W.Covers(Copied(P.Flushed(s.disk, s.cache), shadows, shadows.Keys), s.count)
  {
    var flushed := P.Flushed(s.disk, s.cache);
    forall p | p in flushed
      ensures |flushed[p]| == PAGE_SIZE
    {
    }
    forall p | p in shadows
      ensures |flushed[shadows[p]]| == PAGE_SIZE
    {
      var q := shadows[p];
      assert q in flushed;
    }
  }

  /** Reads the page, makes its shadow page on the first write, and changes the cached copy of that. */
  ghost function WriteTo(s: Store, t: TxnId, p: PageId, data: Bytes): (s': Store)
    requires StoreOK(s) && Enabled(s, R.Write(t, p, data))
    ensures StoreOK(s')
  {
    var read := Fetch(s, Own(s, t, p));
    if p in s.active[t] then read.(cache := read.cache[s.active[t][p] := P.Entry(data, true)])
    else
      var (more, shadow) := Alloc(read);
      more.(disk := more.disk[shadow := P.Served(more.disk, more.cache, p)],
            cache := more.cache[shadow := P.Entry(data, true)],
            active := more.active[t := more.active[t][p := shadow]])
  }

  ghost function Any(ids: set<PageId>): (p: PageId)
    requires ids != {}
    ensures p in ids
  {
    assert exists p :: p in ids by {
      if forall p :: p !in ids {
        assert false;
      }
    }
    var p :| p in ids;
    p
  }

  /** Frees the pages one by one on disk, in some order, up to one of unknown type. */
  ghost function FreeAll(s: Store, ids: set<PageId>): (s': Store)
    requires StoreOK(s) && forall p :: p in ids ==> p in s.disk
    ensures StoreOK(s')
    decreases ids
  {
    if ids == {} then s
    else
      var p := Any(ids);
      match F.TypeOf(s.disk[p])
      case None => s
      case Some(t) =>
        FreeAll(s.(disk := s.disk[p := F.FreeImage(s.disk[p], p, t, s.head)], head := p), ids - {p})
  }

  ghost function Run(s: Store, steps: seq<R.Step>): (s': Store)
    requires StoreOK(s)
    ensures StoreOK(s')
  {
    if steps == [] then s else Next(Run(s, steps[..|steps| - 1]), steps[|steps| - 1])
  }

  // ----- what goes wrong -----

  /** The first write of a page when the list is empty, and when it is not. */
  lemma WriteNew(s: Store, t: TxnId, p: PageId, data: Bytes)
    requires StoreOK(s) && t in s.active && p !in s.active[t] && p in s.disk && p !in s.cache && |data| == PAGE_SIZE
    requires Parse(s.disk[p]).Some? && s.head == 0 && s.count < U32_LIMIT
    ensures Next(s, R.Write(t, p, data))
            == Store(s.disk[s.count := s.disk[p]], s.count + 1, 0,
                     s.cache[p := P.Entry(s.disk[p], false)][s.count := P.Entry(data, true)],
                     s.active[t := s.active[t][p := s.count]])
  {
    assert Enabled(s, R.Write(t, p, data));
    hide Parse, StoreOK;
    assert s.disk[s.count := Zeros(PAGE_SIZE)][s.count := s.disk[p]] == s.disk[s.count := s.disk[p]];
  }

  lemma WriteReused(s: Store, t: TxnId, p: PageId, data: Bytes)
    requires StoreOK(s) && t in s.active && p !in s.active[t] && p in s.disk && p !in s.cache && |data| == PAGE_SIZE
    requires Parse(s.disk[p]).Some? && s.head in s.disk && W.Link(s.disk[s.head]).Some?
    ensures Next(s, R.Write(t, p, data))
            == Store(s.disk[s.head := s.disk[p]], s.count, W.Link(s.disk[s.head]).value,
                     s.cache[p := P.Entry(s.disk[p], false)][s.head := P.Entry(data, true)],
                     s.active[t := s.active[t][p := s.head]])
  {
    assert Enabled(s, R.Write(t, p, data));
    hide Parse;
  }

  lemma BeginNew(s: Store, t: TxnId)
    requires StoreOK(s) && t !in s.active
    ensures Next(s, R.Begin(t)) == s.(active := s.active[t := map[]])
  {
  }

  lemma FreeOne(s: Store, p: PageId, t: PageType)
    requires StoreOK(s) && p in s.disk && F.TypeOf(s.disk[p]) == Some(t)
    ensures FreeAll(s, {p}) == s.(disk := s.disk[p := F.FreeImage(s.disk[p], p, t, s.head)], head := p)
  {
    hide F.TypeOf, F.FreeImage;
    assert {p} - {p} == {};
  }

  /** The first write goes to a new page at the end, which the rollback puts on the list. The bytes
      of the write stay cached, and dirty. */
  lemma AfterRollback(s: Store, p: PageId, x: Bytes)
    requires StoreOK(s) && s.cache == map[] && s.active == map[] && s.head == 0 && s.count < U32_LIMIT
    requires p in s.disk && Parse(s.disk[p]).Some? && |x| == PAGE_SIZE
    ensures var s' := Next(Next(Next(s, R.Begin(1)), R.Write(1, p, x)), R.Rollback(1));
            && s'.count == s.count + 1 && s'.head == s.count && s'.active == map[]
            && s'.cache == map[p := P.Entry(s.disk[p], false), s.count := P.Entry(x, true)]
            && s.count in s'.disk && (forall m :: m in s.disk ==> m in s'.disk && s'.disk[m] == s.disk[m])
            && |s'.disk[s.count]| == PAGE_SIZE && W.Link(s'.disk[s.count]) == Some(0)
  {
    hide Parse, F.FreeImage;
    var s1 := Next(s, R.Begin(1));
    WriteNew(s1, 1, p, x);
    var s2 := Next(s1, R.Write(1, p, x));
    assert ShadowIds(s2.active[1]) == {s.count};
    TypeKnown(s.disk[p]);
    var t := F.TypeOf(s.disk[p]).value;
    FreeOne(s2.(active := s2.active - {1}), s.count, t);
    W.FreedLink(s.disk[p], s.count, t, 0);
  }

  lemma TypeKnown(raw: Bytes)
    requires |raw| == PAGE_SIZE && Parse(raw).Some?
    ensures F.TypeOf(raw).Some?
  {
  }

  /** A commit without writes flushes: what was cached of the page freed is now on disk. */
  lemma AfterCommit(s: Store)
    requires StoreOK(s) && s.active == map[]
    ensures Next(Next(s, R.Begin(2)), R.Commit(2))
            == s.(disk := P.Flushed(s.disk, s.cache), cache := map[], active := map[])
  {
    var flushed := P.Flushed(s.disk, s.cache);
    P.SameMap(Copied(flushed, map[], {}), flushed);
    hide StoreOK;
    var begun := Next(s, R.Begin(2)).active;
    assert (begun - {2}).Keys == {};
  }

  /** With page f at the head and n where f links, two first writes take f and n. */
  lemma AfterWrites(s: Store, f: PageId, n: PageId, q: PageId, y: Bytes, r: PageId, z: Bytes)
    requires StoreOK(s) && s.cache == map[] && s.active == map[] && s.head == f && f in s.disk && n in s.disk
    requires W.Link(s.disk[f]) == Some(n) && W.Link(s.disk[n]).Some? && n != f
    requires q in s.disk && r in s.disk && q != r && q != f && r != f && |y| == |z| == PAGE_SIZE
    requires Parse(s.disk[q]).Some? && Parse(s.disk[r]).Some?
    ensures var s' := Next(Next(Next(s, R.Begin(3)), R.Write(3, q, y)), R.Write(3, r, z));
            && s'.active == map[3 := map[q := f, r := n]]
            && n in s'.cache && s'.cache[n].data == z && n in s'.disk
  {
    hide Parse, W.Link, StoreOK, Next;
    BeginNew(s, 3);
    var s1 := Next(s, R.Begin(3));
    WriteReused(s1, 3, q, y);
    var s2 := Next(s1, R.Write(3, q, y));
    WriteReused(s2, 3, r, z);
  }

  /** The same two writes with an empty list take new pages. */
  lemma AfterCleanWrites(s: Store, n: PageId, q: PageId, y: Bytes, r: PageId, z: Bytes)
    requires StoreOK(s) && s.cache == map[] && s.active == map[] && s.head == 0 && s.count + 2 <= U32_LIMIT
    requires n in s.disk && q in s.disk && r in s.disk && q != r && |y| == |z| == PAGE_SIZE
    requires Parse(s.disk[q]).Some? && Parse(s.disk[r]).Some?
    ensures var s' := Next(Next(Next(s, R.Begin(3)), R.Write(3, q, y)), R.Write(3, r, z));
            n in s'.disk && P.Served(s'.disk, s'.cache, n) == s.disk[n]
  {
    hide Parse, W.Link, StoreOK, Next;
    Inside(s);
    BeginNew(s, 3);
    var s1 := Next(s, R.Begin(3));
    WriteNew(s1, 3, q, y);
    var s2 := Next(s1, R.Write(3, q, y));
    WriteNew(s2, 3, r, z);
  }

  // ----- the run -----

  /** Transaction 1 writes page p and is rolled back, */
  function First(p: PageId, x: Bytes): seq<R.Step> {
    [R.Begin(1), R.Write(1, p, x), R.Rollback(1)]
  }

  /** transaction 2 commits, */
  function Second(): seq<R.Step> {
    [R.Begin(2), R.Commit(2)]
  }

  /** and transaction 3 writes pages q and r. */
  function Third(q: PageId, y: Bytes, r: PageId, z: Bytes): seq<R.Step> {
    [R.Begin(3), R.Write(3, q, y), R.Write(3, r, z)]
  }

  lemma RunSnoc(s: Store, steps: seq<R.Step>, step: R.Step)
    requires StoreOK(s)
    ensures Run(s, steps + [step]) == Next(Run(s, steps), step)
  {
    hide StoreOK, Next;
    assert (steps + [step])[..|steps|] == steps;
  }

  lemma {:induction false} RunCat(s: Store, a: seq<R.Step>, b: seq<R.Step>)
    requires StoreOK(s)
    ensures Run(s, a + b) == Run(Run(s, a), b)
  {
    hide StoreOK, Next;
    if b == [] {
      assert a + b == a;
    } else {
      var k := |b| - 1;
      assert (a + b)[..|a| + k] == a + b[..k];
      RunCat(s, a, b[..k]);
    }
  }

  lemma RunTwo(s: Store, a: R.Step, b: R.Step)
    requires StoreOK(s)
    ensures Run(s, [a, b]) == Next(Next(s, a), b)
  {
    hide StoreOK, Next;
    RunSnoc(s, [], a);
    RunSnoc(s, [a], b);
    assert [] + [a] == [a] && [a] + [b] == [a, b];
  }

  lemma RunThree(s: Store, a: R.Step, b: R.Step, c: R.Step)
    requires StoreOK(s)
    ensures Run(s, [a, b, c]) == Next(Next(Next(s, a), b), c)
  {
    hide StoreOK, Next, Run;
    RunTwo(s, a, b);
    RunSnoc(s, [a, b], c);
    assert [a, b] + [c] == [a, b, c];
  }

  /** The bytes written by transaction 1 link to base page n. After the run, page n reads as what
      transaction 3 wrote to page r: its shadow page is the base page itself. */
  lemma RollbackReachesBase(s: Store, p: PageId, x: Bytes, n: PageId, q: PageId, y: Bytes, r: PageId, z: Bytes)
    requires StoreOK(s) && s.cache == map[] && s.active == map[] && s.head == 0 && s.count + 2 <= U32_LIMIT
    requires p in s.disk && n in s.disk && q in s.disk && r in s.disk && q != r
    requires Parse(s.disk[p]).Some? && Parse(s.disk[n]).Some? && Parse(s.disk[q]).Some? && Parse(s.disk[r]).Some?
    requires |x| == |y| == |z| == PAGE_SIZE && W.Link(x) == Some(n)
    ensures var s' := Run(s, First(p, x) + Second() + Third(q, y, r, z));
            3 in s'.active && r in s'.active[3] && s'.active[3][r] == n && n in Shown(s') && Shown(s')[n] == z
    ensures n in Shown(s) && Shown(s)[n] == s.disk[n]
    ensures var s' := Run(s, Second() + Third(q, y, r, z)); n in Shown(s') && Shown(s')[n] == s.disk[n]
    ensures var s' := Run(s, First(p, x)); !W.Settled(s'.disk, s'.cache, s.count)
  {
    hide Parse, StoreOK, Next, Run;
    RunThree(s, R.Begin(1), R.Write(1, p, x), R.Rollback(1));
    AfterRollback(s, p, x);
    var s1 := Run(s, First(p, x));
    RunTwo(s1, R.Begin(2), R.Commit(2));
    AfterCommit(s1);
    var s2 := Run(s1, Second());
    RunThree(s2, R.Begin(3), R.Write(3, q, y), R.Write(3, r, z));
    Inside(s);
    AfterWrites(s2, s.count, n, q, y, r, z);
    RunCat(s, First(p, x), Second());
    RunCat(s, First(p, x) + Second(), Third(q, y, r, z));
    RunTwo(s, R.Begin(2), R.Commit(2));
    AfterCommit(s);
    P.SameMap(P.Flushed(s.disk, map[]), s.disk);
    RunThree(s, R.Begin(3), R.Write(3, q, y), R.Write(3, r, z));
    AfterCleanWrites(s, n, q, y, r, z);
    RunCat(s, Second(), Third(q, y, r, z));
  }

  lemma Inside(s: Store)
    requires StoreOK(s)
    ensures s.count !in s.disk && s.count + 1 !in s.disk && 0 !in s.disk
  {
  }

  /** So the base is not what the committed transactions leave, and a transaction that does not commit
      has left a trace in it. */
  lemma NeitherSerialNorTraceless(s: Store, p: PageId, x: Bytes, n: PageId, q: PageId, y: Bytes, r: PageId, z: Bytes)
    requires StoreOK(s) && s.cache == map[] && s.active == map[] && s.head == 0 && s.count + 2 <= U32_LIMIT
    requires p in s.disk && n in s.disk && q in s.disk && r in s.disk && q != r
    requires Parse(s.disk[p]).Some? && Parse(s.disk[n]).Some? && Parse(s.disk[q]).Some? && Parse(s.disk[r]).Some?
    requires |x| == |y| == |z| == PAGE_SIZE && W.Link(x) == Some(n) && z != s.disk[n]
    ensures var steps := First(p, x) + Second() + Third(q, y, r, z);
            && n in Shown(Run(s, steps)) && n in R.Replay(Shown(s), steps) && n in Shown(Run(s, R.Erase(steps, 1)))
            && R.NeverCommits(steps, 1)
            && Shown(Run(s, steps))[n] != R.Replay(Shown(s), steps)[n]
            && Shown(Run(s, steps))[n] != Shown(Run(s, R.Erase(steps, 1)))[n]
  {
    hide Parse, StoreOK, Run, Shown, First, Second, Third, R.Replay, R.Erase, R.NeverCommits;
    RollbackReachesBase(s, p, x, n, q, y, r, z);
    OnlyOthersCommit(Shown(s), p, x, q, y, r, z);
  }

  lemma OnlyOthersCommit(stored: Pages, p: PageId, x: Bytes, q: PageId, y: Bytes, r: PageId, z: Bytes)
    ensures var steps := First(p, x) + Second() + Third(q, y, r, z);
            && R.NeverCommits(steps, 1) && R.Replay(stored, steps) == stored
            && R.Erase(steps, 1) == Second() + Third(q, y, r, z)
  {
    hide R.Replay, R.Erase;
    R.ReplayNone(stored, First(p, x) + Second() + Third(q, y, r, z));
    R.EraseCat(First(p, x) + Second(), Third(q, y, r, z), 1);
    R.EraseCat(First(p, x), Second(), 1);
    R.EraseAll(First(p, x), 1);
    R.EraseAll(Second(), 1);
    R.EraseAll(Third(q, y, r, z), 1);
    assert [] + Second() == Second();
  }

  /** A page of a table, without rows. */
  function EmptyPage(p: PageId, next: PageId): (data: Bytes)
    requires 0 <= p < U32_LIMIT && 0 <= next < U32_LIMIT
    ensures |data| == PAGE_SIZE && Parse(data).Some? && W.Link(data) == Some(next)
    ensures Parse(data).value.pageId == p
  {
    var h := Header(p, DATA, 0, MAX_FREE_SPACE, PAGE_SIZE, next, 0);
    SlottedPage.WithHeaderReads(Zeros(PAGE_SIZE), h);
    SlottedPage.WithHeader(Zeros(PAGE_SIZE), h)
  }

  /** A table of pages 1 and 2, and another of page 3. Page 1 is written as it was and rolled back;
      then page 2 turns into page 3. */
  lemma ConcreteRun()
    ensures var pages := map[1 := EmptyPage(1, 2), 2 := EmptyPage(2, 0), 3 := EmptyPage(3, 0)];
            var s := Store(pages, 4, 0, map[], map[]);
            StoreOK(s)
            && var s' := Run(s, First(1, pages[1]) + Second() + Third(1, pages[1], 3, pages[3]));
               2 in Shown(s') && Shown(s')[2] == pages[3] != pages[2]
  {
    hide Parse, W.Link, Run;
    var pages := map[1 := EmptyPage(1, 2), 2 := EmptyPage(2, 0), 3 := EmptyPage(3, 0)];
    var s := Store(pages, 4, 0, map[], map[]);
    assert W.Covers(pages, 4);
    RollbackReachesBase(s, 1, pages[1], 2, 1, pages[1], 3, pages[3]);
  }
}
