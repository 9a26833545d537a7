/** The page cache: an ordered dictionary in order of use, pins, dirty pages and eviction. */
module BufferPool {
  import opened Wrappers
  import opened ByteCodec
  import opened PageHeader
  import opened RowIds

  datatype PoolError = PageOutOfRange | BadPageType | AllPinned

  datatype Entry = Entry(data: Bytes, dirty: bool)

  type Disk = map<PageId, Bytes>

  // ----- order of use -----

  ghost predicate NoRepeat(order: seq<PageId>) {
    forall i, j :: 0 <= i < j < |order| ==> order[i] != order[j]
  }

  function Index(order: seq<PageId>, p: PageId): (i: nat)
    requires p in order
    ensures i < |order| && order[i] == p
  {
    if order[0] == p then 0 else 1 + Index(order[1..], p)
  }

  function Remove(order: seq<PageId>, p: PageId): seq<PageId> {
    if p in order then order[..Index(order, p)] + order[Index(order, p) + 1..] else order
  }

  lemma RemoveOne(order: seq<PageId>, p: PageId)
    requires NoRepeat(order)
    ensures NoRepeat(Remove(order, p))
    ensures forall q :: q in Remove(order, p) <==> q in order && q != p
  {
    hide Index;
    if p in order {
      var i, rest := Index(order, p), Remove(order, p);
      forall q | q in order && q != p
        ensures q in rest
      {
        var j :| 0 <= j < |order| && order[j] == q;
        assert rest[if j < i then j else j - 1] == q;
      }
    }
  }

  /** Later use, further back. */
  ghost predicate ByUse(order: seq<PageId>, lastUse: map<PageId, nat>) {
    && (forall p :: p in order ==> p in lastUse)
    && forall i, j :: 0 <= i < j < |order| ==> lastUse[order[i]] < lastUse[order[j]]
  }

  lemma RemoveByUse(order: seq<PageId>, lastUse: map<PageId, nat>, p: PageId)
    requires NoRepeat(order) && ByUse(order, lastUse)
    ensures ByUse(Remove(order, p), lastUse)
  {
    hide Index;
  }

  /** The order holds the cached pages by time of use, all of it before now. */
  ghost predicate OrderedBy(order: seq<PageId>, cached: set<PageId>, lastUse: map<PageId, nat>, now: nat) {
    && NoRepeat(order) && ByUse(order, lastUse)
    && (forall p :: p in order <==> p in cached)
    && forall p :: p in order ==> lastUse[p] < now
  }

  /** Using a page moves it to the end. */
  lemma Touched(order: seq<PageId>, cached: set<PageId>, lastUse: map<PageId, nat>, now: nat, p: PageId)
    requires OrderedBy(order, cached, lastUse, now)
    ensures OrderedBy(Remove(order, p) + [p], cached + {p}, lastUse[p := now], now + 1)
    ensures p !in cached ==> Remove(order, p) == order
  {
    RemoveByUse(order, lastUse, p);
    RemoveOne(order, p);
    hide Remove;
    var rest := Remove(order, p);
    forall i | 0 <= i < |rest|
      ensures rest[i] != p && lastUse[rest[i]] < now
    {
      assert rest[i] in rest;
    }
  }

  lemma Dropped(order: seq<PageId>, cached: set<PageId>, lastUse: map<PageId, nat>, now: nat, p: PageId)
    requires OrderedBy(order, cached, lastUse, now)
    ensures OrderedBy(Remove(order, p), cached - {p}, lastUse, now)
  {
    RemoveByUse(order, lastUse, p);
    RemoveOne(order, p);
  }

  /** p was used no later than q. */
  ghost predicate NotLater(lastUse: map<PageId, nat>, p: PageId, q: PageId) {
    p in lastUse && q in lastUse && lastUse[p] <= lastUse[q]
  }

  // ----- requests -----

  /** An update reads the page first, as the callers of set_page_data do. */
  datatype Request = Read(page: PageId) | Update(page: PageId, data: Bytes) | Mark(page: PageId)
                   | PinPage(page: PageId) | UnpinPage(page: PageId) | FlushAll

  type Reply = Result<Bytes, PoolError>

  /** A plain map of pages after the requests, counting the updates that were not refused. */
  function Latest(pages: map<PageId, Bytes>, qs: seq<Request>, replies: seq<Reply>): map<PageId, Bytes>
    requires |qs| == |replies|
  {
    if qs == [] then pages
    else
      var k := |qs| - 1;
      var before := Latest(pages, qs[..k], replies[..k]);
      if qs[k].Update? && replies[k].Ok? then before[qs[k].page := qs[k].data] else before
  }

  lemma LatestNone(pages: map<PageId, Bytes>)
    ensures Latest(pages, [], []) == pages
  {
  }

  lemma LatestNext(pages: map<PageId, Bytes>, qs: seq<Request>, replies: seq<Reply>, q: Request, r: Reply)
    requires |qs| == |replies|
    ensures Latest(pages, qs + [q], replies + [r])
            == if q.Update? && r.Ok? then Latest(pages, qs, replies)[q.page := q.data] else Latest(pages, qs, replies)
  {
    assert (qs + [q])[..|qs|] == qs && (replies + [r])[..|qs|] == replies;
  }

  /** Each read that is not refused returns the bytes last set for its page, or else the bytes the
      disk started with. */
  ghost predicate Transparent(pages: map<PageId, Bytes>, qs: seq<Request>, replies: seq<Reply>)
    requires |qs| == |replies|
  {
    forall i :: 0 <= i < |qs| && qs[i].Read? && replies[i].Ok? ==>
      Shows(Latest(pages, qs[..i], replies[..i]), qs[i].page, replies[i].value)
  }

  ghost predicate Shows(pages: map<PageId, Bytes>, p: PageId, data: Bytes) {
    p in pages && pages[p] == data
  }

  predicate Parses(raw: Bytes) {
    |raw| == PAGE_SIZE && Parse(raw).Some?
  }

  ghost predicate AllParse(pages: map<PageId, Bytes>) {
    forall p :: p in pages ==> Parses(pages[p])
  }

  ghost predicate DataParse(qs: seq<Request>) {
    forall q :: q in qs && q.Update? ==> Parses(q.data)
  }

  ghost predicate NoPins(qs: seq<Request>) {
    forall q :: q in qs ==> !q.PinPage?
  }

  /** The request is for no page, or for one on disk. */
  predicate Existing(q: Request, pages: set<PageId>) {
    match q
    case Read(p) => p in pages
    case Update(p, _) => p in pages
    case PinPage(p) => p in pages
    case _ => true
  }

  lemma TransparentNext(pages: map<PageId, Bytes>, qs: seq<Request>, replies: seq<Reply>, q: Request, r: Reply)
    requires |qs| == |replies| && Transparent(pages, qs, replies)
    requires q.Read? && r.Ok? ==> Shows(Latest(pages, qs, replies), q.page, r.value)
    ensures Transparent(pages, qs + [q], replies + [r])
  {
    var qs', replies' := qs + [q], replies + [r];
    forall i | 0 <= i < |qs'| && qs'[i].Read? && replies'[i].Ok?
      ensures Shows(Latest(pages, qs'[..i], replies'[..i]), qs'[i].page, replies'[i].value)
    {
      assert qs'[..i] == qs[..i] && replies'[..i] == replies[..i];
      if i == |qs| {
        assert qs[..i] == qs && replies[..i] == replies;
      }
    }
  }

  lemma SameMap<K, V>(a: map<K, V>, b: map<K, V>)
    requires a.Keys == b.Keys && forall k :: k in a ==> a[k] == b[k]
    ensures a == b
  {
    assert forall k :: k in a <==> k in b;
  }

  // ----- what the users see -----

  /** A cached page that is neither dirty nor stale agrees with the disk. */
  ghost predicate CoherentIn(disk: Disk, cache: map<PageId, Entry>, stale: set<PageId>) {
    && (forall p :: p in disk ==> |disk[p]| == PAGE_SIZE)
    && forall p :: p in cache ==> p in disk && |cache[p].data| == PAGE_SIZE
                                  && (p in stale || cache[p].dirty || cache[p].data == disk[p])
  }

  /** What a read of the page returns. */
  function Served(disk: Disk, cache: map<PageId, Entry>, p: PageId): Bytes
    requires p in disk
  {
    if p in cache then cache[p].data else disk[p]
  }

  /** The pages as their users see them. What they see of a stale page depends on evictions, so it
      is left out. */
  ghost function ViewOf(disk: Disk, cache: map<PageId, Entry>, stale: set<PageId>): map<PageId, Bytes> {
    map p | p in disk && p !in stale :: Served(disk, cache, p)
  }

  // ----- what goes to disk -----

  /** What evictions may do: dirty pages go to disk, and dirty copies that stay are as they were. */
  ghost predicate Spilled(disk: Disk, cache: map<PageId, Entry>, disk': Disk, cache': map<PageId, Entry>) {
    && disk'.Keys == disk.Keys
    && (forall p :: p in disk ==> disk'[p] == disk[p] || (p in cache && cache[p].dirty && disk'[p] == cache[p].data))
    && forall p :: p in cache' && cache'[p].dirty ==> p in cache && cache'[p] == cache[p]
  }

  /** The disk once every dirty page is written. */
  function Flushed(disk: Disk, cache: map<PageId, Entry>): Disk {
    map p | p in disk :: if p in cache && cache[p].dirty then cache[p].data else disk[p]
  }

  /** The disk once those of the pages named that are dirty are written. */
  ghost function FlushedTo(disk: Disk, cache: map<PageId, Entry>, done: seq<PageId>): Disk {
    map p | p in disk :: if p in done && p in cache && cache[p].dirty then cache[p].data else disk[p]
  }

  lemma FlushedEnds(disk: Disk, cache: map<PageId, Entry>, order: seq<PageId>)
    requires forall p :: p in order <==> p in cache
    ensures FlushedTo(disk, cache, []) == disk && FlushedTo(disk, cache, order[..0]) == disk
    ensures FlushedTo(disk, cache, order) == Flushed(disk, cache)
  {
    SameMap(FlushedTo(disk, cache, []), disk);
    assert order[..0] == [];
    forall p | p in disk
      ensures FlushedTo(disk, cache, order)[p] == Flushed(disk, cache)[p]
    {
      assert p in order <==> p in cache;
    }
    SameMap(FlushedTo(disk, cache, order), Flushed(disk, cache));
  }

  lemma FlushedNext(disk: Disk, cache: map<PageId, Entry>, order: seq<PageId>, i: nat)
    requires i < |order| && order[i] in cache && order[i] in disk
    ensures FlushedTo(disk, cache, order[..i + 1]) == Written(FlushedTo(disk, cache, order[..i]), cache, order[i])
  {
    var a, b := FlushedTo(disk, cache, order[..i + 1]), Written(FlushedTo(disk, cache, order[..i]), cache, order[i]);
    assert order[..i + 1] == order[..i] + [order[i]];
    forall p | p in disk
      ensures p in a && p in b && a[p] == b[p]
    {
      assert p in order[..i + 1] <==> p in order[..i] || p == order[i];
    }
    assert a.Keys == disk.Keys == b.Keys;
    SameMap(a, b);
  }

  /** The disk once page p, if dirty, is written. */
  function Written(disk: Disk, cache: map<PageId, Entry>, p: PageId): Disk
    requires p in cache
  {
    if cache[p].dirty then disk[p := cache[p].data] else disk
  }

  lemma WrittenView(disk: Disk, cache: map<PageId, Entry>, stale: set<PageId>, p: PageId)
    requires CoherentIn(disk, cache, stale) && p in cache
    ensures var disk' := Written(disk, cache, p);
            disk'.Keys == disk.Keys && CoherentIn(disk', cache, stale)
            && ViewOf(disk', cache, stale) == ViewOf(disk, cache, stale)
  {
    SameMap(ViewOf(Written(disk, cache, p), cache, stale), ViewOf(disk, cache, stale));
  }

  lemma DroppedView(disk: Disk, cache: map<PageId, Entry>, stale: set<PageId>, p: PageId)
    requires CoherentIn(disk, cache, stale) && p in cache
    ensures var disk', cache' := Written(disk, cache, p), cache - {p};
            CoherentIn(disk', cache', stale) && Spilled(disk, cache, disk', cache')
            && ViewOf(disk', cache', stale) == ViewOf(disk, cache, stale)
  {
    SameMap(ViewOf(Written(disk, cache, p), cache - {p}, stale), ViewOf(disk, cache, stale));
  }

  lemma AdoptedView(disk: Disk, cache: map<PageId, Entry>, stale: set<PageId>, p: PageId, data: Bytes)
    requires CoherentIn(disk, cache, stale) && |data| == PAGE_SIZE
    ensures var disk', cache' := disk[p := data], cache[p := Entry(data, false)];
            CoherentIn(disk', cache', stale - {p})
            && ViewOf(disk', cache', stale - {p}) == ViewOf(disk, cache, stale)[p := data]
  {
    var cache' := cache[p := Entry(data, false)];
    SameMap(ViewOf(disk[p := data], cache', stale - {p}), ViewOf(disk, cache, stale)[p := data]);
  }

  // ----- the pool -----

  class BufferPool {
    var disk: Disk
    const capacity: int
    var order: seq<PageId>
    var cache: map<PageId, Entry>
    var pinned: set<PageId>
    ghost var lastUse: map<PageId, nat>
    ghost var clock: nat
    /** Cached pages that were changed on disk past the pool. */
    ghost var stale: set<PageId>

    ghost predicate Ordered()
      reads this`order, this`cache, this`lastUse, this`clock
    {
      OrderedBy(order, cache.Keys, lastUse, clock)
    }

    ghost predicate Coherent()
      reads this`disk, this`cache, this`stale
    {
      CoherentIn(disk, cache, stale)
    }

    ghost predicate Valid()
      reads this
    {
      Ordered() && Coherent()
    }

    /** The pages as their users see them. */
    ghost function View(): map<PageId, Bytes>
      reads this`disk, this`cache, this`stale
    {
      ViewOf(disk, cache, stale)
    }

    /** A read of page p succeeds: it is cached; or it is on disk and parses, and fewer cached pages
        are pinned than the pool holds. */
    ghost predicate Readable(p: PageId)
      reads this`disk, this`cache, this`pinned
    {
      p in cache || (p in disk && Parses(disk[p]) && |cache.Keys * pinned| < capacity)
    }

    constructor (disk: Disk, capacity: int)
      requires forall p :: p in disk ==> |disk[p]| == PAGE_SIZE
      ensures Valid() && this.disk == disk && this.capacity == capacity && cache == map[]
      ensures View() == disk && stale == {}
    {
      this.disk, this.capacity, stale := disk, capacity, {};
      order, cache, pinned, lastUse, clock := [], map[], {}, map[], 0;
    }

    /** Makes a cached page the one used last. */
    method Touch(p: PageId)
      requires Valid() && p in cache
      modifies this`order, this`lastUse, this`clock
      ensures Valid() && order == Remove(old(order), p) + [p]
      ensures lastUse == old(lastUse)[p := old(clock)] && clock == old(clock) + 1
    {
      Touched(order, cache.Keys, lastUse, clock, p);
      assert cache.Keys + {p} == cache.Keys;
      hide OrderedBy, Remove;
      order := Remove(order, p) + [p];
      lastUse, clock := lastUse[p := clock], clock + 1;
    }

    /** The page used longest ago among those not pinned. */
    method LeastUsed() returns (victim: Option<PageId>)
      requires Valid()
      ensures Valid() && (victim.None? <==> cache.Keys <= pinned)
      ensures victim.Some? ==>
                && victim.value in cache && victim.value !in pinned
                && forall q :: q in cache && q !in pinned ==> NotLater(lastUse, victim.value, q)
    {
      for i := 0 to |order|
        invariant forall j :: 0 <= j < i ==> order[j] in pinned
      {
        var p := order[i];
        if p !in pinned {
          assert p in order;
          forall q | q in cache && q !in pinned
            ensures NotLater(lastUse, p, q)
          {
            assert q in order;
            var j :| 0 <= j < |order| && order[j] == q;
            assert i <= j;
          }
          return Some(p);
        }
      }
      forall p | p in cache
        ensures p in pinned
      {
        assert p in order;
      }
      return None;
    }

    /** Throws out that page, writing it back when dirty. */
    method EvictOne() returns (victim: Option<PageId>)
      requires Valid()
      modifies this`disk, this`order, this`cache
      ensures Valid() && View() == old(View()) && Spilled(old(disk), old(cache), disk, cache)
      ensures victim.None? <==> old(cache.Keys) <= pinned
      ensures victim.None? ==> disk == old(disk) && order == old(order) && cache == old(cache)
      ensures victim.Some? ==>
                && victim.value in old(cache) && victim.value !in pinned
                && cache == old(cache) - {victim.value} && order == Remove(old(order), victim.value)
                && forall q :: q in old(cache) && q !in pinned ==> NotLater(lastUse, victim.value, q)
    {
      victim := LeastUsed();
      if victim.Some? {
        Drop(victim.value);
      }
    }

    /** Takes a page out of the cache, writing it back when dirty. */
    method Drop(p: PageId)
      requires Valid() && p in cache
      modifies this`disk, this`order, this`cache
      ensures Valid() && View() == old(View()) && Spilled(old(disk), old(cache), disk, cache)
      ensures cache == old(cache) - {p} && order == Remove(old(order), p)
    {
      hide OrderedBy, Remove, CoherentIn, ViewOf, Spilled;
      Dropped(order, cache.Keys, lastUse, clock, p);
      DroppedView(disk, cache, stale, p);
      if cache[p].dirty {
        disk := disk[p := cache[p].data];
      }
      order, cache := Remove(order, p), cache - {p};
    }

    /** Puts a page read from disk into the cache. A pinned page goes in at once; any other waits
        until evictions have made room, which fails when every page is pinned. */
    method InsertPage(p: PageId, data: Bytes, pin: bool) returns (r: Result<(), PoolError>)
      requires Valid() && p !in cache && p in disk && data == disk[p]
      modifies this
      ensures Valid() && View() == old(View()) && stale == old(stale)
      ensures Spilled(old(disk), old(cache), disk, cache)
      ensures r.Ok? ==> p in cache && cache[p].data == old(disk[p]) && order != [] && order[|order| - 1] == p
      ensures r.Ok? ==> pinned == (if pin then old(pinned) + {p} else old(pinned))
      ensures r.Err? ==> r.error == AllPinned && !pin && pinned == old(pinned) && cache.Keys <= pinned
      ensures r.Ok? <==> pin || |old(cache.Keys) * old(pinned)| < capacity
      ensures pinned * old(cache.Keys) <= cache.Keys
    {
      if !pin {
        r := MakeRoom(p);
        if r.Err? {
          return;
        }
      }
      AddEntry(p, data);
      if pin {
        pinned := pinned + {p};
      }
      return Ok(());
    }

    /** Evicts until one more page fits. */
    method MakeRoom(p: PageId) returns (r: Result<(), PoolError>)
      requires Valid() && p !in cache && p in disk
      modifies this`disk, this`order, this`cache
      ensures Valid() && View() == old(View()) && p !in cache && disk.Keys == old(disk.Keys) && disk[p] == old(disk[p])
      ensures Spilled(old(disk), old(cache), disk, cache)
      ensures cache.Keys <= old(cache.Keys) && pinned * old(cache.Keys) <= cache.Keys
      ensures r.Ok? ==> |cache| < capacity && (cache == old(cache) || |cache| == capacity - 1)
      ensures r.Ok? <==> |old(cache.Keys) * pinned| < capacity
      ensures r.Err? ==> r.error == AllPinned && cache.Keys <= pinned
    {
      hide Ordered, Coherent;
      while |cache| >= capacity
        invariant Valid() && View() == old(View()) && Spilled(old(disk), old(cache), disk, cache)
        invariant cache.Keys <= old(cache.Keys) && pinned * old(cache.Keys) <= cache.Keys
        invariant cache == old(cache) || |cache| >= capacity - 1
        decreases cache.Keys
      {
        ghost var before := cache;
        var victim := EvictOne();
        if victim.None? {
          assert cache.Keys == old(cache.Keys) * pinned;
          return Err(AllPinned);
        }
        assert before.Keys == cache.Keys + {victim.value};
      }
      SubsetSize(old(cache.Keys) * pinned, cache.Keys);
      return Ok(());
    }

    method AddEntry(p: PageId, data: Bytes)
      requires Valid() && p !in cache && p in disk && data == disk[p]
      modifies this`order, this`cache, this`lastUse, this`clock
      ensures Valid() && View() == old(View())
      ensures cache == old(cache)[p := Entry(data, false)] && order == old(order) + [p]
      ensures lastUse == old(lastUse)[p := old(clock)] && clock == old(clock) + 1
    {
      Touched(order, cache.Keys, lastUse, clock, p);
      hide OrderedBy, Remove;
      ghost var view := View();
      cache, order := cache[p := Entry(data, false)], order + [p];
      lastUse, clock := lastUse[p := clock], clock + 1;
      SameMap(View(), view);
    }

    /** The bytes of a page: its cached ones, or else those on disk, which are then cached. */
    method GetPage(p: PageId) returns (r: Result<Bytes, PoolError>)
      requires Valid()
      modifies this
      ensures Valid() && View() == old(View()) && pinned == old(pinned) && stale == old(stale)
      ensures Spilled(old(disk), old(cache), disk, cache) && disk.Keys == old(disk.Keys)
      ensures r.Ok? ==> p in disk && r.value == Served(disk, cache, p)
      ensures r.Ok? && p !in stale ==> Shows(View(), p, r.value)
      ensures r.Ok? ==> p in cache && order != [] && order[|order| - 1] == p
      ensures r.Ok? <==> old(Readable(p))
      ensures r.Err? ==>
        match r.error
        case PageOutOfRange => p !in old(disk) && cache == old(cache)
        case BadPageType => p in old(disk) && Parse(old(disk)[p]).None? && cache == old(cache)
        case AllPinned => p in old(disk) && Parse(old(disk)[p]).Some? && |old(cache.Keys) * pinned| >= capacity
    {
      hide OrderedBy, Remove, CoherentIn, ViewOf, Parse;
      KnownPages();
      ViewShows(p);
      if p in cache {
        Touch(p);
        return Ok(cache[p].data);
      }
      if p !in disk {
        return Err(PageOutOfRange);
      }
      var raw := disk[p];
      if Parse(raw).None? {
        return Err(BadPageType);
      }
      var inserted := InsertPage(p, raw, false);
      if inserted.Err? {
        return Err(inserted.error);
      }
      ViewShows(p);
      return Ok(raw);
    }

    method MarkDirty(p: PageId)
      requires Valid()
      modifies this`cache
      ensures Valid() && View() == old(View())
      ensures cache == if p in old(cache) then old(cache)[p := old(cache)[p].(dirty := true)] else old(cache)
    {
      if p in cache {
        cache := cache[p := cache[p].(dirty := true)];
      }
    }

    /** Replaces the bytes of a page that is cached; the bytes for any other page are lost. */
    method SetPageData(p: PageId, data: Bytes)
      requires Valid() && |data| == PAGE_SIZE
      modifies this`cache, this`stale
      ensures Valid() && View() == if p in old(cache) then old(View())[p := data] else old(View())
      ensures cache == if p in old(cache) then old(cache)[p := Entry(data, true)] else old(cache)
      ensures stale == if p in old(cache) then old(stale) - {p} else old(stale)
    {
      if p in cache {
        cache := cache[p := Entry(data, true)];
        stale := stale - {p};
      }
    }

    /** Protects a page from eviction, reading it into the cache if need be. */
    method Pin(p: PageId) returns (r: Result<(), PoolError>)
      requires Valid()
      modifies this
      ensures Valid() && View() == old(View()) && stale == old(stale)
      ensures Spilled(old(disk), old(cache), disk, cache) && disk.Keys == old(disk.Keys)
      ensures r.Ok? ==> pinned == old(pinned) + {p} && p in cache && order != [] && order[|order| - 1] == p
      ensures r.Ok? <==> p in old(cache) || (p in old(disk) && Parse(old(disk)[p]).Some?)
      ensures r.Err? ==> pinned == old(pinned) && cache == old(cache)
    {
      if p in cache {
        pinned := pinned + {p};
        Touch(p);
        return Ok(());
      }
      if p !in disk {
        return Err(PageOutOfRange);
      }
      var raw := disk[p];
      if Parse(raw).None? {
        return Err(BadPageType);
      }
      r := InsertPage(p, raw, true);
    }

    method Unpin(p: PageId)
      requires Valid()
      modifies this`pinned
      ensures Valid() && pinned == old(pinned) - {p}
    {
      pinned := pinned - {p};
    }

    /** Afterwards nothing is dirty, and the disk holds what the users see. */
    method Flush()
      requires Valid()
      modifies this`disk, this`cache
      ensures Valid() && View() == old(View()) && disk == Flushed(old(disk), old(cache))
      ensures forall p :: p in View() ==> disk[p] == View()[p]
      ensures cache.Keys == old(cache.Keys)
      ensures forall p :: p in cache ==> !cache[p].dirty && cache[p].data == old(cache[p].data)
    {
      ghost var view := View();
      WriteBack();
      var clean := map p | p in cache :: Entry(cache[p].data, false);
      assert forall p :: p in clean ==> p in disk && (p in stale || clean[p].data == disk[p]);
      cache := clean;
      SameMap(View(), view);
    }

    /** Writes every dirty page to disk. */
    method WriteBack()
      requires Valid()
      modifies this`disk
      ensures Valid() && View() == old(View()) && disk == Flushed(old(disk), cache)
    {
      hide OrderedBy, CoherentIn, ViewOf, FlushedTo;
      ghost var before := disk;
      CachedPages();
      FlushedEnds(before, cache, order);
      for i := 0 to |order|
        invariant Valid() && View() == old(View()) && disk == FlushedTo(before, cache, order[..i])
      {
        var p := order[i];
        assert p in order;
        WrittenView(disk, cache, stale, p);
        FlushedNext(before, cache, order, i);
        if cache[p].dirty {
          disk := disk[p := cache[p].data];
        }
      }
      assert order[..|order|] == order;
    }

    lemma KnownPages()
      requires Valid()
      ensures forall p :: p in cache ==> p in disk
      ensures forall p :: p in disk ==> |disk[p]| == PAGE_SIZE
    {
    }

    lemma ViewShows(p: PageId)
      ensures p in disk && p !in stale ==> Shows(View(), p, Served(disk, cache, p))
    {
    }

    lemma CachedPages()
      requires Valid()
      ensures forall p :: p in order <==> p in cache
      ensures forall p :: p in cache ==> p in disk
    {
    }

    /** Writes a page to disk and puts a clean copy into the cache, whatever was cached for it and
        however full the cache is. */
    method Adopt(p: PageId, data: Bytes)
      requires Valid() && |data| == PAGE_SIZE
      modifies this`disk, this`order, this`cache, this`lastUse, this`clock, this`stale
      ensures Valid() && View() == old(View())[p := data] && p in cache
      ensures disk == old(disk)[p := data] && cache == old(cache)[p := Entry(data, false)]
    {
      hide OrderedBy, Remove, CoherentIn, ViewOf;
      Touched(order, cache.Keys, lastUse, clock, p);
      AdoptedView(disk, cache, stale, p, data);
      assert cache[p := Entry(data, false)].Keys == cache.Keys + {p};
      disk := disk[p := data];
      cache, order := cache[p := Entry(data, false)], Remove(order, p) + [p];
      lastUse, clock, stale := lastUse[p := clock], clock + 1, stale - {p};
    }

    /** A page written to disk past the pool, as for a freshly allocated or freed page: a read returns
        the new bytes exactly if the pool has no other copy of the page. */
    method WriteBehind(p: PageId, data: Bytes)
      requires Valid() && |data| == PAGE_SIZE
      modifies this`disk, this`stale
      ensures Valid() && disk == old(disk)[p := data]
      ensures View() == if p in cache then old(View()) - {p} else old(View())[p := data]
      ensures Served(disk, cache, p) == data <==> p !in cache || cache[p].data == data
    {
      ghost var view := View();
      disk := disk[p := data];
      stale := if p in cache then stale + {p} else stale - {p};
      SameMap(View(), if p in cache then view - {p} else view[p := data]);
    }

    /** Forgets every cached page; the pins stay. */
    method Clear()
      requires forall p :: p in disk ==> |disk[p]| == PAGE_SIZE
      modifies this`order, this`cache, this`stale
      ensures Valid() && View() == disk && cache == map[]
    {
      order, cache, stale := [], map[], {};
    }

    /** One request. */
    method Serve(q: Request) returns (r: Reply)
      requires Valid() && (q.Update? ==> |q.data| == PAGE_SIZE)
      modifies this
      ensures Valid() && stale <= old(stale)
      ensures View() == if q.Update? && r.Ok? then old(View())[q.page := q.data] else old(View())
      ensures q.Read? && r.Ok? && q.page !in stale ==> Shows(View(), q.page, r.value)
      ensures q.Read? || q.Update? ==> (r.Ok? <==> old(Readable(q.page)))
      ensures q.PinPage? ==>
                (r.Ok? <==> q.page in old(cache) || (q.page in old(disk) && Parse(old(disk)[q.page]).Some?))
      ensures q.Mark? || q.UnpinPage? || q.FlushAll? ==> r.Ok?
      ensures pinned <= old(pinned) + (if q.PinPage? then {q.page} else {}) && disk.Keys == old(disk.Keys)
    {
      hide Ordered, Coherent, ViewOf, Readable, Parse, Spilled;
      r := Ok([]);
      match q
      case Read(p) => r := GetPage(p);
      case Update(p, data) =>
        r := GetPage(p);
        if r.Ok? {
          SetPageData(p, data);
        }
      case Mark(p) => MarkDirty(p);
      case PinPage(p) =>
        var done := Pin(p);
        if done.Err? {
          r := Err(done.error);
        }
      case UnpinPage(p) => Unpin(p);
      case FlushAll => Flush();
    }

    lemma CanRead(q: Request)
      requires Valid() && stale == {} && |pinned| < capacity && AllParse(View()) && Existing(q, disk.Keys)
      ensures q.Read? || q.Update? ==> Readable(q.page)
    {
      SubsetSize(cache.Keys * pinned, pinned);
      if q.Read? || q.Update? {
        assert q.page in View();
      }
    }

    /** Any run of requests: the pool cannot be told from a plain map of pages, while nobody else
        changes the disk. No page that exists is refused while all pages parse and fewer are pinned
        than the pool holds. */
    method ServeAll(qs: seq<Request>) returns (replies: seq<Reply>)
      requires Valid() && stale == {} && forall q :: q in qs && q.Update? ==> |q.data| == PAGE_SIZE
      modifies this
      ensures Valid() && |replies| == |qs|
      ensures View() == Latest(old(View()), qs, replies)
      ensures Transparent(old(View()), qs, replies)
      ensures |old(pinned)| < capacity && NoPins(qs) && AllParse(old(View())) && DataParse(qs) ==>
                forall i :: 0 <= i < |qs| && Existing(qs[i], old(disk).Keys) ==> replies[i].Ok?
    {
      hide Valid, View, Latest;
      replies := [];
      ghost var pages := View();
      LatestNone(pages);
      for i := 0 to |qs|
        invariant Valid() && stale == {} && |replies| == i
        invariant View() == Latest(pages, qs[..i], replies) && Transparent(pages, qs[..i], replies)
        invariant disk.Keys == old(disk.Keys)
        invariant NoPins(qs) ==> pinned <= old(pinned)
        invariant AllParse(old(View())) && DataParse(qs) ==> AllParse(View())
        invariant |old(pinned)| < capacity && NoPins(qs) && AllParse(old(View())) && DataParse(qs) ==>
                    forall k :: 0 <= k < i && Existing(qs[k], old(disk).Keys) ==> replies[k].Ok?
      {
        assert qs[i] in qs;
        if NoPins(qs) && |old(pinned)| < capacity && AllParse(View()) && Existing(qs[i], disk.Keys) {
          SubsetSize(pinned, old(pinned));
          CanRead(qs[i]);
        }
        var r := Serve(qs[i]);
        LatestNext(pages, qs[..i], replies, qs[i], r);
        TransparentNext(pages, qs[..i], replies, qs[i], r);
        assert qs[..i + 1] == qs[..i] + [qs[i]];
        replies := replies + [r];
      }
      assert qs[..|qs|] == qs;
    }
  }
}
