/** Page allocation in the database file: a free list threaded through the headers of freed pages. */
module FileManager {
  import opened Wrappers
  import opened ByteCodec
  import opened PageHeader
  import opened SlottedPage
  import opened RowIds

  datatype FileError = PageOutOfRange | BadPageSize | BadPageType

  /** The pages of the file, the header page first, and the head of the free list. */
  datatype Disk = Disk(file: seq<Bytes>, head: PageId)

  ghost predicate DiskOK(d: Disk) {
    && 1 <= |d.file| <= U32_LIMIT && 0 <= d.head < |d.file|
    && forall p :: 0 <= p < |d.file| ==> |d.file[p]| == PAGE_SIZE
  }

  // ----- what the operations compute -----

  /** The page type a freed page keeps; one that was never written counts as data. */
  function TypeOf(raw: Bytes): Option<PageType>
    requires |raw| == PAGE_SIZE
  {
    if raw[4] == 0 then Some(DATA) else match Parse(raw) case Some(h) => Some(h.pageType) case None => None
  }

  function FreeImage(raw: Bytes, p: PageId, t: PageType, next: PageId): (image: Bytes)
    requires |raw| == PAGE_SIZE && 0 <= p < U32_LIMIT && 0 <= next < U32_LIMIT
    ensures |image| == PAGE_SIZE
  {
    WithHeader(raw, Header(p, t, 0, 0, PAGE_SIZE, next, 0))
  }

  /** The freed page becomes the head of the list and links to the old head. */
  function Release(d: Disk, p: PageId): Result<Disk, FileError>
    requires DiskOK(d) && p >= 0
  {
    if p == 0 || p >= |d.file| then Err(PageOutOfRange)
    else
      match TypeOf(d.file[p])
      case None => Err(BadPageType)
      case Some(t) => Ok(Disk(d.file[p := FreeImage(d.file[p], p, t, d.head)], p))
  }

  /** The head of the list, or else one page more. */
  function Alloc(d: Disk): Result<(Disk, PageId), FileError>
    requires DiskOK(d)
  {
    if d.head != 0 then
      match Parse(d.file[d.head])
      case None => Err(BadPageType)
      case Some(h) => Ok((d.(head := h.nextPage), d.head))
    else Ok((d.(file := d.file + [Zeros(PAGE_SIZE)]), |d.file|))
  }

  function Write(d: Disk, p: PageId, data: Bytes): Disk
    requires 0 <= p < |d.file|
  {
    d.(file := d.file[p := data])
  }

  /** A page can be freed exactly if it is in the file, not the header page, and its type byte is one of the three known
      types, or zero, as in a page never written. */
  lemma ReleaseIff(d: Disk, p: PageId)
    requires DiskOK(d) && p >= 0
    ensures Release(d, p).Ok? <==> 0 < p < |d.file| && d.file[p][4] <= 3
  {
  }

  // ----- the free list -----

  ghost predicate LinkOK(d: Disk, free: seq<PageId>, i: nat)
    requires DiskOK(d) && i < |free|
  {
    && 0 < free[i] < |d.file| && Parse(d.file[free[i]]).Some?
    && Parse(d.file[free[i]]).value.nextPage == if i + 1 < |free| then free[i + 1] else 0
  }

  /** The list the head starts: finite, without repetition, within the file. */
  ghost predicate FreeList(d: Disk, free: seq<PageId>)
    requires DiskOK(d)
  {
    && d.head == (if free == [] then 0 else free[0])
    && (forall i, j :: 0 <= i < j < |free| ==> free[i] != free[j])
    && forall i :: 0 <= i < |free| ==> LinkOK(d, free, i)
  }

  /** Every page but the header page is either in use or on the list, and not both. */
  ghost predicate Partition(d: Disk, free: seq<PageId>, used: set<PageId>) {
    && (forall p :: p in used ==> 0 < p < |d.file| && p !in free)
    && forall p :: 0 < p < |d.file| ==> p in used || p in free
  }

  ghost predicate Sane(d: Disk, free: seq<PageId>, used: set<PageId>) {
    DiskOK(d) && FreeList(d, free) && Partition(d, free, used)
  }

  lemma ListInside(d: Disk, free: seq<PageId>)
    requires DiskOK(d) && FreeList(d, free)
    ensures forall p :: p in free ==> 0 < p < |d.file|
    ensures d.head == 0 <==> free == []
  {
    assert free != [] ==> LinkOK(d, free, 0);
    forall p | p in free
      ensures 0 < p < |d.file|
    {
      var i :| 0 <= i < |free| && free[i] == p;
      assert LinkOK(d, free, i);
    }
  }

  /** Links do not depend on pages off the list. */
  lemma OtherPage(d: Disk, free: seq<PageId>, p: PageId, data: Bytes)
    requires DiskOK(d) && FreeList(d, free) && 0 < p < |d.file| && p !in free && |data| == PAGE_SIZE
    ensures var d' := Write(d, p, data); DiskOK(d') && FreeList(d', free)
  {
    var d' := Write(d, p, data);
    hide Parse;
    forall i | 0 <= i < |free|
      ensures LinkOK(d', free, i)
    {
      assert LinkOK(d, free, i) && free[i] in free;
    }
  }

  /** Allocation hands out a page that was not in use, and takes it off the list. */
  lemma AllocSane(d: Disk, free: seq<PageId>, used: set<PageId>)
    requires Sane(d, free, used) && |d.file| < U32_LIMIT
    ensures Alloc(d).Ok?
    ensures var (d', p) := Alloc(d).value;
            && p !in used && 0 < p < |d'.file| && Sane(d', if free == [] then [] else free[1..], used + {p})
            && (forall q :: q in used ==> d'.file[q] == d.file[q])
  {
    hide Parse;
    if free != [] {
      assert LinkOK(d, free, 0);
      var (d', p) := Alloc(d).value;
      assert DiskOK(d') by {
        assert |free| > 1 ==> LinkOK(d, free, 1);
      }
      forall i | 0 <= i < |free| - 1
        ensures LinkOK(d', free[1..], i)
      {
        assert LinkOK(d, free, i + 1);
      }
      assert p in free;
      assert forall q :: q in free <==> q == p || q in free[1..];
    } else {
      assert Parse(Zeros(PAGE_SIZE)).None? || Parse(Zeros(PAGE_SIZE)).Some?;
    }
  }

  /** A page just allocated can be freed at once, and leads to where the list was before, or to the end of it. */
  lemma AllocThenFree(d: Disk, free: seq<PageId>, used: set<PageId>)
    requires Sane(d, free, used) && |d.file| < U32_LIMIT
    ensures Alloc(d).Ok? && DiskOK(Alloc(d).value.0)
    ensures var (d', p) := Alloc(d).value;
            && Release(d', p).Ok?
            && Sane(Release(d', p).value, if free == [] then [p] else free, used)
  {
    hide Sane, Alloc;
    SaneOK(d, free, used);
    AllocSane(d, free, used);
    var (d', p) := Alloc(d).value;
    var rest := if free == [] then [] else free[1..];
    HeadFirst(d, free, used);
    assert [p] + rest == if free == [] then [p] else free;
    SaneOK(d', rest, used + {p});
    ReleaseIff(d', p);
    FreeSane(d', rest, used + {p}, p);
    assert (used + {p}) - {p} == used;
  }

  lemma HeadFirst(d: Disk, free: seq<PageId>, used: set<PageId>)
    requires Sane(d, free, used)
    ensures Alloc(d).Ok? && (free != [] ==> Alloc(d).value.1 == free[0])
    ensures var (d', p) := Alloc(d).value; 0 < p < |d'.file| && |d'.file[p]| == PAGE_SIZE && d'.file[p][4] <= 3
  {
    assert free != [] ==> LinkOK(d, free, 0);
  }

  lemma SaneOK(d: Disk, free: seq<PageId>, used: set<PageId>)
    requires Sane(d, free, used)
    ensures DiskOK(d)
  {
  }

  /** Freeing a page in use puts it in front of the list. */
  lemma FreeSane(d: Disk, free: seq<PageId>, used: set<PageId>, p: PageId)
    requires Sane(d, free, used) && p in used && Release(d, p).Ok?
    ensures Sane(Release(d, p).value, [p] + free, used - {p})
    ensures forall q :: q in used && q != p ==> Release(d, p).value.file[q] == d.file[q]
  {
    hide Parse, WithHeader, TypeOf;
    FreeLinks(d, free, p);
    ListInside(d, free);
    var free' := [p] + free;
    assert forall q :: q in free' <==> q == p || q in free;
    hide LinkOK;
  }

  lemma FreeLinks(d: Disk, free: seq<PageId>, p: PageId)
    requires DiskOK(d) && FreeList(d, free) && 0 < p < |d.file| && p !in free && Release(d, p).Ok?
    ensures DiskOK(Release(d, p).value) && FreeList(Release(d, p).value, [p] + free)
  {
    hide Parse, WithHeader, TypeOf;
    var t, d' := TypeOf(d.file[p]).value, Release(d, p).value;
    var image := FreeImage(d.file[p], p, t, d.head);
    WithHeaderReads(d.file[p], Header(p, t, 0, 0, PAGE_SIZE, d.head, 0));
    OtherPage(d, free, p, image);
    var free' := [p] + free;
    forall i | 0 <= i < |free'|
      ensures LinkOK(d', free', i)
    {
      if i > 0 {
        assert LinkOK(Write(d, p, image), free, i - 1);
      }
    }
  }

  lemma GrowSane(d: Disk, free: seq<PageId>, used: set<PageId>)
    requires Sane(d, free, used) && |d.file| < U32_LIMIT
    ensures Sane(d.(file := d.file + [Zeros(PAGE_SIZE)]), free, used + {|d.file|})
  {
    hide Parse;
    var d' := d.(file := d.file + [Zeros(PAGE_SIZE)]);
    forall i | 0 <= i < |free|
      ensures LinkOK(d', free, i)
    {
      assert LinkOK(d, free, i);
    }
    ListInside(d, free);
  }

  lemma WriteSane(d: Disk, free: seq<PageId>, used: set<PageId>, p: PageId, data: Bytes)
    requires Sane(d, free, used) && p in used && |data| == PAGE_SIZE
    ensures Sane(Write(d, p, data), free, used)
  {
    OtherPage(d, free, p, data);
  }

  /** A write to any page off the list keeps it, be it the header page. */
  lemma WriteAnySane(d: Disk, free: seq<PageId>, used: set<PageId>, p: PageId, data: Bytes)
    requires Sane(d, free, used) && 0 <= p < |d.file| && p !in free && |data| == PAGE_SIZE
    ensures Sane(Write(d, p, data), free, used)
  {
    if p > 0 {
      WriteSane(d, free, used, p, data);
    } else {
      hide Parse;
      forall i | 0 <= i < |free|
        ensures LinkOK(Write(d, p, data), free, i)
      {
        assert LinkOK(d, free, i);
      }
    }
  }

  // ----- conservation -----

  /** The page numbers below n. */
  ghost function Range(n: nat): (all: set<PageId>)
    ensures |all| == n && forall p :: p in all <==> 0 <= p < n
  {
    if n == 0 then {} else Range(n - 1) + {n - 1}
  }

  lemma {:induction false} ListSize(free: seq<PageId>)
    requires forall i, j :: 0 <= i < j < |free| ==> free[i] != free[j]
    ensures |(set p | p in free)| == |free|
  {
    var s := set p | p in free;
    if free == [] {
      assert s == {};
    } else {
      var k := |free| - 1;
      ListSize(free[..k]);
      assert s == (set p | p in free[..k]) + {free[k]};
      assert free[k] !in free[..k];
    }
  }

  /** Pages in use, free pages and the header page make up the file. */
  lemma Conservation(d: Disk, free: seq<PageId>, used: set<PageId>)
    requires Sane(d, free, used)
    ensures |used| + |free| + 1 == |d.file|
  {
    hide FreeList;
    var all := Range(|d.file|);
    var listed := set p | p in free;
    ListedOnce(d, free);
    ListInside(d, free);
    assert all == used + listed + {0};
    assert used !! listed;
  }

  lemma ListedOnce(d: Disk, free: seq<PageId>)
    requires DiskOK(d) && FreeList(d, free)
    ensures |(set p | p in free)| == |free|
  {
    ListSize(free);
  }

  // ----- freeing what is free already -----

  lemma {:induction false} OldListFollows(d: Disk, free: seq<PageId>, p: PageId, free': seq<PageId>, j: nat)
    requires DiskOK(d) && FreeList(d, free) && 0 < p < |d.file| && Release(d, p).Ok?
    requires DiskOK(Release(d, p).value) && FreeList(Release(d, p).value, free')
    requires j < |free| && forall i :: 0 <= i < j ==> free[i] != p
    ensures j + 1 < |free'| && free'[j + 1] == free[j]
  {
    var t, d' := TypeOf(d.file[p]).value, Release(d, p).value;
    WithHeaderReads(d.file[p], Header(p, t, 0, 0, PAGE_SIZE, d.head, 0));
    hide Parse, WithHeader, TypeOf;
    assert LinkOK(d, free, j);
    if j > 0 {
      OldListFollows(d, free, p, free', j - 1);
      assert LinkOK(d, free, j - 1);
    }
    assert LinkOK(d', free', j);
  }

  /** Freeing leaves a finite list without repetition exactly when the page was not on it. */
  lemma FreeKeepsListIff(d: Disk, free: seq<PageId>, used: set<PageId>, p: PageId)
    requires Sane(d, free, used) && 0 < p < |d.file| && Release(d, p).Ok?
    ensures DiskOK(Release(d, p).value)
    ensures (exists free' :: FreeList(Release(d, p).value, free')) <==> p !in free
  {
    var d' := Release(d, p).value;
    hide Parse, WithHeader, TypeOf;
    if p !in free {
      FreeSane(d, free, used, p);
      assert FreeList(d', [p] + free);
    } else {
      var i := FirstAt(free, p);
      forall free'
        ensures !FreeList(d', free')
      {
        if FreeList(d', free') {
          OldListFollows(d, free, p, free', i);
        }
      }
    }
  }

  lemma FirstAt(free: seq<PageId>, p: PageId) returns (i: nat)
    requires p in free
    ensures i < |free| && free[i] == p && forall j :: 0 <= j < i ==> free[j] != p
  {
    i := 0;
    while free[i] != p
      invariant i < |free| && (forall j :: 0 <= j < i ==> free[j] != p)
      invariant exists k :: i <= k < |free| && free[k] == p
      decreases |free| - i
    {
      i := i + 1;
    }
  }

  /** What goes wrong: a page freed twice is handed out twice. */
  lemma FreedTwice(d: Disk, p: PageId)
    requires DiskOK(d) && 0 < p < |d.file| && Release(d, p).Ok? && p < U32_LIMIT
    ensures var once := Release(d, p).value;
            && DiskOK(once) && Release(once, p).Ok?
            && var twice := Release(once, p).value;
               && DiskOK(twice) && Alloc(twice).Ok? && Alloc(twice).value.1 == p
               && var (after, _) := Alloc(twice).value;
                  DiskOK(after) && Alloc(after).Ok? && Alloc(after).value.1 == p
  {
    hide Parse, WithHeader, TypeOf, FreeImage;
    var t, once := TypeOf(d.file[p]).value, Release(d, p).value;
    FreedReads(d.file[p], p, t, d.head);
    FreedReads(once.file[p], p, t, p);
  }

  lemma FreedReads(raw: Bytes, p: PageId, t: PageType, next: PageId)
    requires |raw| == PAGE_SIZE && 0 <= p < U32_LIMIT && 0 <= next < U32_LIMIT
    ensures Parse(FreeImage(raw, p, t, next)).Some? && Parse(FreeImage(raw, p, t, next)).value.nextPage == next
    ensures TypeOf(FreeImage(raw, p, t, next)) == Some(t)
  {
    var h := Header(p, t, 0, 0, PAGE_SIZE, next, 0);
    FreedType(raw, h);
    WithHeaderReads(raw, h);
  }

  lemma FreedType(raw: Bytes, h: Header)
    requires |raw| == PAGE_SIZE && Packable(h)
    ensures TypeOf(WithHeader(raw, h)) == Some(h.pageType)
  {
    WithHeaderReads(raw, h);
    hide WithHeader;
    assert Parse(WithHeader(raw, h)).Some?;
  }

  // ----- runs -----

  datatype Call = AllocCall | FreeCall(page: PageId) | WriteCall(target: PageId, data: Bytes)

  datatype Sys = Sys(disk: Disk, used: set<PageId>)

  /** Only pages in use are freed or written. */
  predicate Allowed(s: Sys, c: Call) {
    match c
    case AllocCall => |s.disk.file| < U32_LIMIT
    case FreeCall(p) => p in s.used
    case WriteCall(p, data) => p in s.used && |data| == PAGE_SIZE
  }

  function Next(s: Sys, c: Call): Sys
    requires DiskOK(s.disk) && Allowed(s, c) && forall p :: p in s.used ==> 0 < p < |s.disk.file|
  {
    match c
    case AllocCall =>
      (match Alloc(s.disk) case Ok((d, p)) => Sys(d, s.used + {p}) case Err(_) => s)
    case FreeCall(p) =>
      (match Release(s.disk, p) case Ok(d) => Sys(d, s.used - {p}) case Err(_) => s)
    case WriteCall(p, data) => s.(disk := Write(s.disk, p, data))
  }

  /** A new file: the header page alone. */
  function NewSys(): Sys {
    Sys(Disk([Zeros(PAGE_SIZE)], 0), {})
  }

  ghost predicate Healthy(s: Sys) {
    exists free :: Sane(s.disk, free, s.used)
  }

  lemma NewHealthy()
    ensures Healthy(NewSys())
  {
    assert Sane(NewSys().disk, [], {});
  }

  ghost predicate Reaches(s: Sys, cs: seq<Call>, s': Sys)
    decreases |cs|
  {
    if cs == [] then s == s'
    else DiskOK(s.disk) && (forall p :: p in s.used ==> 0 < p < |s.disk.file|)
         && Allowed(s, cs[0]) && Reaches(Next(s, cs[0]), cs[1..], s')
  }

  lemma CallHealthy(s: Sys, c: Call)
    requires Healthy(s) && DiskOK(s.disk) && (forall p :: p in s.used ==> 0 < p < |s.disk.file|) && Allowed(s, c)
    ensures Healthy(Next(s, c))
  {
    var free :| Sane(s.disk, free, s.used);
    hide Sane, Alloc, Release;
    match c
    case AllocCall => AllocSane(s.disk, free, s.used);
    case FreeCall(p) =>
      if Release(s.disk, p).Ok? {
        FreeSane(s.disk, free, s.used, p);
      }
    case WriteCall(p, data) => WriteSane(s.disk, free, s.used, p, data);
  }

  /** Over every run: a finite free list disjoint from the pages in use, and no page lost. */
  lemma {:induction false} RunHealthy(s: Sys, cs: seq<Call>, s': Sys)
    requires Healthy(s) && Reaches(s, cs, s')
    ensures Healthy(s')
    ensures exists free :: Sane(s'.disk, free, s'.used) && |s'.used| + |free| + 1 == |s'.disk.file|
    decreases |cs|
  {
    if cs == [] {
      var free :| Sane(s'.disk, free, s'.used);
      Conservation(s'.disk, free, s'.used);
    } else {
      CallHealthy(s, cs[0]);
      RunHealthy(Next(s, cs[0]), cs[1..], s');
    }
  }

  /** In particular from a new file. */
  lemma EveryRun(cs: seq<Call>, s: Sys)
    requires Reaches(NewSys(), cs, s)
    ensures exists free :: Sane(s.disk, free, s.used) && |s.used| + |free| + 1 == |s.disk.file|
  {
    NewHealthy();
    RunHealthy(NewSys(), cs, s);
  }

  // ----- the object -----

  class FileManager {
    var pages: seq<Bytes>
    var pageCount: nat
    var freeListHead: PageId
    ghost var free: seq<PageId>
    ghost var used: set<PageId>

    ghost function State(): Disk
      reads this
    {
      Disk(pages, freeListHead)
    }

    ghost predicate Valid()
      reads this
    {
      pageCount == |pages| && Sane(State(), free, used)
    }

    constructor ()
      ensures Valid() && used == {} && pages == [Zeros(PAGE_SIZE)]
    {
      pages, pageCount, freeListHead := [Zeros(PAGE_SIZE)], 1, 0;
      free, used := [], {};
    }

    /** Page ids from the file on are out of range. */
    method ReadPage(p: nat) returns (r: Result<Bytes, FileError>)
      requires Valid()
      ensures r == if p < |pages| then Ok(pages[p]) else Err(PageOutOfRange)
    {
      if p >= pageCount {
        return Err(PageOutOfRange);
      }
      return Ok(pages[p]);
    }

    /** Never a page in use: the head of the free list, or a new page at the end. */
    method AllocPage() returns (r: Result<PageId, FileError>)
      requires Valid() && pageCount < U32_LIMIT
      modifies this
      ensures Valid() && r.Ok? && r.value !in old(used) && used == old(used) + {r.value}
      ensures Alloc(old(State())) == Ok((State(), r.value))
      ensures forall q :: q in old(used) ==> q < |pages| && pages[q] == old(pages[q])
      ensures |pages| == if old(free) == [] then |old(pages)| + 1 else |old(pages)|
    {
      AllocSane(State(), free, used);
      ListInside(State(), free);
      hide Parse, LinkOK;
      if freeListHead != 0 {
        var p := freeListHead;
        var raw := pages[p];
        freeListHead := Parse(raw).value.nextPage;
        free, used := free[1..], used + {p};
        return Ok(p);
      }
      var p := pageCount;
      pages, pageCount := pages + [Zeros(PAGE_SIZE)], pageCount + 1;
      used := used + {p};
      return Ok(p);
    }

    /** Puts a page on the list; page 0, pages out of range and pages of unknown type are refused. Of a page that is
        in use the list stays sane; of one that is free already FreeKeepsListIff says what becomes of the list. */
    method FreePage(p: nat) returns (r: Result<(), FileError>)
      requires Valid()
      modifies this
      ensures pageCount == |pages| && DiskOK(State())
      ensures r.Ok? <==> Release(old(State()), p).Ok?
      ensures r.Ok? ==> Release(old(State()), p) == Ok(State())
      ensures r.Ok? && p in old(used) ==> Valid() && free == [p] + old(free) && used == old(used) - {p}
      ensures r.Ok? && p !in old(used) ==> p in old(free) && !exists list :: FreeList(State(), list)
      ensures r.Err? ==> Valid() && Release(old(State()), p) == Err(r.error)
      ensures r.Err? ==> State() == old(State()) && used == old(used)
    {
      if p == 0 || p >= pageCount {
        return Err(PageOutOfRange);
      }
      var raw := pages[p];
      var t := TypeOf(raw);
      if t.None? {
        return Err(BadPageType);
      }
      FreeKeepsListIff(State(), free, used, p);
      if p in used {
        FreeSane(State(), free, used, p);
      }
      hide Parse, LinkOK, WithHeader, TypeOf, FreeList;
      pages := pages[p := FreeImage(raw, p, t.value, freeListHead)];
      freeListHead := p;
      if p in used {
        free, used := [p] + free, used - {p};
      }
      return Ok(());
    }

    /** Writes one page; a page beyond the end makes the file grow, and the pages added count as in use. Only a
        write to a free page can break the list. */
    method WritePage(p: int, data: Bytes) returns (r: Result<(), FileError>)
      requires Valid() && p < U32_LIMIT
      modifies this
      ensures p !in old(free) ==> Valid() && free == old(free)
      ensures pageCount == |pages| && freeListHead == old(freeListHead)
      ensures r == if p < 0 then Err(PageOutOfRange) else if |data| != PAGE_SIZE then Err(BadPageSize) else Ok(())
      ensures r.Err? ==> State() == old(State()) && used == old(used)
      ensures r.Ok? ==> p < |pages| && pages[p] == data && old(used) <= used
      ensures r.Ok? ==> p in used || p == 0 || p in old(free)
      ensures r.Ok? ==> forall q :: 0 <= q < |old(pages)| && q != p ==> q < |pages| && pages[q] == old(pages[q])
      ensures r.Ok? ==> |pages| == if p < |old(pages)| then |old(pages)| else p + 1
    {
      if p < 0 {
        return Err(PageOutOfRange);
      }
      if |data| != PAGE_SIZE {
        return Err(BadPageSize);
      }
      hide Parse, LinkOK;
      while pageCount <= p
        invariant Valid() && free == old(free) && old(used) <= used && pageCount <= U32_LIMIT
        invariant freeListHead == old(freeListHead)
        invariant pageCount <= p + 1 || pageCount == old(pageCount)
        invariant |old(pages)| <= |pages| && (|pages| == |old(pages)| || |pages| <= p + 1)
        invariant forall q :: 0 <= q < |old(pages)| ==> pages[q] == old(pages[q])
        decreases p + 1 - pageCount
      {
        Grow();
      }
      if p !in free {
        WriteAnySane(State(), free, used, p, data);
      }
      pages := pages[p := data];
      return Ok(());
    }

    /** One page more at the end of the file. */
    method Grow()
      requires Valid() && pageCount < U32_LIMIT
      modifies this
      ensures Valid() && free == old(free) && used == old(used) + {old(pageCount)}
      ensures pages == old(pages) + [Zeros(PAGE_SIZE)] && freeListHead == old(freeListHead)
    {
      GrowSane(State(), free, used);
      hide LinkOK, Parse;
      used := used + {pageCount};
      pages, pageCount := pages + [Zeros(PAGE_SIZE)], pageCount + 1;
    }
  }
}
