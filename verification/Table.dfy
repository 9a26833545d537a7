/** Row storage of one table: a chain of data pages in the page store, walked from the root. */
module Table {
  import opened Wrappers
  import opened ByteCodec
  import opened PageHeader
  import opened SlottedPage
  import P = PageStore
  import opened TableSpec
  import opened TableRuns
  import opened RowIds

  type Pages = map<PageId, Bytes>

  /** Page k of the chain is sound and links to page k + 1, the last one to none. */
  ghost predicate LinkOK(pages: Pages, chain: seq<PageId>, k: nat)
    requires k < |chain|
  {
    && chain[k] in pages && chain[k] > 0 && Sound(pages[chain[k]])
    && HeaderOf(pages[chain[k]]).nextPage == if k + 1 < |chain| then chain[k + 1] else 0
  }

  ghost predicate NoPageTwice(chain: seq<PageId>) {
    forall i, j :: 0 <= i < j < |chain| ==> chain[i] != chain[j]
  }

  ghost predicate ChainOK(pages: Pages, chain: seq<PageId>) {
    && chain != [] && NoPageTwice(chain)
    && forall k :: 0 <= k < |chain| ==> LinkOK(pages, chain, k)
  }

  ghost function PageView(id: PageId, d: Bytes): DataPage
    requires Sound(d)
  {
    DataPage(id, Rows(d), Free(d))
  }

  ghost function View(pages: Pages, chain: seq<PageId>): (l: Layout)
    requires ChainOK(pages, chain)
    ensures |l| == |chain|
    ensures forall k :: 0 <= k < |l| ==> LinkOK(pages, chain, k) && l[k] == PageView(chain[k], pages[chain[k]])
  {
    seq(|chain|, k requires 0 <= k < |chain| && LinkOK(pages, chain, k) => PageView(chain[k], pages[chain[k]]))
  }

  lemma ViewDistinct(pages: Pages, chain: seq<PageId>)
    requires ChainOK(pages, chain)
    ensures Distinct(View(pages, chain))
  {
    hide LinkOK;
    var l := View(pages, chain);
    assert forall k :: 0 <= k < |l| ==> l[k].id == chain[k];
  }

  /** Other pages do not matter, nor does rewriting one page to a sound image with the same link. */
  lemma PageRewritten(pages: Pages, chain: seq<PageId>, k: nat, d: Bytes)
    requires ChainOK(pages, chain) && k < |chain| && Sound(d) && LinkOK(pages, chain, k)
    requires HeaderOf(d).nextPage == HeaderOf(pages[chain[k]]).nextPage
    ensures ChainOK(pages[chain[k] := d], chain)
    ensures View(pages[chain[k] := d], chain) == View(pages, chain)[k := PageView(chain[k], d)]
  {
    hide Sound, HeaderOf, PageView;
    var pages' := pages[chain[k] := d];
    forall j | 0 <= j < |chain|
      ensures LinkOK(pages', chain, j)
      ensures j != k ==> pages'[chain[j]] == pages[chain[j]]
    {
      assert LinkOK(pages, chain, j);
    }
  }

  /** A page image with its link turned to p. */
  function Relinked(d: Bytes, p: PageId): (d': Bytes)
    requires |d| == PAGE_SIZE && Parse(d).Some? && 0 <= p < U32_LIMIT
    ensures |d'| == PAGE_SIZE
  {
    ParsedPackable(d);
    WithHeader(d, HeaderOf(d).(nextPage := p))
  }

  lemma RelinkedView(d: Bytes, p: PageId, id: PageId)
    requires Sound(d) && 0 <= p < U32_LIMIT
    ensures Sound(Relinked(d, p)) && PageView(id, Relinked(d, p)) == PageView(id, d)
    ensures HeaderOf(Relinked(d, p)).nextPage == p
  {
    LinkRows(d, p);
  }

  /** Linking a fresh empty page behind the last page extends the layout by it. */
  lemma ChainExtended(pages: Pages, chain: seq<PageId>, p: PageId)
    requires ChainOK(pages, chain) && p !in chain && 0 < p < U32_LIMIT
    ensures var last := chain[|chain| - 1];
            && last in pages && Sound(pages[last])
            && var pages' := pages[last := Relinked(pages[last], p)][p := EmptyPage(p)];
               ChainOK(pages', chain + [p]) && View(pages', chain + [p]) == View(pages, chain) + [NewPage(p)]
  {
    var last, chain' := chain[|chain| - 1], chain + [p];
    PageAt(pages, chain, |chain| - 1);
    RelinkedView(pages[last], p, last);
    var d := Relinked(pages[last], p);
    var pages' := pages[last := d][p := EmptyPage(p)];
    hide View;
    forall k | 0 <= k < |chain'|
      ensures LinkOK(pages', chain', k)
    {
      LinkExtended(pages, chain, p, d, k);
    }
    hide LinkOK, ChainOK, EmptyPage, Sound;
    ViewExtended(pages, chain, p, d);
  }

  lemma LinkExtended(pages: Pages, chain: seq<PageId>, p: PageId, d: Bytes, k: nat)
    requires ChainOK(pages, chain) && p !in chain && 0 < p < U32_LIMIT && Sound(d) && k <= |chain|
    requires HeaderOf(d).nextPage == p
    ensures LinkOK(pages[chain[|chain| - 1] := d][p := EmptyPage(p)], chain + [p], k)
  {
    EmptyRows(p);
    hide Sound, HeaderOf, EmptyPage;
    assert k < |chain| ==> LinkOK(pages, chain, k) && chain[k] in chain;
    assert LinkOK(pages, chain, |chain| - 1);
  }

  lemma EmptyView(p: PageId)
    requires 0 <= p < U32_LIMIT
    ensures Sound(EmptyPage(p)) && PageView(p, EmptyPage(p)) == NewPage(p)
  {
    EmptyRows(p);
  }

  lemma ViewExtended(pages: Pages, chain: seq<PageId>, p: PageId, d: Bytes)
    requires ChainOK(pages, chain) && p !in chain && 0 < p < U32_LIMIT
    requires var last := chain[|chain| - 1];
             last in pages && Sound(d) && Sound(pages[last]) && PageView(last, d) == PageView(last, pages[last])
    requires ChainOK(pages[chain[|chain| - 1] := d][p := EmptyPage(p)], chain + [p])
    ensures View(pages[chain[|chain| - 1] := d][p := EmptyPage(p)], chain + [p]) == View(pages, chain) + [NewPage(p)]
  {
    hide Sound, PageView, EmptyPage, LinkOK;
    EmptyView(p);
    var last, chain' := chain[|chain| - 1], chain + [p];
    var pages' := pages[last := d][p := EmptyPage(p)];
    forall k | 0 <= k < |chain|
      ensures chain[k] != p && (k < |chain| - 1 ==> chain[k] != last)
    {
      assert chain[k] in chain;
    }
    hide ChainOK, NoPageTwice;
    assert forall k :: 0 <= k < |chain| - 1 ==> View(pages', chain')[k] == View(pages, chain)[k];
    assert View(pages', chain')[|chain| - 1] == View(pages, chain)[|chain| - 1];
  }

  /** What the walk reads on page k. */
  lemma PageAt(pages: Pages, chain: seq<PageId>, k: nat)
    requires ChainOK(pages, chain) && k < |chain|
    ensures chain[k] in pages && chain[k] > 0 && Sound(pages[chain[k]])
    ensures var h := HeaderOf(pages[chain[k]]);
            && h.freeSpace == View(pages, chain)[k].free && h.pageType == DATA
            && h.nextPage == if k + 1 < |chain| then chain[k + 1] else 0
  {
    assert LinkOK(pages, chain, k);
  }

  /** Pages outside the chain are as they were. */
  ghost predicate Elsewhere(before: Pages, after: Pages, chain: seq<PageId>) {
    forall p :: p in before && p !in chain ==> p in after && after[p] == before[p]
  }

  lemma ElsewhereTwice(a: Pages, b: Pages, c: Pages, chain: seq<PageId>, chain': seq<PageId>)
    requires (a == b || Elsewhere(a, b, chain)) && Elsewhere(b, c, chain')
    requires forall p :: p in chain' ==> p in chain || p !in a
    ensures Elsewhere(a, c, chain)
  {
  }

  lemma ChainKnown(pages: Pages, chain: seq<PageId>)
    requires ChainOK(pages, chain)
    ensures forall p :: p in chain ==> p in pages
  {
    forall p | p in chain
      ensures p in pages
    {
      var k :| 0 <= k < |chain| && chain[k] == p;
      assert LinkOK(pages, chain, k);
    }
  }

  /** Deleting concerns the page of the id alone. */
  lemma {:induction false} DeleteAt(l: Layout, k: nat, id: RowId)
    requires Distinct(l) && k < |l| && l[k].id == id.page
    ensures Issued(l, id) <==> id.slot < |l[k].rows|
    ensures Delete(l, id)
            == if id.slot < |l[k].rows| then l[k := l[k].(rows := l[k].rows[id.slot := None])] else l
  {
    if k > 0 {
      assert l[1..][k - 1] == l[k];
      DeleteAt(l[1..], k - 1, id);
      assert l[0].id != l[k].id;
    }
  }

  lemma RowsFew(d: Bytes)
    requires Sound(d)
    ensures |Rows(d)| < U16_LIMIT
  {
  }

  lemma ScanNone(l: Layout)
    ensures Scan(l[..0]) == []
  {
  }

  lemma ScanNext(l: Layout, k: nat)
    requires k < |l|
    ensures Scan(l[..k + 1]) == Scan(l[..k]) + ScanSlots(l[k], |l[k].rows|)
  {
    assert l[..k + 1][..k] == l[..k];
  }

  class Table {
    const store: P.PageStore
    const root: PageId
    ghost var chain: seq<PageId>

    ghost predicate Valid()
      reads this, store
    {
      store.Valid() && ChainOK(store.pages, chain) && chain[0] == root
    }

    ghost function Layout(): Layout
      requires Valid()
      reads this, store
    {
      View(store.pages, chain)
    }

    /** A table starts with one empty data page. */
    constructor (store: P.PageStore)
      requires store.Valid() && store.Room(1)
      modifies store
      ensures this.store == store && Valid() && Layout() == EmptyTable(root) && store.next == old(store.next) + 1
      ensures chain == [root]
      ensures root !in old(store.pages) && forall p :: p in old(store.pages) ==>
                p in store.pages && store.pages[p] == old(store.pages[p])
    {
      this.store := store;
      var p := store.Alloc();
      root, chain := p, [p];
      new;
      EmptyRows(p);
      hide Sound, EmptyPage, Rows, Free, HeaderOf;
      store.Write(p, EmptyPage(p));
      assert LinkOK(store.pages, chain, 0);
    }

    /** Walks the chain to the first page with room; 0 when there is none. */
    method FindRoom(n: nat) returns (page: PageId, last: PageId)
      requires Valid()
      ensures var k := FirstFit(Layout(), n);
              && page == (if k < |chain| then chain[k] else 0)
              && last == chain[if k < |chain| then k else |chain| - 1]
    {
      hide Sound, LinkOK, NoPageTwice, View, HeaderOf, FirstFit;
      page, last := root, root;
      ghost var k, l := 0, Layout();
      PageAt(store.pages, chain, 0);
      assert NoRoomBefore(l, n, 0);
      hide NoRoomBefore;
      while page != 0
        invariant k <= |chain| && page == (if k < |chain| then chain[k] else 0)
        invariant (page != 0 <==> k < |chain|) && (k > 0 ==> last == chain[k - 1])
        invariant NoRoomBefore(l, n, k)
        decreases |chain| - k
      {
        PageAt(store.pages, chain, k);
        var data := store.Read(page);
        last := page;
        if HeaderOf(data).freeSpace >= n + SLOT_SIZE {
          break;
        }
        page := HeaderOf(data).nextPage;
        NoRoomNext(l, n, k);
        k := k + 1;
        if k < |chain| {
          PageAt(store.pages, chain, k);
        }
      }
      FirstFitUnique(l, n, k);
    }

    /** Chains a fresh empty page behind the last one. */
    method Extend(last: PageId) returns (p: PageId)
      requires Valid() && store.Room(1) && last == chain[|chain| - 1]
      modifies this, store
      ensures Valid() && chain == old(chain) + [p] && p !in old(store.pages) && store.next == old(store.next) + 1
      ensures Layout() == old(Layout()) + [NewPage(p)]
      ensures Elsewhere(old(store.pages), store.pages, old(chain))
    {
      hide LinkOK, NoPageTwice, View, EmptyPage, Relinked, Counted, SlotsOK, Parse;
      ghost var before := store.pages;
      PageAt(before, chain, |chain| - 1);
      ChainKnown(before, chain);
      p := store.Alloc();
      var data := store.Read(last);
      store.Write(last, Relinked(data, p));
      store.Write(p, EmptyPage(p));
      ChainExtended(before, chain, p);
      assert store.pages == before[last := Relinked(data, p)][p := EmptyPage(p)];
      chain := chain + [p];
    }

    /** Puts a row on page k of the chain if it fits there. */
    method PutRow(page: PageId, row: Bytes, ghost k: nat) returns (r: Result<RowId, PageError>)
      requires Valid() && k < |chain| && page == chain[k] && row != []
      modifies store
      ensures Valid() && store.next == old(store.next) && store.pages.Keys == old(store.pages.Keys)
      ensures Elsewhere(old(store.pages), store.pages, chain)
      ensures var l := old(Layout());
              if l[k].free >= |row| + SLOT_SIZE
              then r == Ok(RowId(page, |l[k].rows|)) && Layout() == l[k := NewRow(l[k], row)]
                   && 0 < page < U32_LIMIT && |l[k].rows| < U16_LIMIT
              else r == Err(NotEnoughSpace) && Layout() == l
    {
      hide SlotsOK, Counted, LinkOK, NoPageTwice, Parse;
      PageAt(store.pages, chain, k);
      ghost var before := store.pages;
      var data := store.Read(page);
      var image := new Page(data);
      var slot := image.InsertRow(row);
      if slot.Err? {
        return Err(slot.error);
      }
      store.Write(page, image.data);
      PageRewritten(before, chain, k, image.data);
      RowsFew(data);
      r := Ok(RowId(page, slot.value));
    }

    /** First fit along the chain; a page is chained when none has room. The row of a page that
        is too small even when empty is refused after that. `spare` is the page chained, or one
        that could have been. */
    method InsertRow(row: Bytes) returns (r: Result<RowId, PageError>, ghost spare: PageId)
      requires Valid() && store.Room(1) && row != []
      modifies this, store
      ensures Valid() && FreshIn(old(Layout()), spare)
      ensures Layout() == Insert(old(Layout()), row, spare)
      ensures r == match InsertedId(old(Layout()), row, spare) case Some(id) => Ok(id) case None => Err(NotEnoughSpace)
      ensures Elsewhere(old(store.pages), store.pages, old(chain)) && store.next <= old(store.next) + 1
      ensures forall p :: p in chain ==> p in old(chain) || p !in old(store.pages)
      ensures r.Ok? ==> 0 < r.value.page < U32_LIMIT && r.value.slot < U16_LIMIT
    {
      hide LinkOK, NoPageTwice, Sound, View, FirstFit, Elsewhere;
      ChainKnown(store.pages, chain);
      ghost var before := store.pages;
      var page, last := FindRoom(|row|);
      ghost var k := FirstFit(Layout(), |row|);
      spare := store.next;
      if page == 0 {
        page := Extend(last);
        spare := page;
      }
      ghost var between := store.pages;
      r := PutRow(page, row, k);
      ElsewhereTwice(before, between, store.pages, old(chain), chain);
    }

    /** The row an id denotes, for ids of pages of the chain. */
    method GetRow(id: RowId) returns (row: Option<Bytes>)
      requires Valid() && id.page in chain
      ensures row == Lookup(Layout(), id)
    {
      ghost var k :| 0 <= k < |chain| && chain[k] == id.page;
      ViewDistinct(store.pages, chain);
      hide LinkOK, NoPageTwice, SlotsOK, Counted, Parse;
      PageAt(store.pages, chain, k);
      var data := store.Read(id.page);
      LookupAt(Layout(), k, id.slot);
      var image := new Page(data);
      row := image.GetRow(id.slot);
    }

    /** Frees the slot; a slot that was never used is an error. */
    method DeleteRow(id: RowId) returns (r: Result<(), PageError>)
      requires Valid() && id.page in chain
      modifies store
      ensures Valid() && Layout() == Delete(old(Layout()), id) && store.next == old(store.next)
      ensures r == if Issued(old(Layout()), id) then Ok(()) else Err(SlotOutOfRange)
      ensures Elsewhere(old(store.pages), store.pages, chain)
    {
      hide LinkOK, NoPageTwice, SlotsOK, Counted, Parse, Delete, Issued, Distinct;
      ghost var k :| 0 <= k < |chain| && chain[k] == id.page;
      ghost var before := store.pages;
      ViewDistinct(before, chain);
      DeleteAt(Layout(), k, id);
      PageAt(before, chain, k);
      var data := store.Read(id.page);
      var image := new Page(data);
      r := image.DeleteRow(id.slot);
      if r.Err? {
        return;
      }
      store.Write(id.page, image.data);
      PageRewritten(before, chain, k, image.data);
    }

    /** All live rows, page after page along the links and slot after slot. */
    method ScanRows() returns (found: seq<Found>)
      requires Valid()
      ensures found == Scan(Layout())
    {
      hide LinkOK, NoPageTwice, Sound, Parse, ScanSlots, HeaderOf, PageView, Scan;
      found := [];
      var page := root;
      ghost var k, l := 0, Layout();
      PageAt(store.pages, chain, 0);
      ScanNone(l);
      while page != 0
        invariant k <= |chain| && page == (if k < |chain| then chain[k] else 0)
        invariant page != 0 <==> k < |chain|
        invariant found == Scan(l[..k])
        decreases |chain| - k
      {
        PageAt(store.pages, chain, k);
        var data := store.Read(page);
        var live := ScanPage(page, data);
        ScanNext(l, k);
        found := found + live;
        page := HeaderOf(data).nextPage;
        k := k + 1;
        if k < |chain| {
          PageAt(store.pages, chain, k);
        }
      }
      assert l[..k] == l;
    }

    method ScanPage(page: PageId, data: Bytes) returns (live: seq<Found>)
      requires Sound(data)
      ensures var p := PageView(page, data); live == ScanSlots(p, |p.rows|)
    {
      hide SlotsOK, Parse, ReadSlot, RowIn;
      live := [];
      var image := new Page(data);
      ghost var p := PageView(page, data);
      var n := HeaderOf(data).slotCount;
      hide Sound, Counted, HeaderOf;
      for i := 0 to n
        invariant image.data == data && live == ScanSlots(p, i)
      {
        var row := image.GetRow(i);
        if row.Some? {
          live := live + [(RowId(page, i), row.value)];
        }
      }
    }
  }
}
