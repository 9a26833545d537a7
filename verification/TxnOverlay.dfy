/** What a transaction sees: its own shadow pages laid over the base pages. */
module TxnOverlay {
  import opened ByteCodec
  import opened RowIds

  type TxnId = int

  type Pages = map<PageId, Bytes>

  /** The shadow page of each page a transaction has written. */
  type Shadows = map<PageId, PageId>

  /** The base pages as a transaction with these shadows reads them. */
  ghost function Overlay(pages: Pages, shadows: Shadows, base: set<PageId>): Pages
    requires forall p :: p in base ==> p in pages && (p in shadows ==> shadows[p] in pages)
  {
    map p | p in base :: pages[if p in shadows then shadows[p] else p]
  }

  ghost function Base(pages: Pages, base: set<PageId>): Pages
    requires forall p :: p in base ==> p in pages
  {
    map p | p in base :: pages[p]
  }

  /** Shadow pages exist, belong to base pages, and are no base pages themselves. */
  ghost predicate ShadowOK(pages: Pages, base: set<PageId>, shadows: Shadows, p: PageId)
    requires p in shadows
  {
    p in base && shadows[p] in pages && shadows[p] !in base
  }

  ghost predicate Apart(active: map<TxnId, Shadows>, t: TxnId, p: PageId, u: TxnId, q: PageId)
    requires t in active && u in active && p in active[t] && q in active[u]
  {
    t != u || p != q ==> active[t][p] != active[u][q]
  }

  /** No two shadow pages coincide, within a transaction or across transactions. */
  ghost predicate Sound(pages: Pages, base: set<PageId>, active: map<TxnId, Shadows>) {
    && (forall p :: p in base ==> p in pages)
    && (forall t, p :: t in active && p in active[t] ==> ShadowOK(pages, base, active[t], p))
    && forall t, p, u, q :: t in active && p in active[t] && u in active && q in active[u] ==> Apart(active, t, p, u, q)
  }

  /** The page is nobody's: no base page and no shadow page. */
  ghost predicate Unused(base: set<PageId>, active: map<TxnId, Shadows>, s: PageId) {
    s !in base && forall t, p :: t in active && p in active[t] ==> active[t][p] != s
  }

  /** Overwriting a transaction's shadow page changes its overlay at that page, and neither the
      base nor any other overlay. */
  lemma ShadowWritten(pages: Pages, base: set<PageId>, active: map<TxnId, Shadows>, t: TxnId, p: PageId, data: Bytes)
    requires Sound(pages, base, active) && t in active && p in active[t]
    ensures var pages' := pages[active[t][p] := data];
            && Sound(pages', base, active)
            && Overlay(pages', active[t], base) == Overlay(pages, active[t], base)[p := data]
            && Base(pages', base) == Base(pages, base)
            && forall u :: u in active && u != t ==> Overlay(pages', active[u], base) == Overlay(pages, active[u], base)
  {
    var pages' := pages[active[t][p] := data];
    assert ShadowOK(pages, base, active[t], p);
    forall u, q | u in active && q in active[u]
      ensures ShadowOK(pages', base, active[u], q)
    {
      assert ShadowOK(pages, base, active[u], q);
    }
    forall u, q | u in active && q in active[u] && (u != t || q != p)
      ensures pages'[active[u][q]] == pages[active[u][q]]
    {
      assert Apart(active, t, p, u, q) && ShadowOK(pages, base, active[u], q);
    }
    hide ShadowOK, Apart;
  }

  /** A new shadow page holding a copy of its base page shows nobody anything. */
  lemma ShadowAdded(pages: Pages, base: set<PageId>, active: map<TxnId, Shadows>, t: TxnId, p: PageId, s: PageId)
    requires Sound(pages, base, active) && t in active && p in base && p !in active[t] && Unused(base, active, s)
    ensures var pages', active' := pages[s := pages[p]], active[t := active[t][p := s]];
            && Sound(pages', base, active')
            && Base(pages', base) == Base(pages, base)
            && forall u :: u in active ==> Overlay(pages', active'[u], base) == Overlay(pages, active[u], base)
  {
    var pages', active' := pages[s := pages[p]], active[t := active[t][p := s]];
    forall u, q | u in active' && q in active'[u]
      ensures ShadowOK(pages', base, active'[u], q)
      ensures u != t || q != p ==> q in active[u] && active'[u][q] == active[u][q] && active[u][q] != s
    {
      assert (u != t || q != p) ==> q in active[u] && ShadowOK(pages, base, active[u], q);
    }
    forall u, q, v, r | u in active' && q in active'[u] && v in active' && r in active'[v]
      ensures Apart(active', u, q, v, r)
    {
      if (u != t || q != p) && (v != t || r != p) {
        assert Apart(active, u, q, v, r);
      }
    }
    hide ShadowOK, Apart, Sound;
    OverlaysSame(pages, base, active, t, p, s);
  }

  lemma OverlaysSame(pages: Pages, base: set<PageId>, active: map<TxnId, Shadows>, t: TxnId, p: PageId, s: PageId)
    requires Sound(pages, base, active) && t in active && p in base && p !in active[t] && Unused(base, active, s)
    requires Sound(pages[s := pages[p]], base, active[t := active[t][p := s]])
    ensures var pages', active' := pages[s := pages[p]], active[t := active[t][p := s]];
            && Base(pages', base) == Base(pages, base)
            && forall u :: u in active ==> Overlay(pages', active'[u], base) == Overlay(pages, active[u], base)
  {
    var pages', active' := pages[s := pages[p]], active[t := active[t][p := s]];
    forall u | u in active
      ensures Overlay(pages', active'[u], base) == Overlay(pages, active[u], base)
    {
      forall q | q in base
        ensures Overlay(pages', active'[u], base)[q] == Overlay(pages, active[u], base)[q]
      {
        assert q in active[u] ==> ShadowOK(pages, base, active[u], q) && active[u][q] != s;
      }
    }
  }

  /** A transaction without shadow pages reads the base. */
  lemma NoShadows(pages: Pages, base: set<PageId>, active: map<TxnId, Shadows>, t: TxnId)
    requires Sound(pages, base, active) && t !in active
    ensures Sound(pages, base, active[t := map[]]) && Overlay(pages, map[], base) == Base(pages, base)
  {
    var active' := active[t := map[]];
    forall u, p | u in active' && p in active'[u]
      ensures u in active && p in active[u] && ShadowOK(pages, base, active[u], p)
    {
      assert u in active && p in active[u];
    }
    forall u, q, v, r | u in active' && q in active'[u] && v in active' && r in active'[v]
      ensures Apart(active', u, q, v, r)
    {
      assert Apart(active, u, q, v, r);
    }
    hide ShadowOK, Apart;
  }

  /** The pages once the shadow pages of the pages named have been copied over them. */
  ghost function Copied(pages: Pages, shadows: Shadows, done: set<PageId>): Pages
    requires forall p :: p in done ==> p in shadows && shadows[p] in pages
  {
    map p | p in pages :: if p in done then pages[shadows[p]] else pages[p]
  }

  /** What a transaction with shadows `own` reads once another's shadows became the base: its own
      pages as before, all others as the other transaction left them. */
  ghost function Rebased(pages: Pages, own: Shadows, other: Shadows, base: set<PageId>): Pages
    requires forall p :: p in base ==>
               p in pages && (p in own ==> own[p] in pages) && (p in other ==> other[p] in pages)
  {
    map p | p in base :: if p in own then Overlay(pages, own, base)[p] else Overlay(pages, other, base)[p]
  }

  /** Copying all shadow pages of a transaction makes its overlay the base. The other
      transactions keep their shadow pages, and read the new base elsewhere. */
  lemma CopiedMeaning(pages: Pages, base: set<PageId>, active: map<TxnId, Shadows>, t: TxnId)
    requires Sound(pages, base, active) && t in active
    ensures forall p :: p in active[t] ==> p in pages && active[t][p] in pages && active[t][p] !in active[t]
    ensures var pages' := Copied(pages, active[t], active[t].Keys);
            && Sound(pages', base, active - {t})
            && Base(pages', base) == Overlay(pages, active[t], base)
            && forall u :: u in active && u != t ==>
                 Overlay(pages', active[u], base)
                 == Rebased(pages, active[u], active[t], base)
  {
    forall u, p | u in active && p in active[u]
      ensures ShadowOK(pages, base, active[u], p) && active[u][p] !in active[t]
    {
      assert ShadowOK(pages, base, active[u], p);
      assert active[u][p] in active[t] ==> ShadowOK(pages, base, active[t], active[u][p]);
    }
    var pages' := Copied(pages, active[t], active[t].Keys);
    assert forall u, p :: u in active && p in active[u] ==> pages'[active[u][p]] == pages[active[u][p]];
    SoundWithout(pages, base, active, t);
    SoundElsewhere(pages, pages', base, active - {t});
    hide Sound, ShadowOK;
  }

  lemma SoundWithout(pages: Pages, base: set<PageId>, active: map<TxnId, Shadows>, t: TxnId)
    requires Sound(pages, base, active)
    ensures Sound(pages, base, active - {t})
  {
    var active' := active - {t};
    forall u, p | u in active' && p in active'[u]
      ensures ShadowOK(pages, base, active'[u], p)
    {
      assert ShadowOK(pages, base, active[u], p);
    }
    forall u, q, v, r | u in active' && q in active'[u] && v in active' && r in active'[v]
      ensures Apart(active', u, q, v, r)
    {
      assert Apart(active, u, q, v, r);
    }
    hide ShadowOK, Apart;
  }

  lemma SoundElsewhere(pages: Pages, pages': Pages, base: set<PageId>, active: map<TxnId, Shadows>)
    requires Sound(pages, base, active) && forall p :: p in base ==> p in pages'
    requires forall t, p :: t in active && p in active[t] ==> active[t][p] in pages'
    ensures Sound(pages', base, active)
  {
    forall u, p | u in active && p in active[u]
      ensures ShadowOK(pages', base, active[u], p)
    {
      assert ShadowOK(pages, base, active[u], p);
    }
    hide Apart;
  }

  function ShadowIds(shadows: Shadows): set<PageId> {
    set p | p in shadows :: shadows[p]
  }

  lemma OthersShadow(pages: Pages, base: set<PageId>, active: map<TxnId, Shadows>, t: TxnId, u: TxnId, p: PageId)
    requires Sound(pages, base, active) && t in active && u in active && u != t && p in active[u]
    ensures active[u][p] in pages && active[u][p] !in ShadowIds(active[t])
  {
    assert ShadowOK(pages, base, active[u], p);
    forall q | q in active[t]
      ensures active[t][q] != active[u][p]
    {
      assert Apart(active, t, q, u, p);
    }
  }

  /** The pages a transaction alone has as shadow pages matter to no other. */
  lemma UnusedPages(pages: Pages, pages': Pages, base: set<PageId>, active: map<TxnId, Shadows>, t: TxnId)
    requires Sound(pages, base, active) && t in active
    requires forall p :: p in pages && p !in ShadowIds(active[t]) ==> p in pages' && pages'[p] == pages[p]
    ensures Sound(pages', base, active - {t})
    ensures Base(pages', base) == Base(pages, base)
    ensures forall u :: u in active - {t} ==> Overlay(pages', active[u], base) == Overlay(pages, active[u], base)
  {
    forall p | p in base
      ensures p in pages' && pages'[p] == pages[p]
    {
      forall q | q in active[t]
        ensures active[t][q] != p
      {
        assert ShadowOK(pages, base, active[t], q);
      }
    }
    forall u, p | u in active && u != t && p in active[u]
      ensures active[u][p] in pages' && pages'[active[u][p]] == pages[active[u][p]]
    {
      OthersShadow(pages, base, active, t, u, p);
      var s := active[u][p];
      assert pages'[s] == pages[s];
    }
    SoundWithout(pages, base, active, t);
    SoundElsewhere(pages, pages', base, active - {t});
    assert forall u :: u in active - {t} ==> (active - {t})[u] == active[u];
    OverlaysUnused(pages, pages', base, active - {t});
  }

  /** More pages matter to nobody. */
  lemma MorePages(pages: Pages, pages': Pages, base: set<PageId>, active: map<TxnId, Shadows>)
    requires Sound(pages, base, active)
    requires forall p :: p in pages ==> p in pages' && pages'[p] == pages[p]
    ensures Sound(pages', base, active) && Base(pages', base) == Base(pages, base)
    ensures forall u :: u in active ==> Overlay(pages', active[u], base) == Overlay(pages, active[u], base)
  {
    forall u, p | u in active && p in active[u]
      ensures active[u][p] in pages && active[u][p] in pages' && pages'[active[u][p]] == pages[active[u][p]]
    {
      assert ShadowOK(pages, base, active[u], p);
      var s := active[u][p];
      assert pages'[s] == pages[s];
    }
    SoundElsewhere(pages, pages', base, active);
    OverlaysUnused(pages, pages', base, active);
  }

  lemma OverlaysUnused(pages: Pages, pages': Pages, base: set<PageId>, active: map<TxnId, Shadows>)
    requires Sound(pages, base, active) && Sound(pages', base, active)
    requires forall p :: p in base ==> pages'[p] == pages[p]
    requires forall u, p :: u in active && p in active[u] ==>
               active[u][p] in pages && active[u][p] in pages' && pages'[active[u][p]] == pages[active[u][p]]
    ensures Base(pages', base) == Base(pages, base)
    ensures forall u :: u in active ==> Overlay(pages', active[u], base) == Overlay(pages, active[u], base)
  {
    hide Apart, ShadowOK;
    forall p | p in base
      ensures Base(pages', base)[p] == Base(pages, base)[p]
    {
    }
    forall u | u in active
      ensures Overlay(pages', active[u], base) == Overlay(pages, active[u], base)
    {
      forall p | p in base
        ensures Overlay(pages', active[u], base)[p] == Overlay(pages, active[u], base)[p]
      {
        assert pages'[p] == pages[p];
      }
    }
  }

  /** Base pages and shadow pages are in use. */
  ghost predicate InUse(base: set<PageId>, active: map<TxnId, Shadows>, used: set<PageId>) {
    base <= used && forall t, p :: t in active && p in active[t] ==> active[t][p] in used
  }

  /** A page not in use so far is nobody's. */
  lemma MoreInUse(base: set<PageId>, active: map<TxnId, Shadows>, used: set<PageId>, s: PageId)
    requires InUse(base, active, used) && s !in used
    ensures InUse(base, active, used + {s}) && Unused(base, active, s)
  {
  }

  /** Without the shadow pages of a transaction. */
  lemma InUseWithout(pages: Pages, base: set<PageId>, active: map<TxnId, Shadows>, t: TxnId, used: set<PageId>,
                     used': set<PageId>)
    requires Sound(pages, base, active) && t in active && InUse(base, active, used)
    requires used - ShadowIds(active[t]) <= used'
    ensures InUse(base, active - {t}, used')
  {
    forall p | p in base
      ensures p in used'
    {
      forall q | q in active[t]
        ensures active[t][q] != p
      {
        assert ShadowOK(pages, base, active[t], q);
      }
    }
    forall u, p | u in active - {t} && p in active[u]
      ensures active[u][p] in used'
    {
      OthersShadow(pages, base, active, t, u, p);
    }
  }
}
