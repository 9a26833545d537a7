/** Version chains as linked objects, newest first, and their in-place garbage collection. */
module MvccManager {
  import opened Wrappers
  import opened ByteCodec
  import opened MvccSpec
  import opened RowIds

  class PageVersion {
    const data: Bytes
    const created: Txn
    var deleted: Option<Txn>
    var next: PageVersion?

    constructor (data: Bytes, created: Txn)
      ensures this.data == data && this.created == created && deleted == None && next == null
    {
      this.data, this.created := data, created;
      deleted, next := None, null;
    }

    ghost function Value(): Version
      reads this
    {
      Version(data, created, deleted)
    }
  }

  type Chain = seq<PageVersion>

  /** A picture of the objects: the chain of each page, the page each version is at home on,
      who links to whom, and what each version says. */
  datatype Picture = Picture(chains: map<PageId, Chain>, home: map<PageVersion, PageId>,
                             links: map<PageVersion, PageVersion?>, values: map<PageVersion, Version>)

  ghost predicate NoRepeat(c: Chain) {
    forall i, j :: 0 <= i < j < |c| ==> c[i] != c[j]
  }

  ghost predicate LinkOK(links: map<PageVersion, PageVersion?>, c: Chain, i: int)
    requires 0 <= i < |c|
  {
    c[i] in links && links[c[i]] == if i + 1 < |c| then c[i + 1] else null
  }

  /** The members of c are linked one after the other, the last to null. */
  ghost predicate Linked(links: map<PageVersion, PageVersion?>, c: Chain) {
    forall i :: 0 <= i < |c| ==> LinkOK(links, c, i)
  }

  ghost predicate ChainOK(links: map<PageVersion, PageVersion?>, c: Chain, head: PageVersion) {
    c != [] && c[0] == head && NoRepeat(c) && Linked(links, c)
  }

  /** The known versions are exactly the members of the chains, each at home on one page. */
  ghost predicate Housed(chains: map<PageId, Chain>, home: map<PageVersion, PageId>) {
    && (forall p, n :: p in chains && n in chains[p] ==> n in home && home[n] == p)
    && (forall n :: n in home ==> home[n] in chains && n in chains[home[n]])
  }

  ghost predicate ChainsOK(versions: map<PageId, PageVersion>, pic: Picture) {
    && versions.Keys == pic.chains.Keys
    && Housed(pic.chains, pic.home)
    && pic.links.Keys == pic.home.Keys == pic.values.Keys
    && forall p :: p in pic.chains ==> ChainOK(pic.links, pic.chains[p], versions[p])
  }

  ghost function Values(values: map<PageVersion, Version>, c: Chain): (vs: seq<Version>)
    requires forall n :: n in c ==> n in values
    ensures |vs| == |c| && forall i :: 0 <= i < |c| ==> vs[i] == values[c[i]]
  {
    seq(|c|, i requires 0 <= i < |c| => values[c[i]])
  }

  ghost function ChainOf(pic: Picture, p: PageId): Chain {
    if p in pic.chains then pic.chains[p] else []
  }

  /** The chain of a page as values; empty when the page has none. */
  ghost function ContentsOf(versions: map<PageId, PageVersion>, pic: Picture, p: PageId): seq<Version>
    requires ChainsOK(versions, pic)
  {
    Values(pic.values, ChainOf(pic, p))
  }

  // ----- a new head -----

  ghost function Pushed(versions: map<PageId, PageVersion>, pic: Picture, p: PageId, v: PageVersion, value: Version)
    : Picture
  {
    Picture(pic.chains[p := [v] + ChainOf(pic, p)], pic.home[v := p],
            pic.links[v := if p in versions then versions[p] else null], pic.values[v := value])
  }

  lemma PushKeeps(versions: map<PageId, PageVersion>, pic: Picture, p: PageId, v: PageVersion, value: Version)
    requires ChainsOK(versions, pic) && v !in pic.home
    ensures ChainsOK(versions[p := v], Pushed(versions, pic, p, v, value))
  {
    hide ChainOK;
    var links := pic.links[v := if p in versions then versions[p] else null];
    forall q | q in pic.chains && q != p
      ensures ChainOK(links, pic.chains[q], versions[q])
    {
      OtherLinks(pic.links, links, pic.chains[q], v, versions[q]);
    }
    PushLinked(versions, pic, p, v);
    PushHoused(pic.chains, pic.home, p, v);
  }

  lemma PushedMirrors(versions: map<PageId, PageVersion>, pic: Picture, p: PageId, v: PageVersion, value: Version)
    requires ChainsOK(versions, pic) && v !in pic.home
    ensures var pic' := Pushed(versions, pic, p, v, value);
            && pic'.home.Keys == pic'.links.Keys == pic'.values.Keys == pic.home.Keys + {v}
            && pic'.links[v] == (if p in versions then versions[p] else null) && pic'.values[v] == value
            && forall n :: n in pic.home ==> pic'.links[n] == pic.links[n] && pic'.values[n] == pic.values[n]
  {
    hide Housed, ChainOK, ChainOf;
  }

  lemma PushLinked(versions: map<PageId, PageVersion>, pic: Picture, p: PageId, v: PageVersion)
    requires ChainsOK(versions, pic) && v !in pic.home
    ensures ChainOK(pic.links[v := if p in versions then versions[p] else null], [v] + ChainOf(pic, p), v)
  {
    var c := ChainOf(pic, p);
    var d := [v] + c;
    var links := pic.links[v := if p in versions then versions[p] else null];
    assert p in pic.chains ==> ChainOK(pic.links, c, versions[p]);
    forall i | 0 <= i < |d|
      ensures LinkOK(links, d, i)
    {
      if i > 0 {
        assert LinkOK(pic.links, c, i - 1);
        assert c[i - 1] in c;
      }
    }
  }

  lemma PushHoused(chains: map<PageId, Chain>, home: map<PageVersion, PageId>, p: PageId, v: PageVersion)
    requires Housed(chains, home) && v !in home
    ensures Housed(chains[p := [v] + if p in chains then chains[p] else []], home[v := p])
  {
    var c := if p in chains then chains[p] else [];
    assert forall n :: n in [v] + c <==> n == v || n in c;
  }

  /** A link that is not of the chain does not matter to it. */
  lemma OtherLinks(links: map<PageVersion, PageVersion?>, links': map<PageVersion, PageVersion?>, c: Chain,
                   x: PageVersion, head: PageVersion)
    requires ChainOK(links, c, head) && x !in c
    requires forall n :: n in links && n != x ==> n in links' && links'[n] == links[n]
    ensures ChainOK(links', c, head)
  {
    forall i | 0 <= i < |c|
      ensures LinkOK(links', c, i)
    {
      assert LinkOK(links, c, i) && c[i] in c;
    }
  }

  lemma PushContents(versions: map<PageId, PageVersion>, pic: Picture, p: PageId, v: PageVersion, value: Version,
                     q: PageId)
    requires ChainsOK(versions, pic) && v !in pic.home
    requires ChainsOK(versions[p := v], Pushed(versions, pic, p, v, value))
    ensures ContentsOf(versions[p := v], Pushed(versions, pic, p, v, value), q)
            == (if q == p then [value] else []) + ContentsOf(versions, pic, q)
  {
    var c := ChainOf(pic, q);
    assert forall n :: n in c ==> n in pic.values && n != v by {
      hide ChainOK, Pushed;
    }
    hide ChainsOK;
    ValuesPush(pic.values, c, v, value);
  }

  lemma ValuesPush(values: map<PageVersion, Version>, c: Chain, v: PageVersion, value: Version)
    requires forall n :: n in c ==> n in values && n != v
    ensures Values(values[v := value], c) == Values(values, c)
    ensures forall n :: n in [v] + c ==> n in values[v := value]
    ensures Values(values[v := value], [v] + c) == [value] + Values(values, c)
  {
    assert forall i :: 0 <= i < |c| ==> c[i] in c;
  }

  // ----- unlinking -----

  ghost function Cut(c: Chain, k: nat): Chain
    requires k < |c|
  {
    c[..k] + c[k + 1..]
  }

  ghost function CutChains(chains: map<PageId, Chain>, p: PageId, k: nat): map<PageId, Chain>
    requires p in chains && k < |chains[p]|
  {
    if |chains[p]| == 1 then chains - {p} else chains[p := Cut(chains[p], k)]
  }

  /** The predecessor is made to skip the version, which keeps its own link. */
  ghost function CutLinks(links: map<PageVersion, PageVersion?>, c: Chain, k: nat): map<PageVersion, PageVersion?>
    requires k < |c| && c[k] in links
  {
    (if k == 0 then links else links[c[k - 1] := links[c[k]]]) - {c[k]}
  }

  /** The dictionary of heads once version k of page p is unlinked. */
  ghost function CutHeads(versions: map<PageId, PageVersion>, c: Chain, p: PageId, k: nat): map<PageId, PageVersion>
    requires k < |c|
  {
    if k > 0 then versions else if |c| == 1 then versions - {p} else versions[p := c[1]]
  }

  ghost function CutPicture(pic: Picture, p: PageId, k: nat): Picture
    requires p in pic.chains && k < |pic.chains[p]| && pic.chains[p][k] in pic.links
  {
    var c := pic.chains[p];
    Picture(CutChains(pic.chains, p, k), pic.home - {c[k]}, CutLinks(pic.links, c, k), pic.values - {c[k]})
  }

  lemma CutHoused(chains: map<PageId, Chain>, home: map<PageVersion, PageId>, p: PageId, k: nat)
    requires Housed(chains, home) && p in chains && k < |chains[p]| && NoRepeat(chains[p])
    ensures Housed(CutChains(chains, p, k), home - {chains[p][k]})
  {
    var c, d := chains[p], Cut(chains[p], k);
    var chains', home' := CutChains(chains, p, k), home - {c[k]};
    assert c[k] in c && home[c[k]] == p;
    assert forall n :: n in d <==> n in c && n != c[k];
    forall q, n | q in chains' && n in chains'[q]
      ensures n in home' && home'[n] == q
    {
      assert n in chains[q];
    }
    forall n | n in home'
      ensures home'[n] in chains' && n in chains'[home'[n]]
    {
      assert n in chains[home[n]];
      if home[n] == p {
        assert n in d;
      }
    }
  }

  lemma CutLinked(links: map<PageVersion, PageVersion?>, c: Chain, k: nat)
    requires Linked(links, c) && NoRepeat(c) && k < |c| && c[k] in links
    ensures Linked(CutLinks(links, c, k), Cut(c, k)) && NoRepeat(Cut(c, k))
  {
    var d := Cut(c, k);
    assert LinkOK(links, c, k);
    forall i | 0 <= i < |d|
      ensures LinkOK(CutLinks(links, c, k), d, i)
    {
      assert LinkOK(links, c, if i < k then i else i + 1);
    }
  }

  lemma OtherCut(links: map<PageVersion, PageVersion?>, chains: map<PageId, Chain>, home: map<PageVersion, PageId>,
                 p: PageId, k: nat, q: PageId, head: PageVersion)
    requires Housed(chains, home) && p in chains && q in chains && p != q && k < |chains[p]| && chains[p][k] in links
    requires ChainOK(links, chains[q], head)
    ensures ChainOK(CutLinks(links, chains[p], k), chains[q], head)
  {
    var c, d := chains[p], chains[q];
    assert c[k] in c && home[c[k]] == p;
    assert k > 0 ==> c[k - 1] in c && home[c[k - 1]] == p;
    forall i | 0 <= i < |d|
      ensures LinkOK(CutLinks(links, c, k), d, i)
    {
      assert LinkOK(links, d, i);
      assert d[i] in d && home[d[i]] == q;
    }
  }

  lemma Member(versions: map<PageId, PageVersion>, pic: Picture, p: PageId, k: nat)
    requires ChainsOK(versions, pic) && p in pic.chains && k < |pic.chains[p]|
    ensures var n := pic.chains[p][k];
            n in pic.links && n in pic.home && n in pic.values && LinkOK(pic.links, pic.chains[p], k)
  {
    var c := pic.chains[p];
    assert c[k] in c && ChainOK(pic.links, c, versions[p]);
  }

  lemma CutKeeps(versions: map<PageId, PageVersion>, pic: Picture, p: PageId, k: nat)
    requires ChainsOK(versions, pic) && p in pic.chains && k < |pic.chains[p]|
    requires pic.chains[p][k] in pic.links
    ensures ChainsOK(CutHeads(versions, pic.chains[p], p, k), CutPicture(pic, p, k))
  {
    var c := pic.chains[p];
    assert ChainOK(pic.links, c, versions[p]);
    assert c[k] in c && (k > 0 ==> c[k - 1] in c);
    CutHoused(pic.chains, pic.home, p, k);
    CutLinked(pic.links, c, k);
    forall q | q in pic.chains && q != p
      ensures ChainOK(CutLinks(pic.links, c, k), pic.chains[q], versions[q])
    {
      OtherCut(pic.links, pic.chains, pic.home, p, k, q, versions[q]);
    }
    hide Housed, Linked, NoRepeat, CutLinks;
  }

  /** The object is as pictured. */
  ghost predicate Shows(n: PageVersion, pic: Picture)
    reads n
  {
    && n in pic.links && n.next == pic.links[n]
    && n in pic.values && n.Value() == pic.values[n]
  }

  lemma PushShown(versions: map<PageId, PageVersion>, pic: Picture, p: PageId, v: PageVersion)
    requires ChainsOK(versions, pic) && v !in pic.home
    requires forall n :: n in pic.home ==> Shows(n, pic)
    requires v.next == if p in versions then versions[p] else null
    ensures var pic' := Pushed(versions, pic, p, v, v.Value());
            && ChainsOK(versions[p := v], pic')
            && pic'.home.Keys == pic.home.Keys + {v}
            && (forall n :: n in pic'.home ==> Shows(n, pic'))
            && forall q :: ContentsOf(versions[p := v], pic', q)
                           == (if q == p then [v.Value()] else []) + ContentsOf(versions, pic, q)
  {
    var value, pic' := v.Value(), Pushed(versions, pic, p, v, v.Value());
    PushedMirrors(versions, pic, p, v, value);
    PushKeeps(versions, pic, p, v, value);
    hide ChainsOK, ContentsOf, ChainOf, Pushed;
    forall n | n in pic'.home
      ensures Shows(n, pic')
    {
      assert n == v || Shows(n, pic);
    }
    hide Shows;
    forall q {
      PushContents(versions, pic, p, v, value, q);
    }
  }

  /** In the heap after the unlinking of version k of page p, the picture without it is true. */
  lemma CutShown(versions: map<PageId, PageVersion>, pic: Picture, p: PageId, k: nat, prev: PageVersion?)
    requires ChainsOK(versions, pic) && p in pic.chains && k < |pic.chains[p]|
    requires pic.chains[p][k] in pic.links && prev == if k > 0 then pic.chains[p][k - 1] else null
    requires forall n :: n in pic.home && n != prev ==> Shows(n, pic)
    requires prev != null ==> prev in pic.values && prev.Value() == pic.values[prev]
    requires prev != null ==> prev.next == pic.links[pic.chains[p][k]]
    ensures var pic' := CutPicture(pic, p, k);
            && pic'.home.Keys == pic.home.Keys - {pic.chains[p][k]}
            && forall n :: n in pic'.home ==> Shows(n, pic')
  {
    var pic' := CutPicture(pic, p, k);
    var c := pic.chains[p];
    Member(versions, pic, p, k);
    assert NoRepeat(c) by {
      assert ChainOK(pic.links, c, versions[p]);
    }
    hide ChainOK, Housed;
    forall n | n in pic'.home
      ensures Shows(n, pic')
    {
      assert n == prev || Shows(n, pic);
    }
  }

  lemma CutContents(versions: map<PageId, PageVersion>, pic: Picture, p: PageId, k: nat, q: PageId)
    requires ChainsOK(versions, pic) && p in pic.chains && k < |pic.chains[p]| && pic.chains[p][k] in pic.links
    requires ChainsOK(CutHeads(versions, pic.chains[p], p, k), CutPicture(pic, p, k))
    ensures var before := ContentsOf(versions, pic, q);
            ContentsOf(CutHeads(versions, pic.chains[p], p, k), CutPicture(pic, p, k), q)
            == if q == p then Without(before, k) else before
  {
    var c, d := pic.chains[p], ChainOf(pic, q);
    CutApart(versions, pic, p, k, q);
    hide ChainsOK, NoRepeat, CutLinks, CutHeads;
    if q == p {
      ValuesCut(pic.values, c, k);
      assert |c| == 1 ==> Cut(c, k) == [];
      assert ChainOf(CutPicture(pic, p, k), p) == Cut(c, k);
    } else {
      assert ChainOf(CutPicture(pic, p, k), q) == d;
    }
  }

  /** What the other chains hold is not what was cut. */
  lemma CutApart(versions: map<PageId, PageVersion>, pic: Picture, p: PageId, k: nat, q: PageId)
    requires ChainsOK(versions, pic) && p in pic.chains && k < |pic.chains[p]|
    ensures NoRepeat(pic.chains[p])
    ensures forall n :: n in pic.chains[p] ==> n in pic.values
    ensures forall n :: n in ChainOf(pic, q) ==> n in pic.values && (q != p ==> n != pic.chains[p][k])
  {
    var c := pic.chains[p];
    assert ChainOK(pic.links, c, versions[p]) && c[k] in c;
    hide Linked;
  }

  lemma ValuesCut(values: map<PageVersion, Version>, c: Chain, k: nat)
    requires (forall n :: n in c ==> n in values) && NoRepeat(c) && k < |c|
    ensures (forall n :: n in Cut(c, k) ==> n in values - {c[k]})
    ensures Values(values - {c[k]}, Cut(c, k)) == Without(Values(values, c), k)
  {
    assert forall i :: 0 <= i < |c| ==> c[i] in c;
  }

  /** What an unlinking leaves: the picture without version k of page p, in a heap that shows it. */
  lemma CutAll(versions: map<PageId, PageVersion>, pic: Picture, p: PageId, k: nat, prev: PageVersion?)
    requires ChainsOK(versions, pic) && p in pic.chains && k < |pic.chains[p]|
    requires pic.chains[p][k] in pic.links && prev == if k > 0 then pic.chains[p][k - 1] else null
    requires forall n :: n in pic.home && n != prev ==> Shows(n, pic)
    requires prev != null ==> prev in pic.values && prev.Value() == pic.values[prev]
    requires prev != null ==> prev.next == pic.links[pic.chains[p][k]]
    ensures var versions', pic' := CutHeads(versions, pic.chains[p], p, k), CutPicture(pic, p, k);
            && ChainsOK(versions', pic')
            && (forall n :: n in pic'.home ==> Shows(n, pic'))
            && pic'.home.Keys == pic.home.Keys - {pic.chains[p][k]}
            && |pic'.home| == |pic.home| - 1
            && ChainOf(pic', p) == Cut(pic.chains[p], k)
            && forall q :: ContentsOf(versions', pic', q)
                           == if q == p then Without(ContentsOf(versions, pic, q), k) else ContentsOf(versions, pic, q)
  {
    CutKeeps(versions, pic, p, k);
    CutShown(versions, pic, p, k, prev);
    Member(versions, pic, p, k);
    CutChain(pic, p, k);
    var c := pic.chains[p];
    assert |pic.home.Keys - {c[k]}| == |pic.home.Keys| - 1;
    hide ChainsOK, ContentsOf, Shows, ChainOf, CutHeads, CutLinks;
    forall q {
      CutContents(versions, pic, p, k, q);
    }
    assert |CutPicture(pic, p, k).home| == |CutPicture(pic, p, k).home.Keys|;
    assert |pic.home| == |pic.home.Keys|;
  }

  lemma CutChain(pic: Picture, p: PageId, k: nat)
    requires p in pic.chains && k < |pic.chains[p]| && pic.chains[p][k] in pic.links
    ensures ChainOf(CutPicture(pic, p, k), p) == Cut(pic.chains[p], k)
  {
    var c := pic.chains[p];
    assert |c| == 1 ==> Cut(c, k) == [];
  }

  // ----- marking -----

  ghost function MarkedPicture(pic: Picture, v: PageVersion, deleter: Txn): Picture {
    if v in pic.values then pic.(values := pic.values[v := pic.values[v].(deleted := Some(deleter))]) else pic
  }

  lemma MarkKeeps(versions: map<PageId, PageVersion>, pic: Picture, p: PageId, k: nat, deleter: Txn)
    requires ChainsOK(versions, pic) && p in pic.chains && k < |pic.chains[p]|
    ensures var pic' := MarkedPicture(pic, pic.chains[p][k], deleter);
            && ChainsOK(versions, pic')
            && forall q :: var vs := ContentsOf(versions, pic, q);
                           (q == p ==> k < |vs|)
                           && ContentsOf(versions, pic', q)
                              == if q == p then vs[k := vs[k].(deleted := Some(deleter))] else vs
  {
    var c, pic' := pic.chains[p], MarkedPicture(pic, pic.chains[p][k], deleter);
    Member(versions, pic, p, k);
    forall q
      ensures var vs := ContentsOf(versions, pic, q);
              (q == p ==> k < |vs|)
              && ContentsOf(versions, pic', q) == if q == p then vs[k := vs[k].(deleted := Some(deleter))] else vs
    {
      MarkContents(versions, pic, p, k, deleter, q);
    }
    hide ContentsOf, ChainOK, Housed;
  }

  lemma MarkContents(versions: map<PageId, PageVersion>, pic: Picture, p: PageId, k: nat, deleter: Txn, q: PageId)
    requires ChainsOK(versions, pic) && p in pic.chains && k < |pic.chains[p]|
    ensures var pic' := MarkedPicture(pic, pic.chains[p][k], deleter);
            && ChainsOK(versions, pic')
            && var vs := ContentsOf(versions, pic, q);
               (q == p ==> k < |vs|)
               && ContentsOf(versions, pic', q) == if q == p then vs[k := vs[k].(deleted := Some(deleter))] else vs
  {
    Member(versions, pic, p, k);
    CutApart(versions, pic, p, k, q);
    hide ChainOK, Housed;
    var c, d := pic.chains[p], ChainOf(pic, q);
    assert forall i :: 0 <= i < |d| ==> d[i] in d;
    assert q == p ==> forall i :: 0 <= i < |d| && i != k ==> d[i] != c[k];
  }

  /** The walk stands at version k of the chain. */
  ghost predicate At(c: Chain, k: nat, prev: PageVersion?, current: PageVersion?) {
    && k <= |c|
    && current == (if k < |c| then c[k] else null)
    && prev == if k > 0 then c[k - 1] else null
  }

  lemma AtCut(c: Chain, k: nat, prev: PageVersion?, current: PageVersion, next: PageVersion?)
    requires At(c, k, prev, current) && k < |c| && next == if k + 1 < |c| then c[k + 1] else null
    ensures At(Cut(c, k), k, prev, next)
  {
  }

  /** Contents of page q when the pages named are still to be sifted. */
  ghost function HalfWay(before: imap<PageId, seq<Version>>, pages: set<PageId>, active: set<Txn>, q: PageId)
    : seq<Version>
    requires q in before
  {
    if q in pages then before[q] else Kept(before[q], active)
  }

  lemma StartHalfWay(before: imap<PageId, seq<Version>>, pages: set<PageId>, active: set<Txn>)
    requires forall q :: q in before
    requires forall q :: q !in pages ==> before[q] == []
    ensures forall q :: HalfWay(before, pages, active, q) == before[q]
  {
    KeptNothing(active);
  }

  lemma StepHalfWay(before: imap<PageId, seq<Version>>, pages: set<PageId>, active: set<Txn>, p: PageId)
    requires (forall q :: q in before) && p in pages
    ensures HalfWay(before, pages, active, p) == before[p]
    ensures forall q :: HalfWay(before, pages - {p}, active, q)
                        == if q == p then Kept(before[p], active) else HalfWay(before, pages, active, q)
  {
  }

  class MVCCManager {
    var versions: map<PageId, PageVersion>
    ghost var pic: Picture

    ghost predicate Valid()
      reads this, pic.home.Keys
    {
      && ChainsOK(versions, pic)
      && forall n :: n in pic.home ==> Shows(n, pic)
    }

    /** The chain of a page as values; empty when the page has none. */
    ghost function Contents(p: PageId): seq<Version>
      requires Valid()
      reads this, pic.home.Keys
    {
      ContentsOf(versions, pic, p)
    }

    /** How many versions the chains hold. */
    ghost function Known(): nat
      reads this`pic
    {
      |pic.home|
    }

    constructor ()
      ensures Valid() && versions == map[] && pic.home == map[]
    {
      versions := map[];
      pic := Picture(map[], map[], map[], map[]);
    }

    method CreateVersion(p: PageId, data: Bytes, txn: Txn) returns (v: PageVersion)
      requires Valid()
      modifies this
      ensures Valid() && fresh(v) && pic.home.Keys == old(pic.home.Keys) + {v}
      ensures Contents(p) == [Version(data, txn, None)] + old(Contents(p))
      ensures forall q :: q != p ==> Contents(q) == old(Contents(q))
    {
      hide ChainsOK, ContentsOf, ChainOf, Pushed;
      v := new PageVersion(data, txn);
      if p in versions {
        v.next := versions[p];
      }
      assert forall n :: n in pic.home ==> Shows(n, pic);
      hide Shows;
      PushShown(versions, pic, p, v);
      pic := Pushed(versions, pic, p, v, v.Value());
      versions := versions[p := v];
    }

    /** The newest version the snapshot sees, found by walking the links. */
    method GetVisibleVersion(p: PageId, snapshot: set<Txn>) returns (data: Option<Bytes>)
      requires Valid()
      ensures data == FirstVisible(Contents(p), snapshot)
      ensures data.Some? ==>
                exists k :: 0 <= k < |Contents(p)| && Contents(p)[k].data == data.value
                            && Contents(p)[k].created in snapshot
                            && (Contents(p)[k].deleted.Some? ==> Contents(p)[k].deleted.value !in snapshot)
                            && forall i :: 0 <= i < k ==>
                                 Contents(p)[i].created !in snapshot
                                 || (Contents(p)[i].deleted.Some? && Contents(p)[i].deleted.value in snapshot)
      ensures data.None? ==>
                forall k :: 0 <= k < |Contents(p)| ==>
                  Contents(p)[k].created !in snapshot
                  || (Contents(p)[k].deleted.Some? && Contents(p)[k].deleted.value in snapshot)
    {
      if p !in versions {
        return None;
      }
      var current: PageVersion? := versions[p];
      ghost var c, vs, k := ChainOf(pic, p), Contents(p), 0;
      while current != null
        invariant k <= |c| && current == if k < |c| then c[k] else null
        invariant FirstVisible(vs[k..], snapshot) == FirstVisible(vs, snapshot)
        invariant forall i :: 0 <= i < k && i < |vs| ==>
                    vs[i].created !in snapshot || (vs[i].deleted.Some? && vs[i].deleted.value in snapshot)
        decreases |c| - k
      {
        Member(versions, pic, p, k);
        assert Shows(current, pic);
        if current.created in snapshot && !(current.deleted.Some? && current.deleted.value in snapshot) {
          return Some(current.data);
        }
        current := current.next;
        assert vs[k..][1..] == vs[k + 1..];
        k := k + 1;
      }
      return None;
    }

    method Mark(p: PageId, ghost k: nat, current: PageVersion, deleter: Txn)
      requires Valid() && p in pic.chains && k < |pic.chains[p]| && current == pic.chains[p][k]
      modifies this`pic, current
      ensures Valid() && pic.home == old(pic.home)
      ensures k < |old(Contents(p))|
              && Contents(p) == old(Contents(p))[k := old(Contents(p))[k].(deleted := Some(deleter))]
      ensures forall q :: q != p ==> Contents(q) == old(Contents(q))
    {
      ContentsAt(p, k);
      ghost var pic' := MarkedPicture(pic, current, deleter);
      MarkKeeps(versions, pic, p, k, deleter);
      assert forall n :: n in pic.home ==> Shows(n, pic);
      hide ChainsOK, ContentsOf;
      current.deleted := Some(deleter);
      forall n | n in pic'.home
        ensures Shows(n, pic')
      {
        assert n == current || Shows(n, pic);
      }
      hide Shows, MarkedPicture;
      Repaint(pic');
    }

    /** Walks to the newest version of a creator. */
    method FindVersion(p: PageId, created: Txn) returns (current: PageVersion?, ghost k: nat)
      requires Valid()
      ensures k <= |Contents(p)| && forall i :: 0 <= i < k ==> Contents(p)[i].created != created
      ensures current == null ==> k == |Contents(p)|
      ensures current != null ==>
                p in pic.chains && k < |pic.chains[p]| && current == pic.chains[p][k]
                && k < |Contents(p)| && Contents(p)[k].created == created
    {
      current := if p in versions then versions[p] else null;
      ghost var c, vs := ChainOf(pic, p), Contents(p);
      k := 0;
      assert c != [] ==> ChainOK(pic.links, c, versions[p]);
      hide ChainsOK;
      while current != null && current.created != created
        invariant k <= |c| == |vs| && current == if k < |c| then c[k] else null
        invariant forall i :: 0 <= i < k ==> vs[i].created != created
        decreases |c| - k
      {
        ContentsAt(p, k);
        current := current.next;
        k := k + 1;
      }
      if current != null {
        ContentsAt(p, k);
      }
    }

    /** Marks the newest version of a creator as deleted, where there is one. */
    method MarkDeleted(p: PageId, created: Txn, deleter: Txn) returns (found: bool)
      requires Valid()
      modifies this`pic, pic.home.Keys
      ensures Valid() && pic.home == old(pic.home)
      ensures Contents(p) == Marked(old(Contents(p)), created, deleter)
      ensures forall q :: q != p ==> Contents(q) == old(Contents(q))
      ensures found <==> exists v :: v in old(Contents(p)) && v.created == created
    {
      var current, k := FindVersion(p, created);
      MarkedAt(Contents(p), created, deleter, k);
      found := current != null;
      if found {
        assert Contents(p)[k] in Contents(p);
        ContentsAt(p, k);
        hide Valid, Contents, Marked;
        Mark(p, k, current, deleter);
      }
    }

    /** Relinks around version k of page p: its predecessor, or the dictionary entry, skips it. */
    method Relink(p: PageId, prev: PageVersion?, current: PageVersion, ghost k: nat)
      requires Valid() && p in pic.chains && k < |pic.chains[p]| && current == pic.chains[p][k]
      requires prev == if k > 0 then pic.chains[p][k - 1] else null
      modifies this`versions, prev
      ensures versions == CutHeads(old(versions), pic.chains[p], p, k)
      ensures ChainsOK(old(versions), pic) && current in pic.links && current in pic.home
      ensures forall n :: n in pic.home && n != prev ==> Shows(n, pic)
      ensures prev != null ==> prev in pic.values && prev.Value() == pic.values[prev]
      ensures prev != null ==> prev.next == pic.links[current]
      ensures current.next == old(current.next) == pic.links[current]
    {
      Member(versions, pic, p, k);
      assert Shows(current, pic);
      if prev == null {
        if current.next == null {
          versions := versions - {p};
        } else {
          versions := versions[p := current.next];
        }
      } else {
        Member(versions, pic, p, k - 1);
        assert Shows(prev, pic);
        prev.next := current.next;
      }
      assert forall n :: n in pic.home && n != prev ==> Shows(n, pic);
    }

    /** Takes a picture of the objects. */
    ghost method Repaint(picture: Picture)
      requires ChainsOK(versions, picture) && forall n :: n in picture.home ==> Shows(n, picture)
      modifies this`pic
      ensures Valid() && pic == picture
    {
      hide ChainsOK;
      pic := picture;
      forall n | n in pic.home
        ensures Shows(n, pic)
      {
        assert Shows(n, picture);
      }
    }

    /** Takes version k of page p out of its chain. */
    method Unlink(p: PageId, prev: PageVersion?, current: PageVersion, ghost k: nat)
      requires Valid() && p in pic.chains && k < |pic.chains[p]| && current == pic.chains[p][k]
      requires prev == if k > 0 then pic.chains[p][k - 1] else null
      modifies this, prev
      ensures Valid() && pic.home.Keys == old(pic.home.Keys) - {current}
      ensures |pic.home| == |old(pic.home)| - 1
      ensures current.next == old(current.next) && (prev != null ==> prev.next == current.next)
      ensures ChainOf(pic, p) == Cut(old(pic.chains[p]), k)
      ensures forall q :: Contents(q) == if q == p then Without(old(Contents(q)), k) else old(Contents(q))
    {
      hide Without, ContentsOf, ChainOf, CutPicture, CutHeads, Shows, Cut;
      Relink(p, prev, current, k);
      hide ChainsOK;
      CutAll(old(versions), pic, p, k, prev);
      Repaint(CutPicture(pic, p, k));
    }

    lemma ContentsAt(p: PageId, k: nat)
      requires Valid() && p in pic.chains && k < |pic.chains[p]|
      ensures |Contents(p)| == |pic.chains[p]| && Shows(pic.chains[p][k], pic)
      ensures Contents(p)[k] == pic.chains[p][k].Value()
      ensures LinkOK(pic.links, pic.chains[p], k)
      ensures pic.chains[p][k] in pic.home && (k > 0 ==> pic.chains[p][k - 1] in pic.home)
    {
      Member(versions, pic, p, k);
      if k > 0 {
        Member(versions, pic, p, k - 1);
      }
    }

    lemma ContentsSize(p: PageId)
      requires Valid()
      ensures |Contents(p)| == |ChainOf(pic, p)|
      ensures p in versions <==> Contents(p) != []
    {
    }

    /** Unlinks the version the walk stands at, and moves on to its successor. */
    method Collect(p: PageId, prev: PageVersion?, current: PageVersion, ghost k: nat) returns (next: PageVersion?)
      requires Valid() && p in pic.chains && k < |pic.chains[p]| && At(pic.chains[p], k, prev, current)
      modifies this, prev
      ensures Valid() && pic.home.Keys <= old(pic.home.Keys) && Known() == old(Known()) - 1
      ensures At(ChainOf(pic, p), k, prev, next)
      ensures forall q :: Contents(q) == if q == p then Without(old(Contents(q)), k) else old(Contents(q))
    {
      ContentsAt(p, k);
      AtCut(pic.chains[p], k, prev, current, current.next);
      hide ChainsOK, ContentsOf, Shows, Without, Valid, Contents, At, LinkOK, Cut;
      Unlink(p, prev, current, k);
      next := if prev == null then current.next else prev.next;
    }

    /** The walk has sifted j versions of the page and stands at the next one. */
    ghost predicate Sifting(p: PageId, active: set<Txn>, before: imap<PageId, seq<Version>>, j: nat,
                            prev: PageVersion?, current: PageVersion?)
      reads this, pic.home.Keys
    {
      && Valid() && (forall q :: q in before) && j <= |before[p]|
      && At(ChainOf(pic, p), |Kept(before[p][..j], active)|, prev, current)
      && Contents(p) == Sifted(before[p], j, active)
      && forall q :: q != p ==> Contents(q) == before[q]
    }

    lemma SiftingStart(p: PageId, active: set<Txn>, before: imap<PageId, seq<Version>>)
      requires Valid() && p in versions && forall q :: q in before && before[q] == Contents(q)
      ensures Sifting(p, active, before, 0, null, versions[p])
    {
      SiftedAll(Contents(p), active);
      assert ChainOK(pic.links, pic.chains[p], versions[p]);
    }

    lemma SiftingDone(p: PageId, active: set<Txn>, before: imap<PageId, seq<Version>>, j: nat, prev: PageVersion?)
      requires Sifting(p, active, before, j, prev, null)
      ensures Valid() && Contents(p) == Kept(before[p], active)
      ensures forall q :: q in before && (q != p ==> Contents(q) == before[q])
    {
      ContentsSize(p);
      SiftedAll(before[p], active);
    }

    /** Drops or keeps one version, and moves on. */
    method SiftVersion(p: PageId, active: set<Txn>, prev: PageVersion?, current: PageVersion,
                       ghost before: imap<PageId, seq<Version>>, ghost j: nat)
      returns (prev': PageVersion?, next: PageVersion?, dropped: nat)
      requires Sifting(p, active, before, j, prev, current)
      modifies this, pic.home.Keys
      ensures Sifting(p, active, before, j + 1, prev', next) && j + 1 <= |before[p]|
      ensures pic.home.Keys <= old(pic.home.Keys) && dropped == old(Known()) - Known()
    {
      SiftingStands(p, active, before, j, prev, current);
      hide ChainsOK, ContentsOf, Kept, Sifted, Without, Valid, Contents, Known, Shows, LinkOK, At;
      if current.created !in active && forall a :: a in active ==> current.created < a {
        next := Collect(p, prev, current, |Kept(before[p][..j], active)|);
        prev', dropped := prev, 1;
      } else {
        prev', next, dropped := current, current.next, 0;
      }
    }

    /** Where the walk stands, and what dropping or keeping the version there makes of the chain. */
    lemma SiftingStands(p: PageId, active: set<Txn>, before: imap<PageId, seq<Version>>, j: nat,
                        prev: PageVersion?, current: PageVersion)
      requires Sifting(p, active, before, j, prev, current)
      ensures var k, c := |Kept(before[p][..j], active)|, ChainOf(pic, p);
              && Valid() && j + 1 <= |before[p]| && p in pic.chains && k < |c| && At(c, k, prev, current)
              && (prev != null ==> prev in pic.home)
              && before[p][j].created == current.created
              && if Collectable(before[p][j], active)
                 then |Kept(before[p][..j + 1], active)| == k
                      && Sifted(before[p], j + 1, active) == Without(Contents(p), k)
                 else |Kept(before[p][..j + 1], active)| == k + 1 && Sifted(before[p], j + 1, active) == Contents(p)
                      && At(c, k + 1, current, current.next)
    {
      hide ChainsOK, ContentsOf, Kept, Sifted, Without, Shows, LinkOK, At, Collectable;
      SiftingAt(p, active, before, j, prev, current);
      hide Valid, Contents, ChainOf;
      SiftOne(before[p], j, active);
    }

    lemma SiftingAt(p: PageId, active: set<Txn>, before: imap<PageId, seq<Version>>, j: nat,
                    prev: PageVersion?, current: PageVersion)
      requires Sifting(p, active, before, j, prev, current)
      ensures var k, c := |Kept(before[p][..j], active)|, ChainOf(pic, p);
              && j + 1 <= |before[p]| && p in pic.chains && k < |c|
              && (prev != null ==> prev in pic.home)
              && Contents(p)[k].created == current.created
              && At(c, k + 1, current, current.next)
    {
      hide ChainsOK, ContentsOf, Kept, Sifted;
      ContentsSize(p);
      ContentsAt(p, |Kept(before[p][..j], active)|);
    }

    /** Sifts the chain of one page in place. */
    method GcChain(p: PageId, active: set<Txn>) returns (freed: nat)
      requires Valid() && p in versions
      modifies this, pic.home.Keys
      ensures Valid() && pic.home.Keys <= old(pic.home.Keys)
      ensures Contents(p) == Kept(old(Contents(p)), active)
      ensures forall q :: q != p ==> Contents(q) == old(Contents(q))
      ensures freed == old(Known()) - Known()
    {
      freed := 0;
      var current: PageVersion? := versions[p];
      var prev: PageVersion? := null;
      ghost var before, j, known := imap q: PageId :: Contents(q), 0, Known();
      SiftingStart(p, active, before);
      hide Sifting, Kept, Valid, Contents, Known;
      while current != null
        invariant j <= |before[p]| && Sifting(p, active, before, j, prev, current)
        invariant pic.home.Keys <= old(pic.home.Keys)
        invariant freed == known - Known()
        decreases |before[p]| - j
      {
        var dropped: nat;
        prev, current, dropped := SiftVersion(p, active, prev, current, before, j);
        freed, j := freed + dropped, j + 1;
      }
      SiftingDone(p, active, before, j, prev);
    }

    /** The pages named are still to be sifted, the others have been. */
    ghost predicate HalfSifted(before: imap<PageId, seq<Version>>, pages: set<PageId>, active: set<Txn>)
      reads this, pic.home.Keys
    {
      && Valid() && (forall q :: q in before)
      && (forall q :: q in pages ==> before[q] != [])
      && forall q :: Contents(q) == HalfWay(before, pages, active, q)
    }

    lemma HalfSiftedStart(before: imap<PageId, seq<Version>>, active: set<Txn>)
      requires Valid() && forall q :: q in before && before[q] == Contents(q)
      ensures HalfSifted(before, versions.Keys, active)
    {
      hide Valid, Contents, Kept, ChainOf, HalfWay, Known;
      AllSizes();
      StartHalfWay(before, versions.Keys, active);
    }

    lemma HalfSiftedEnd(before: imap<PageId, seq<Version>>, active: set<Txn>)
      requires HalfSifted(before, {}, active)
      ensures Valid() && forall q :: q in before && Contents(q) == Kept(before[q], active)
    {
      hide Valid, Contents, Kept, ChainOf;
    }

    /** A page has an entry exactly while it has versions: emptied chains are dropped. */
    lemma AllSizes()
      requires Valid()
      ensures forall q :: q in versions <==> Contents(q) != []
    {
      forall q
        ensures q in versions <==> Contents(q) != []
      {
        ContentsSize(q);
      }
    }

    /** Sifts one page more. */
    method GcPage(p: PageId, active: set<Txn>, ghost before: imap<PageId, seq<Version>>, ghost pages: set<PageId>)
      returns (dropped: nat)
      requires HalfSifted(before, pages, active) && p in pages
      modifies this, pic.home.Keys
      ensures HalfSifted(before, pages - {p}, active) && pic.home.Keys <= old(pic.home.Keys)
      ensures dropped == old(Known()) - Known()
    {
      hide Valid, Contents, Kept, ChainOf, HalfWay, Known;
      ContentsSize(p);
      StepHalfWay(before, pages, active, p);
      dropped := GcChain(p, active);
    }

    /** Sifts the pages one after the other. */
    method GcPages(all: set<PageId>, active: set<Txn>, ghost before: imap<PageId, seq<Version>>)
      returns (freed: nat)
      requires HalfSifted(before, all, active)
      modifies this, pic.home.Keys
      ensures HalfSifted(before, {}, active)
      ensures freed == old(Known()) - Known()
    {
      freed := 0;
      var pages := all;
      ghost var known := Known();
      hide HalfSifted, Known;
      while pages != {}
        invariant HalfSifted(before, pages, active) && pic.home.Keys <= old(pic.home.Keys)
        invariant freed == known - Known()
        decreases pages
      {
        var p := Pick(pages);
        var dropped := GcPage(p, active, before, pages);
        freed, pages := freed + dropped, pages - {p};
      }
    }

    /** Every chain sifted in place: what a page holds afterwards is exactly what Kept keeps, in
        order; the result counts the versions unlinked. */
    method Gc(active: set<Txn>) returns (freed: nat)
      requires Valid()
      modifies this, pic.home.Keys
      ensures Valid() && forall q :: Contents(q) == Kept(old(Contents(q)), active)
      ensures freed == old(Known()) - Known()
    {
      ghost var before := imap q: PageId :: Contents(q);
      HalfSiftedStart(before, active);
      freed := GcPages(versions.Keys, active, before);
      HalfSiftedEnd(before, active);
    }
  }
}
