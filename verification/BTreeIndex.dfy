/** The index object: nodes live on pages of a page store and every operation reads, splits and
    rewrites them there. Each operation is proved to take the stored tree where the operation
    on tree values (BTreeInsert, BTreeRuns) takes it. */
module BTreeIndex {
  import opened ByteCodec
  import opened KeyOrder
  import opened BTreeModel
  import opened BTreeInsert
  import opened BTreeRuns
  import opened NodePage
  import opened BTreePages
  import opened BTreeSplits
  import opened BTreeOverflow
  import NodeIO
  import Spec = BTreeInsert
  import PS = PageStore
  import opened RowIds

  /** The scan that every descent starts with. */
  method Scan(keys: seq<Key>, k: Key) returns (p: nat)
    ensures p == Position(keys, k)
  {
    p := 0;
    while p < |keys|
      invariant p <= |keys| && p + Position(keys[p..], k) == Position(keys, k)
    {
      if Less(k, keys[p]) {
        break;
      }
      p := p + 1;
    }
  }

  method Filter(es: seq<Entry>, e: Entry) returns (kept: seq<Entry>)
    ensures kept == Without(es, e)
  {
    kept := [];
    var i := 0;
    while i < |es|
      invariant 0 <= i <= |es| && kept + Without(es[i..], e) == Without(es, e)
    {
      if es[i] != e {
        kept := kept + [es[i]];
      }
      i := i + 1;
    }
  }

  method Collect(es: seq<Entry>, k: Key) returns (ptrs: seq<RowId>)
    ensures ptrs == Matching(es, k)
  {
    ptrs := [];
    var i := 0;
    while i < |es|
      invariant 0 <= i <= |es| && ptrs + Matching(es[i..], k) == Matching(es, k)
    {
      if es[i].key == k {
        ptrs := ptrs + [es[i].ptr];
      }
      i := i + 1;
    }
  }

  /** A node this index has written: within the limits, and fitting its page. */
  ghost predicate NodeOK(n: NodeRec, lim: Limits) {
    Fits(n) && WithinLimits(n, lim)
  }

  /** A node it may try to write. */
  ghost predicate Writable(n: NodeRec, lim: Limits) {
    Numbers(n) && WithinLimits(n, lim)
  }

  lemma KeysSizeSlice(keys: seq<Key>, a: nat, b: nat, w: nat)
    requires a <= b <= |keys|
    ensures KeysSize(keys[a..b], w) <= KeysSize(keys, w)
  {
    assert keys == keys[..a] + keys[a..b] + keys[b..];
    KeysSizeConcat(keys[..a] + keys[a..b], keys[b..], w);
    KeysSizeConcat(keys[..a], keys[a..b], w);
  }

  /** Keys that are a part of a node that fits fit. */
  lemma SliceFits(n: NodeRec, m: NodeRec, a: nat, b: nat)
    requires Fits(n) && Numbers(m) && (n.LeafRec? <==> m.LeafRec?)
    requires a <= b <= |KeysOfRec(n)| && KeysOfRec(m) == KeysOfRec(n)[a..b]
    ensures Fits(m)
  {
    BodySize(n);
    KeysSizeSlice(KeysOfRec(n), a, b, if n.LeafRec? then 10 else 6);
    FitsIff(m);
  }

  lemma HalvesNumbers(n: NodeRec)
    requires Fits(n) && RecSplittable(n)
    ensures Numbers(SplitRec(n).left) && Numbers(SplitRec(n).right)
  {
    hide Body;
  }

  lemma HalvesOK(n: NodeRec, lim: Limits)
    requires NodeOK(n, lim) && RecSplittable(n)
    ensures NodeOK(SplitRec(n).left, lim) && NodeOK(SplitRec(n).right, lim)
    ensures |SplitRec(n).sep| + 16 <= PAGE_SIZE - NODE_DATA_OFFSET
  {
    hide Fits;
    var s, keys, mid := SplitRec(n), KeysOfRec(n), CountOf(n) / 2;
    HalvesNumbers(n);
    SepSize(n);
    if n.LeafRec? {
      assert KeysOfRec(s.left) == keys[0..mid] && KeysOfRec(s.right) == keys[mid..|keys|];
      SliceFits(n, s.left, 0, mid);
      SliceFits(n, s.right, mid, |keys|);
    } else {
      assert KeysOfRec(s.left) == keys[0..mid] && KeysOfRec(s.right) == keys[mid + 1..|keys|];
      SliceFits(n, s.left, 0, mid);
      SliceFits(n, s.right, mid + 1, |keys|);
    }
  }

  /** With another key beside it, the separator is short. */
  lemma SepSize(n: NodeRec)
    requires Fits(n) && RecSplittable(n)
    ensures |SplitRec(n).sep| + 16 <= PAGE_SIZE - NODE_DATA_OFFSET
  {
    var keys, mid, w := KeysOfRec(n), CountOf(n) / 2, if n.LeafRec? then 10 else 6;
    BodySize(n);
    assert keys == keys[..mid] + keys[mid..] && keys[mid] == SplitRec(n).sep;
    KeysSizeConcat(keys[..mid], keys[mid..], w);
    KeysSizeBounds(keys[..mid], w);
    KeysSizeBounds(keys[mid..], w);
    assert keys[mid..][0] == SplitRec(n).sep;
    var before := keys[..mid];
    assert |before[0]| + w <= KeysSize(before, w);
  }

  lemma LeafWritable(n: NodeRec, pos: nat, e: Entry, lim: Limits)
    requires NodeOK(n, lim) && n.LeafRec? && |n.entries| < lim.leaf && pos <= |n.entries| && PointerFits(e.ptr)
    ensures Writable(LeafRec(n.entries[..pos] + [e] + n.entries[pos..], n.nextLeaf), lim)
  {
    hide Body;
  }

  lemma ParentWritable(n: NodeRec, i: nat, sep: Key, r: PageId, lim: Limits)
    requires NodeOK(n, lim) && n.InternalRec? && |n.keys| < lim.internal
    requires i + 1 <= |n.children| && 0 <= r < U32_LIMIT
    ensures i <= |n.keys| && Writable(ParentRec(n, i, sep, r), lim)
  {
    hide Body;
  }

  lemma ChildOf(ns: Nodes, p: PageId, h: nat, j: nat)
    requires Good(ns, p, h) && ns[p].InternalRec? && j <= |ns[p].keys|
    ensures h > 0 && j < |ns[p].children| == |ns[p].keys| + 1 && ns[p].children[j] in ns
    ensures Good(ns, ns[p].children[j], h - 1)
  {
    hide Foot;
  }

  lemma ChildSplittable(ns: Nodes, p: PageId, h: nat, j: nat)
    requires Good(ns, p, h) && ns[p].InternalRec? && j < |ns[p].children|
    requires ns[p].children[j] in ns && CountOf(ns[ns[p].children[j]]) >= 2
    ensures RecSplittable(ns[ns[p].children[j]])
  {
    hide Foot;
    SplittableAbs(ns, ns[p].children[j], h - 1);
  }

  ghost predicate RoomyAt(n: NodeRec, lim: Limits) {
    CountOf(n) < if n.LeafRec? then lim.leaf else lim.internal
  }

  /** Without a split the preparation changes nothing. */
  lemma RoomyChildPrepared(ns: Nodes, p: PageId, h: nat, key: Key, lim: Limits)
    requires Good(ns, p, h) && ns[p].InternalRec? && GoodLimits(lim)
    requires Shape(Abs(ns, p, h), h) && Abs(ns, p, h).Node?
    requires var j := Position(ns[p].keys, key);
             j < |ns[p].children| && ns[p].children[j] in ns && RoomyAt(ns[ns[p].children[j]], lim)
    ensures (Abs(ns, p, h), Position(ns[p].keys, key)) == Prepare(Abs(ns, p, h), h, key, lim)
    ensures Rewrote(ns, ns, p, h) && Foot(ns, p, h) <= ns.Keys
  {
    hide Foot, Good, Shape, Split;
    var j := Position(ns[p].keys, key);
    AbsNode(ns, p, h, j);
    SplittableAbs(ns, ns[p].children[j], h - 1);
    FootStored(ns, p, h);
  }

  /** With a split the stored tree becomes the prepared one and the chosen child has room. */
  lemma FullChildPrepared(ns: Nodes, p: PageId, h: nat, key: Key, lim: Limits, r: PageId)
    requires Good(ns, p, h) && ns[p].InternalRec? && GoodLimits(lim) && r !in ns
    requires Shape(Abs(ns, p, h), h) && Abs(ns, p, h).Node?
    requires var j := Position(ns[p].keys, key);
             && j < |ns[p].children| && ns[p].children[j] in ns && !RoomyAt(ns[ns[p].children[j]], lim)
             && RecSplittable(ns[ns[p].children[j]]) && NodeOK(ns[ns[p].children[j]], lim)
    ensures |ns[p].children| == |ns[p].keys| + 1
    ensures var i := Position(ns[p].keys, key);
            var ns' := AfterSplit(ns, p, i, r);
            var j := if i < |ns'[p].keys| && Less(ns'[p].keys[i], key) then i + 1 else i;
            && Rewrote(ns, ns', p, h) && ns'.Keys == ns.Keys + Foot(ns', p, h)
            && (Abs(ns', p, h), j) == Prepare(Abs(ns, p, h), h, key, lim)
            && ns'[p].InternalRec? && j < |ns'[p].children|
            && ns'[p].children[j] in ns' && RoomyAt(ns'[ns'[p].children[j]], lim)
  {
    var i := Position(ns[p].keys, key);
    ChildOf(ns, p, h, i);
    hide Foot, Good, Split, Less, SplitRec, RecSplittable, Abs, Shape, Prepare, Position, Rewrote;
    SplitPrepared(ns, p, h, key, lim, r);
    SplitKeys(ns, p, h, i, r);
    HalvesRoomy(ns[ns[p].children[i]], lim);
    hide RoomyAt;
  }

  lemma SplitPrepared(ns: Nodes, p: PageId, h: nat, key: Key, lim: Limits, r: PageId)
    requires Good(ns, p, h) && ns[p].InternalRec? && GoodLimits(lim) && r !in ns
    requires Shape(Abs(ns, p, h), h) && Abs(ns, p, h).Node?
    requires var j := Position(ns[p].keys, key);
             && j < |ns[p].children| == |ns[p].keys| + 1 && ns[p].children[j] in ns
             && !RoomyAt(ns[ns[p].children[j]], lim) && RecSplittable(ns[ns[p].children[j]])
    ensures var i := Position(ns[p].keys, key);
            var ns' := AfterSplit(ns, p, i, r);
            && Rewrote(ns, ns', p, h) && ns'.Keys == ns.Keys + Foot(ns', p, h)
            && ns'[p].InternalRec? && |ns'[p].keys| == |ns[p].keys| + 1
            && (Abs(ns', p, h), if Less(ns'[p].keys[i], key) then i + 1 else i) == Prepare(Abs(ns, p, h), h, key, lim)
  {
    hide Foot, Split, Less, SplitRec, Shape, Prepare, AfterSplit, Abs, Rewrote, SplitChild, Full;
    var i := Position(ns[p].keys, key);
    hide Good;
    ChildIsFull(ns, p, h, i, lim);
    SplitStored(ns, p, h, i, r);
    SplitKeys(ns, p, h, i, r);
    FootStored(ns, p, h);
    PrepareSplits(Abs(ns, p, h), h, key, lim);
  }

  lemma ChildIsFull(ns: Nodes, p: PageId, h: nat, i: nat, lim: Limits)
    requires Good(ns, p, h) && ns[p].InternalRec? && i < |ns[p].children| && ns[p].children[i] in ns
    requires !RoomyAt(ns[ns[p].children[i]], lim)
    ensures var t := Abs(ns, p, h);
            t.Node? && t.keys == ns[p].keys && i < |t.children| && Full(t.children[i], lim)
  {
    hide Foot, Good;
    AbsNode(ns, p, h, i);
    SplittableAbs(ns, ns[p].children[i], h - 1);
  }

  lemma PrepareSplits(t: Tree, h: nat, key: Key, lim: Limits)
    requires Shape(t, h) && t.Node? && GoodLimits(lim)
    requires Full(t.children[Position(t.keys, key)], lim) && Splittable(t.children[Position(t.keys, key)])
    ensures var i := Position(t.keys, key);
            var n := SplitChild(t, i);
            |n.keys| == |t.keys| + 1 && Prepare(t, h, key, lim) == (n, if Less(n.keys[i], key) then i + 1 else i)
  {
    hide Split, Less;
  }

  lemma SplitKeys(ns: Nodes, p: PageId, h: nat, i: nat, r: PageId)
    requires Good(ns, p, h) && ns[p].InternalRec? && i < |ns[p].children| && r !in ns
    requires ns[p].children[i] in ns && RecSplittable(ns[ns[p].children[i]])
    ensures |ns[p].children| == |ns[p].keys| + 1
    ensures var ns' := AfterSplit(ns, p, i, r);
            var c := ns[p].children[i];
            && ns'.Keys == ns.Keys + {r}
            && ns'[p].InternalRec? && |ns'[p].children| == |ns[p].children| + 1
            && |ns'[p].keys| == |ns[p].keys| + 1 && Abs(ns', p, h).Node? && Abs(ns', p, h).keys == ns'[p].keys
            && ns'[p].children[i] == c && ns'[p].children[i + 1] == r && c in ns' && r in ns'
            && ns'[c] == SplitRec(ns[c]).left && ns'[r] == SplitRec(ns[c]).right
  {
    hide Foot, SplitRec;
    ChildOf(ns, p, h, i);
    AbsNode(ns, p, h, i);
    hide Good;
    assert ns[p].children[i] in Foot(ns, ns[p].children[i], h - 1);
  }

  lemma HalvesRoomy(n: NodeRec, lim: Limits)
    requires GoodLimits(lim) && NodeOK(n, lim) && RecSplittable(n)
    ensures RoomyAt(SplitRec(n).left, lim) && RoomyAt(SplitRec(n).right, lim)
  {
  }

  lemma KindOfNode(ns: Nodes, p: PageId, h: nat)
    requires Good(ns, p, h)
    ensures p in ns && (ns[p].LeafRec? <==> h == 0) && (Abs(ns, p, h).Node? <==> h > 0)
  {
    hide Foot;
  }

  lemma RewroteIsGood(ns: Nodes, ns': Nodes, p: PageId, h: nat)
    requires Rewrote(ns, ns', p, h)
    ensures Good(ns', p, h)
  {
  }

  lemma ChildReady(ns: Nodes, p: PageId, h: nat, j: nat)
    requires Good(ns, p, h)
    requires p in ns && ns[p].InternalRec? && j < |ns[p].children|
    ensures h > 0 && Good(ns, ns[p].children[j], h - 1)
    ensures Shape(Abs(ns, ns[p].children[j], h - 1), h - 1)
    ensures var t := Abs(ns, p, h);
            t.Node? && t.keys == ns[p].keys && j < |t.children| && t.children[j] == Abs(ns, ns[p].children[j], h - 1)
  {
    hide Foot;
    AbsNode(ns, p, h, j);
    GoodShape(ns, ns[p].children[j], h - 1);
  }

  lemma PutNode(t: Tree, h: nat, e: Entry, lim: Limits)
    requires Shape(t, h) && t.Node? && GoodLimits(lim)
    ensures var (n, j) := Prepare(t, h, e.key, lim);
            Put(t, h, e, lim) == Node(n.keys, n.children[j := Put(n.children[j], h - 1, e, lim)])
  {
    hide Prepare;
  }

  lemma OutcomeNode(t: Tree, h: nat, k: Key, lim: Limits)
    requires Shape(t, h) && t.Node? && GoodLimits(lim)
    ensures var (n, j) := Prepare(t, h, k, lim);
            OutcomeBelow(t, h, k, lim) == if FitsPage(n) then OutcomeBelow(n.children[j], h - 1, k, lim) else NodeFull
  {
    hide Prepare, FitsPage;
  }

  /** Preparing p and then inserting into the chosen child is inserting into p. */
  lemma DescentComposes(ns: Nodes, mid: Nodes, ns': Nodes, p: PageId, h: nat, j: nat, e: Entry, lim: Limits)
    requires GoodLimits(lim) && h > 0 && Shape(Abs(ns, p, h), h) && Abs(ns, p, h).Node?
    requires Rewrote(ns, mid, p, h) && mid.Keys == ns.Keys + Foot(mid, p, h)
    requires (Abs(mid, p, h), j) == Prepare(Abs(ns, p, h), h, e.key, lim)
    requires p in mid && mid[p].InternalRec? && j < |mid[p].children|
    requires var c := mid[p].children[j];
             && Rewrote(mid, ns', c, h - 1) && ns'.Keys == mid.Keys + Foot(ns', c, h - 1)
             && Shape(Abs(mid, c, h - 1), h - 1)
             && Abs(ns', c, h - 1) == Put(Abs(mid, c, h - 1), h - 1, e, lim)
    ensures Rewrote(ns, ns', p, h) && ns'.Keys == ns.Keys + Foot(ns', p, h)
    ensures Abs(ns', p, h) == Put(Abs(ns, p, h), h, e, lim)
  {
    assert Good(mid, p, h);
    hide Foot, Good, Rewrote, Prepare, Shape, Abs, Put;
    ChildReady(mid, p, h, j);
    ChildRewritten(mid, ns', p, h, j);
    RewroteTransitive(ns, mid, ns', p, h);
    PutNode(Abs(ns, p, h), h, e, lim);
  }

  lemma NewRootOK(sep: Key, left: PageId, right: PageId, lim: Limits)
    requires |sep| + 16 <= PAGE_SIZE - NODE_DATA_OFFSET && GoodLimits(lim)
    requires 0 <= left < U32_LIMIT && 0 <= right < U32_LIMIT
    ensures NodeOK(InternalRec([sep], [left, right]), lim)
  {
    KeysSizeUniform([sep], 6, |sep|);
    FitsIff(InternalRec([sep], [left, right]));
  }

  /** Rewriting the whole tree leaves no page of the index unused. */
  lemma AllUsed(ns: Nodes, ns': Nodes, p: PageId, h: nat)
    requires ns.Keys == Foot(ns, p, h) && Rewrote(ns, ns', p, h) && ns'.Keys == ns.Keys + Foot(ns', p, h)
    ensures ns'.Keys == Foot(ns', p, h) && Good(ns', p, h)
  {
    hide Good, Foot;
  }

  lemma RootWrites(ns: Nodes, ns': Nodes, p: PageId, q: PageId, r: PageId, s: RecHalves)
    requires p in ns && RecSplittable(ns[p]) && s == SplitRec(ns[p])
    requires ns' == ns[p := s.left][r := s.right][q := InternalRec([s.sep], [p, r])]
    ensures ns' == AfterRootSplit(ns, p, q, r) && ns'.Keys == ns.Keys + {q, r}
  {
  }

  lemma {:induction false} WithoutSize(es: seq<Entry>, e: Entry, w: nat)
    ensures KeysSize(KeysOf(Without(es, e)), w) <= KeysSize(KeysOf(es), w)
  {
    if es != [] {
      WithoutSize(es[1..], e, w);
      var rest := KeysOf(Without(es[1..], e));
      assert KeysOf(es) == [es[0].key] + KeysOf(es[1..]);
      KeysSizeConcat([es[0].key], KeysOf(es[1..]), w);
      if es[0] != e {
        assert KeysOf(Without(es, e)) == [es[0].key] + rest;
        KeysSizeConcat([es[0].key], rest, w);
      } else {
        assert Without(es, e) == Without(es[1..], e);
      }
    }
  }

  lemma WithoutOK(n: NodeRec, e: Entry, lim: Limits)
    requires NodeOK(n, lim) && n.LeafRec?
    ensures Writable(LeafRec(Without(n.entries, e), n.nextLeaf), lim)
    ensures NodeOK(LeafRec(Without(n.entries, e), n.nextLeaf), lim)
  {
    WithoutKeeps(n.entries, e);
    WithoutSize(n.entries, e, 10);
    BodySize(n);
    var out := Without(n.entries, e);
    forall i | 0 <= i < |out|
      ensures PointerFits(out[i].ptr)
    {
      assert out[i] in n.entries;
    }
    FitsIff(LeafRec(out, n.nextLeaf));
  }

  lemma DeleteNode(ns: Nodes, p: PageId, h: nat, i: nat, e: Entry)
    requires Good(ns, p, h) && ns[p].InternalRec? && i < |ns[p].children| && i == Position(ns[p].keys, e.key)
    ensures h > 0
    ensures var t := Abs(ns, p, h);
            t.Node? && t.keys == ns[p].keys && i < |t.children| &&
            DeleteFrom(t, e) == Node(t.keys, t.children[i := DeleteFrom(Abs(ns, ns[p].children[i], h - 1), e)])
  {
    hide Foot, Less;
    AbsNode(ns, p, h, i);
  }

  lemma EmptyFits()
    ensures KeysFit(true, []) && Numbers(LeafRec([], 0))
  {
  }

  lemma RecFits(n: NodeRec)
    requires Fits(n)
    ensures KeysFit(n.LeafRec?, KeysOfRec(n))
  {
    BodySize(n);
  }

  lemma NodeWritable(n: NodeRec, lim: Limits)
    requires NodeOK(n, lim)
    ensures Writable(n, lim)
  {
    hide Body;
  }

  lemma AbsFits(ns: Nodes, p: PageId, h: nat)
    requires Good(ns, p, h)
    ensures FitsPage(Abs(ns, p, h)) <==> KeysFit(ns[p].LeafRec?, KeysOfRec(ns[p]))
  {
    hide Foot, KeysFit;
  }

  /** The parent written by a split fits exactly when the prepared node does. */
  lemma SplitFits(ns: Nodes, p: PageId, h: nat, key: Key, lim: Limits, r: PageId)
    requires Good(ns, p, h) && ns[p].InternalRec? && GoodLimits(lim) && r !in ns
    requires Shape(Abs(ns, p, h), h) && Abs(ns, p, h).Node?
    requires var i := Position(ns[p].keys, key);
             && i < |ns[p].children| == |ns[p].keys| + 1 && ns[p].children[i] in ns
             && RecSplittable(ns[ns[p].children[i]])
             && Rewrote(ns, AfterSplit(ns, p, i, r), p, h)
             && Abs(AfterSplit(ns, p, i, r), p, h) == Prepare(Abs(ns, p, h), h, key, lim).0
    ensures var i := Position(ns[p].keys, key);
            FitsPage(Prepare(Abs(ns, p, h), h, key, lim).0) <==>
            KeysFit(false, ParentRec(ns[p], i, SplitRec(ns[ns[p].children[i]]).sep, r).keys)
  {
    var i := Position(ns[p].keys, key);
    var ns' := AfterSplit(ns, p, i, r);
    assert ns'[p] == ParentRec(ns[p], i, SplitRec(ns[ns[p].children[i]]).sep, r);
    RewroteIsGood(ns, ns', p, h);
    hide Good, Foot, SplitRec, FitsPage, KeysFit, Abs, Prepare, AfterSplit, Position;
    AbsFits(ns', p, h);
  }

  lemma LeafAfter(ns: Nodes, p: PageId, e: Entry, lim: Limits)
    requires Good(ns, p, 0) && GoodLimits(lim) && ns[p].LeafRec?
    ensures Shape(Abs(ns, p, 0), 0)
    ensures var rec := LeafRec(InsertEntry(ns[p].entries, e), ns[p].nextLeaf);
            var ok := KeysFit(true, KeysOf(rec.entries));
            var ns' := if ok then ns[p := rec] else ns;
            && OutcomeBelow(Abs(ns, p, 0), 0, e.key, lim) == (if ok then Inserted else LeafFull)
            && Rewrote(ns, ns', p, 0) && Abs(ns', p, 0) == Put(Abs(ns, p, 0), 0, e, lim)
            && ns'.Keys == ns.Keys + Foot(ns', p, 0)
  {
    hide Less, KeysFit, InsertEntry;
    var rec := LeafRec(InsertEntry(ns[p].entries, e), ns[p].nextLeaf);
    SameKeys(ns[p].entries, e, Entry(e.key, RowId(0, 0)));
    LeafFoot(ns, p);
    LeafFoot(ns[p := rec], p);
  }

  class BTreeIndex {
    const store: PS.PageStore
    const lim: Limits
    var rootPage: PageId
    ghost var nodes: Nodes
    ghost var height: nat

    /** Each page of the index holds the packed image of its node. */
    ghost predicate PagesOK()
      reads this`nodes, store
    {
      && store.Valid() && GoodLimits(lim)
      && forall p :: p in nodes ==> PageOK(p)
    }

    ghost predicate PageOK(p: PageId)
      requires p in nodes
      reads this`nodes, store
    {
      && 0 < p < U32_LIMIT && p in store.pages
      && NodeOK(nodes[p], lim)
      && store.pages[p] == NodeBytes(p, nodes[p])
    }

    ghost predicate Valid()
      reads this, store
    {
      && PagesOK() && Good(nodes, rootPage, height)
      && nodes.Keys == Foot(nodes, rootPage, height)
    }

    /** The tree on the pages, as a value. */
    ghost function Tree(): (t: Tree)
      requires Valid()
      reads this, store
      ensures Shape(t, height)
    {
      GoodShape(nodes, rootPage, height);
      Abs(nodes, rootPage, height)
    }

    /** Pages of other owners keep their bytes. */
    twostate predicate OthersKept()
      reads this`nodes, store
    {
      forall q :: q in old(store.pages) && q !in old(nodes) ==>
        q !in nodes && q in store.pages && store.pages[q] == old(store.pages[q])
    }

    constructor (store: PS.PageStore, lim: Limits)
      requires store.Valid() && store.Room(1) && GoodLimits(lim)
      modifies store
      ensures Valid() && this.store == store && this.lim == lim
      ensures Tree() == Leaf([]) && height == 0
      ensures forall q :: q in old(store.pages) ==>
                q !in nodes && q in store.pages && store.pages[q] == old(store.pages[q])
    {
      this.store, this.lim := store, lim;
      nodes, height := map[], 0;
      var p := store.Alloc();
      rootPage := p;
      new;
      EmptyFits();
      var written := PersistNode(p, LeafRec([], 0));
      LeafFoot(nodes, p);
    }

    lemma PageFacts(p: PageId)
      requires PagesOK() && p in nodes
      ensures 0 < p < U32_LIMIT && p in store.pages && NodeOK(nodes[p], lim)
    {
      assert PageOK(p);
    }

    /** Writes a node unless it is too long for a page: then packing it raises before the page is touched. */
    method PersistNode(p: PageId, n: NodeRec) returns (ok: bool)
      requires PagesOK() && p in store.pages && 0 < p < U32_LIMIT && Writable(n, lim)
      modifies this`nodes, store
      ensures ok <==> KeysFit(n.LeafRec?, KeysOfRec(n))
      ensures ok <==> Fits(n)
      ensures PagesOK() && nodes == if ok then old(nodes)[p := n] else old(nodes)
      ensures store.pages.Keys == old(store.pages.Keys) && store.next == old(store.next)
      ensures forall q :: q in store.pages && q != p ==> store.pages[q] == old(store.pages[q])
    {
      hide NodeBytes, KeysFit, Fits, Widths;
      FitsIff(n);
      ok := KeysFit(n.LeafRec?, KeysOfRec(n));
      if ok {
        var data := NodeIO.PackNode(p, n);
        store.Write(p, data);
        nodes := nodes[p := n];
        assert forall q :: q in nodes && q != p ==> old(PageOK(q));
        assert forall q :: q in nodes ==> PageOK(q);
      }
    }

    /** Left half to the old page, right half to the new one. */
    method PersistHalves(left: PageId, right: PageId, s: RecHalves)
      requires PagesOK() && left in store.pages && right in store.pages && 0 < left < U32_LIMIT && 0 < right < U32_LIMIT
      requires NodeOK(s.left, lim) && NodeOK(s.right, lim)
      modifies this`nodes, store
      ensures PagesOK() && nodes == old(nodes)[left := s.left][right := s.right]
      ensures store.pages.Keys == old(store.pages.Keys) && store.next == old(store.next)
      ensures forall q :: q in store.pages && q != left && q != right ==> store.pages[q] == old(store.pages[q])
    {
      hide NodeBytes, PageOK, KeysFit, Body;
      var ok := PersistNode(left, s.left);
      ok := PersistNode(right, s.right);
    }

    method ReadNode(p: PageId) returns (n: NodeRec)
      requires PagesOK() && p in nodes
      ensures n == nodes[p]
    {
      hide NodeBytes;
      assert PageOK(p);
      var data := store.Read(p);
      n := NodeIO.ReadNode(data, p, nodes[p]);
    }

    method AllocPage() returns (p: PageId)
      requires PagesOK() && store.Room(1)
      modifies store
      ensures PagesOK() && p !in old(store.pages) && p in store.pages && p !in nodes && 0 < p < U32_LIMIT
      ensures store.pages.Keys == old(store.pages.Keys) + {p} && store.next == old(store.next) + 1
      ensures forall q :: q in old(store.pages) ==> store.pages[q] == old(store.pages[q])
    {
      hide NodeBytes, NodeOK;
      p := store.Alloc();
      assert forall q :: q in nodes ==> old(PageOK(q));
      assert forall q :: q in nodes ==> PageOK(q);
    }

    /** Splits the full child i of p: the child keeps the left half, a fresh page takes the right half, and the
        parent gains a separator and a child, or is too long with them. */
    method SplitChild(p: PageId, i: nat, ghost h: nat) returns (ok: bool, ghost r: PageId)
      requires PagesOK() && Good(nodes, p, h) && store.Room(1)
      requires p in nodes && nodes[p].InternalRec? && i < |nodes[p].children| && |nodes[p].keys| < lim.internal
      requires nodes[p].children[i] in nodes && RecSplittable(nodes[nodes[p].children[i]])
      modifies this`nodes, store
      ensures PagesOK() && r !in old(store.pages) && r !in old(nodes)
      ensures i <= |old(nodes[p].keys)|
      ensures ok <==>
                KeysFit(false, ParentRec(old(nodes[p]), i, SplitRec(old(nodes[nodes[p].children[i]])).sep, r).keys)
      ensures ok ==> nodes == AfterSplit(old(nodes), p, i, r)
      ensures OthersKept() && store.next == old(store.next) + 1
    {
      hide NodeOK, NodeBytes, Good, SplitRec, RecSplittable, KeysFit, Writable;
      var parent := ReadNode(p);
      var childPage := parent.children[i];
      var child := ReadNode(childPage);
      assert PageOK(childPage) && PageOK(p);
      HalvesOK(child, lim);
      var right := AllocPage();
      r := right;
      var s := SplitRec(child);
      ParentWritable(parent, i, s.sep, right, lim);
      PersistHalves(childPage, right, s);
      ok := PersistNode(p, ParentRec(parent, i, s.sep, right));
    }

    ghost predicate Roomy(p: PageId)
      requires p in nodes
      reads this`nodes
    {
      CountOf(nodes[p]) < if nodes[p].LeafRec? then lim.leaf else lim.internal
    }

    /** Whether the subtree at p was rewritten into t, taking only fresh pages. */
    twostate predicate Became(p: PageId, h: nat, t: Tree)
      reads this`nodes, store
    {
      && Rewrote(old(nodes), nodes, p, h) && Abs(nodes, p, h) == t
      && nodes.Keys == old(nodes.Keys) + Foot(nodes, p, h)
      && OthersKept() && old(store.next) <= store.next <= old(store.next) + h
    }

    /** Adds an entry to a leaf if it fits. */
    method InsertIntoLeaf(p: PageId, key: Key, ptr: RowId) returns (ok: bool)
      requires PagesOK() && Good(nodes, p, 0) && Roomy(p) && PointerFits(ptr)
      modifies this`nodes, store
      ensures PagesOK() && Shape(old(Abs(nodes, p, 0)), 0)
      ensures OutcomeBelow(old(Abs(nodes, p, 0)), 0, key, lim) == if ok then Inserted else LeafFull
      ensures Became(p, 0, Put(old(Abs(nodes, p, 0)), 0, Entry(key, ptr), lim))
    {
      hide KeysFit, Fits, Widths, Body, Foot, Abs, NodeBytes, Put, OutcomeBelow, Rewrote, Writable, Less;
      ghost var before := nodes;
      var node := ReadNode(p);
      PageFacts(p);
      LeafFoot(nodes, p);
      hide PageOK;
      var pos := Scan(KeysOf(node.entries), key);
      var entries := node.entries[..pos] + [Entry(key, ptr)] + node.entries[pos..];
      LeafWritable(node, pos, Entry(key, ptr), lim);
      ok := PersistNode(p, LeafRec(entries, node.nextLeaf));
      LeafAfter(before, p, Entry(key, ptr), lim);
    }

    /** Chooses the child that insertion descends into, splitting it first if it is full. */
    method ChooseChild(p: PageId, key: Key, ghost h: nat) returns (j: nat, ok: bool)
      requires PagesOK() && Good(nodes, p, h) && p in nodes && nodes[p].InternalRec? && Roomy(p) && store.Room(1)
      requires Shape(Abs(nodes, p, h), h) && Abs(nodes, p, h).Node?
      modifies this`nodes, store
      ensures PagesOK() && OthersKept() && old(store.next) <= store.next <= old(store.next) + 1
      ensures ok <==> FitsPage(Prepare(old(Abs(nodes, p, h)), h, key, lim).0)
      ensures ok ==> Rewrote(old(nodes), nodes, p, h) && nodes.Keys == old(nodes.Keys) + Foot(nodes, p, h)
      ensures ok ==> (Abs(nodes, p, h), j) == Prepare(old(Abs(nodes, p, h)), h, key, lim)
      ensures ok ==> p in nodes && nodes[p].InternalRec? && j < |nodes[p].children|
      ensures ok ==> nodes[p].children[j] in nodes && Roomy(nodes[p].children[j])
    {
      hide NodeOK, NodeBytes, Foot, Good, Prepare, Less, Rewrote, Abs, Shape, RecSplittable, SplitRec, Position;
      hide PageOK, Fits, Widths, AfterSplit, FitsPage, KeysFit;
      ghost var before := nodes;
      var node := ReadNode(p);
      j := Scan(node.keys, key);
      ChildOf(nodes, p, h, j);
      var child := node.children[j];
      var childNode := ReadNode(child);
      PageFacts(child);
      if CountOf(childNode) >= if childNode.LeafRec? then lim.leaf else lim.internal {
        ChildSplittable(nodes, p, h, j);
        ghost var r;
        ok, r := SplitChild(p, j, h);
        FullChildPrepared(before, p, h, key, lim, r);
        SplitFits(before, p, h, key, lim, r);
        if ok {
          node := ReadNode(p);
          if j < |node.keys| && Less(node.keys[j], key) {
            j := j + 1;
          }
        }
      } else {
        ok := true;
        RoomyChildPrepared(before, p, h, key, lim);
        StoredFits(p, h);
      }
    }

    /** What is stored fits. */
    lemma StoredFits(p: PageId, h: nat)
      requires PagesOK() && Good(nodes, p, h)
      ensures FitsPage(Abs(nodes, p, h))
    {
      hide Good, Body;
      KindOfNode(nodes, p, h);
      PageFacts(p);
      RecFits(nodes[p]);
      AbsFits(nodes, p, h);
    }

    /** Insertion below a node that has room, splitting full children on the way down. */
    method InsertNonfull(p: PageId, key: Key, ptr: RowId, ghost h: nat) returns (r: Outcome)
      requires PagesOK() && Good(nodes, p, h) && Shape(Abs(nodes, p, h), h) && p in nodes && Roomy(p) && store.Room(h)
      requires PointerFits(ptr)
      modifies this`nodes, store
      ensures PagesOK() && OthersKept() && old(store.next) <= store.next <= old(store.next) + h
      ensures r == OutcomeBelow(old(Abs(nodes, p, h)), h, key, lim)
      ensures r != NodeFull ==> Became(p, h, Put(old(Abs(nodes, p, h)), h, Entry(key, ptr), lim))
      decreases h
    {
      hide NodeOK, NodeBytes, Foot, Good, Prepare, Less, Rewrote, Abs, Shape, Position, PageOK;
      hide Put, Fits, Widths, FitsPage, OutcomeBelow;
      KindOfNode(nodes, p, h);
      var node := ReadNode(p);
      if node.LeafRec? {
        var ok := InsertIntoLeaf(p, key, ptr);
        r := if ok then Inserted else LeafFull;
      } else {
        ghost var before := nodes;
        OutcomeNode(Abs(nodes, p, h), h, key, lim);
        var j, ok := ChooseChild(p, key, h);
        if !ok {
          return NodeFull;
        }
        ghost var mid := nodes;
        RewroteIsGood(before, mid, p, h);
        node := ReadNode(p);
        var child := node.children[j];
        ChildReady(mid, p, h, j);
        r := InsertNonfull(child, key, ptr, h - 1);
        if r != NodeFull {
          DescentComposes(before, mid, nodes, p, h, j, Entry(key, ptr), lim);
        }
      }
    }

    /** Writes the two halves of the root and a new root above them; the caller switches. */
    method WriteNewRoot() returns (newRoot: PageId)
      requires Valid() && store.Room(2) && rootPage in nodes && RecSplittable(nodes[rootPage])
      modifies this`nodes, store
      ensures PagesOK() && OthersKept() && store.next == old(store.next) + 2 && newRoot !in old(nodes)
      ensures exists right :: right !in old(nodes) && right != newRoot &&
                nodes == AfterRootSplit(old(nodes), rootPage, newRoot, right)
    {
      hide NodeOK, NodeBytes, Foot, Good, Abs, Fits, Widths, SplitRec, RecSplittable, PageOK;
      var root := ReadNode(rootPage);
      PageFacts(rootPage);
      HalvesOK(root, lim);
      newRoot := AllocPage();
      var left := rootPage;
      var right := AllocPage();
      var s := SplitRec(root);
      NewRootOK(s.sep, left, right, lim);
      PersistHalves(left, right, s);
      NodeWritable(InternalRec([s.sep], [left, right]), lim);
      var written := PersistNode(newRoot, InternalRec([s.sep], [left, right]));
      RootWrites(old(nodes), nodes, left, newRoot, right, s);
    }

    /** Puts a new root above the two halves of the old one. */
    method SplitRoot()
      requires Valid() && store.Room(2) && rootPage in nodes && CountOf(nodes[rootPage]) >= lim.leaf
      modifies this, store
      ensures Valid() && OthersKept() && store.next == old(store.next) + 2
      ensures Splittable(old(Tree())) && Tree() == GrowRoot(old(Tree())) && height == old(height) + 1
      ensures rootPage in nodes && Roomy(rootPage)
    {
      hide PageOK, Foot, Good, Abs, SplitRec, RecSplittable, GrowRoot, Splittable;
      ghost var before, p, h := nodes, rootPage, height;
      SplittableAbs(nodes, rootPage, height);
      var newRoot := WriteNewRoot();
      ghost var right :| right !in before && right != newRoot && nodes == AfterRootSplit(before, p, newRoot, right);
      RootSplitStored(before, p, h, newRoot, right);
      rootPage := newRoot;
      height := height + 1;
    }

    /** Inserts a pair; a root as full as a full leaf is first split under a new root. Of a node that is too long
        for its page nothing is written. When that is the leaf, the tree holds the pairs it held; when it is the
        parent of a node just split, the right half of that is lost, and nothing is claimed of the tree. */
    method Insert(key: Key, ptr: RowId) returns (r: Outcome)
      requires Valid() && store.Room(height + 3) && PointerFits(ptr)
      modifies this, store
      ensures r == OutcomeOf(Index(old(Tree()), old(height)), key, lim)
      ensures store.Valid() && OthersKept() && old(store.next) <= store.next <= old(store.next) + old(height) + 3
      ensures r != NodeFull ==> Valid()
      ensures r != NodeFull ==> Index(Tree(), height) == PutEntry(Index(old(Tree()), old(height)), Entry(key, ptr), lim)
      ensures r == Inserted ==> Tree() == Spec.Insert(old(Tree()), old(height), Entry(key, ptr), lim)
      ensures r == Inserted ==> height == HeightAfter(old(Tree()), old(height), lim)
    {
      hide NodeOK, NodeBytes, Foot, Good, Less, Abs, Shape, PageOK, Fits, Widths, Rewrote, Spec.InsertNonfull;
      hide GrowRoot, Splittable, Split, Put, OutcomeBelow;
      ghost var t, h := Tree(), height;
      KindOfNode(nodes, rootPage, height);
      SplittableAbs(nodes, rootPage, height);
      var rootData := ReadNode(rootPage);
      if CountOf(rootData) >= lim.leaf {
        SplitRoot();
      } else {
        assert !RootFull(t, lim);
      }
      ghost var before := nodes;
      r := InsertNonfull(rootPage, key, ptr, height);
      if r != NodeFull {
        AllUsed(before, nodes, rootPage, height);
      }
      if r == Inserted {
        PutInserts(RootForInsert(t, h, lim), HeightAfter(t, h, lim), Entry(key, ptr), lim);
      }
    }

    method SearchNode(p: PageId, key: Key, ghost h: nat) returns (ptrs: seq<RowId>)
      requires PagesOK() && Good(nodes, p, h)
      ensures ptrs == BTreeModel.Search(Abs(nodes, p, h), key)
      decreases h
    {
      hide NodeBytes, Foot, PageOK, Less;
      var node := ReadNode(p);
      if node.LeafRec? {
        ptrs := Collect(node.entries, key);
      } else {
        var i := Scan(node.keys, key);
        AbsNode(nodes, p, h, i);
        ptrs := SearchNode(node.children[i], key, h - 1);
      }
    }

    method Search(key: Key) returns (ptrs: seq<RowId>)
      requires Valid()
      ensures ptrs == BTreeModel.Search(Tree(), key)
    {
      ptrs := SearchNode(rootPage, key, height);
    }

    method DeleteFromNode(p: PageId, key: Key, ptr: RowId, ghost h: nat)
      requires PagesOK() && Good(nodes, p, h)
      modifies this`nodes, store
      ensures PagesOK() && Became(p, h, DeleteFrom(old(Abs(nodes, p, h)), Entry(key, ptr)))
      ensures nodes.Keys == old(nodes.Keys) && store.next == old(store.next)
      decreases h
    {
      hide NodeOK, NodeBytes, PageOK, Less, Foot, Good, Abs, Rewrote;
      KindOfNode(nodes, p, h);
      FootStored(nodes, p, h);
      var node := ReadNode(p);
      if node.LeafRec? {
        DeleteFromLeaf(p, key, ptr);
      } else {
        ghost var before := nodes;
        var i := Scan(node.keys, key);
        ChildOf(nodes, p, h, i);
        DeleteFromNode(node.children[i], key, ptr, h - 1);
        ChildRewritten(before, nodes, p, h, i);
        RewroteIsGood(before, nodes, p, h);
        FootStored(nodes, p, h);
        DeleteNode(before, p, h, i, Entry(key, ptr));
      }
    }

    method DeleteFromLeaf(p: PageId, key: Key, ptr: RowId)
      requires PagesOK() && Good(nodes, p, 0)
      modifies this`nodes, store
      ensures PagesOK() && Became(p, 0, DeleteFrom(old(Abs(nodes, p, 0)), Entry(key, ptr)))
      ensures nodes.Keys == old(nodes.Keys) && store.next == old(store.next)
    {
      hide NodeBytes, PageOK, Fits;
      LeafFoot(nodes, p);
      PageFacts(p);
      var node := ReadNode(p);
      var entries := Filter(node.entries, Entry(key, ptr));
      WithoutOK(node, Entry(key, ptr), lim);
      var written := PersistNode(p, LeafRec(entries, node.nextLeaf));
      LeafFoot(nodes, p);
    }

    /** Lazy deletion: the pair leaves its leaf, the shape of the tree stays. */
    method Delete(key: Key, ptr: RowId)
      requires Valid()
      modifies this`nodes, store
      ensures Valid() && OthersKept() && store.next == old(store.next)
      ensures Tree() == DeleteFrom(old(Tree()), Entry(key, ptr))
    {
      hide NodeBytes, PageOK, Foot, Good, Abs, Less, Rewrote;
      ghost var before := nodes;
      DeleteFromNode(rootPage, key, ptr, height);
      AllUsed(before, nodes, rootPage, height);
    }
  }
}
