/** Trees stored as nodes on pages: the tree a page leads to, the pages it occupies, and what
    rewriting some of them does to it. */
module BTreePages {
  import opened BTreeModel
  import opened NodePage
  import opened RowIds

  type Nodes = map<PageId, NodeRec>

  function ChildrenOf(ns: Nodes, p: PageId, h: nat): seq<PageId> {
    if p in ns && ns[p].InternalRec? && h > 0 then ns[p].children else []
  }

  /** The tree that page p leads to, h levels deep. */
  ghost function Abs(ns: Nodes, p: PageId, h: nat): Tree
    decreases h
  {
    if p !in ns then Leaf([])
    else
      match ns[p]
      case LeafRec(es, _) => Leaf(es)
      case InternalRec(keys, children) =>
        Node(keys, if h == 0 then [] else
               seq(|children|, i requires 0 <= i < |children| => Abs(ns, children[i], h - 1)))
  }

  ghost function UnionAll(fs: seq<set<PageId>>): set<PageId> {
    set f, q | f in fs && q in f :: q
  }

  /** The pages of the tree at p. */
  ghost function Foot(ns: Nodes, p: PageId, h: nat): (f: set<PageId>)
    ensures p in f
    decreases h, 0
  {
    if h == 0 then {p} else {p} + UnionAll(Feet(ns, ChildrenOf(ns, p, h), h - 1))
  }

  ghost function Feet(ns: Nodes, ch: seq<PageId>, h: nat): (fs: seq<set<PageId>>)
    ensures |fs| == |ch|
    decreases h, 1
  {
    seq(|ch|, i requires 0 <= i < |ch| => Foot(ns, ch[i], h))
  }

  lemma UnionConcat(x: seq<set<PageId>>, y: seq<set<PageId>>)
    ensures UnionAll(x + y) == UnionAll(x) + UnionAll(y)
  {
    forall q
      ensures q in UnionAll(x + y) <==> q in UnionAll(x) + UnionAll(y)
    {
      assert forall f :: f in x + y <==> f in x || f in y;
    }
  }

  /** The pages of the first m of several disjoint trees are apart from those of the rest. */
  lemma UnionsApart(fs: seq<set<PageId>>, m: nat)
    requires m <= |fs| && forall i, j :: 0 <= i < j < |fs| ==> fs[i] !! fs[j]
    ensures UnionAll(fs[..m]) !! UnionAll(fs[m..])
  {
  }

  lemma InSomeFoot(ns: Nodes, ch: seq<PageId>, h: nat, q: PageId) returns (i: nat)
    requires q in UnionAll(Feet(ns, ch, h))
    ensures i < |ch| && q in Foot(ns, ch[i], h)
  {
    var fs := Feet(ns, ch, h);
    var f :| f in fs && q in f;
    i :| 0 <= i < |fs| && fs[i] == f;
  }

  lemma FootOf(ns: Nodes, p: PageId, h: nat)
    requires p in ns && ns[p].InternalRec? && h > 0
    ensures Foot(ns, p, h) == {p} + UnionAll(Feet(ns, ns[p].children, h - 1))
    ensures forall i :: 0 <= i < |ns[p].children| ==> Foot(ns, ns[p].children[i], h - 1) <= Foot(ns, p, h)
  {
    var fs := Feet(ns, ns[p].children, h - 1);
    forall i | 0 <= i < |ns[p].children|
      ensures Foot(ns, ns[p].children[i], h - 1) <= Foot(ns, p, h)
    {
      assert fs[i] in fs;
    }
  }

  /** Page p leads to a complete tree of height h in which no page belongs to two nodes. */
  ghost predicate Good(ns: Nodes, p: PageId, h: nat)
    decreases h
  {
    p in ns &&
    match ns[p]
    case LeafRec(_, _) => h == 0
    case InternalRec(keys, ch) =>
      && h > 0 && |ch| == |keys| + 1
      && (forall i :: 0 <= i < |ch| ==> Good(ns, ch[i], h - 1))
      && (forall i :: 0 <= i < |ch| ==> p !in Foot(ns, ch[i], h - 1))
      && (forall i, j :: 0 <= i < j < |ch| ==> Foot(ns, ch[i], h - 1) !! Foot(ns, ch[j], h - 1))
  }

  ghost predicate SameOn(ns: Nodes, ns': Nodes, f: set<PageId>) {
    forall q :: q in f ==> (q in ns <==> q in ns') && (q in ns ==> ns[q] == ns'[q])
  }

  lemma {:induction false} GoodShape(ns: Nodes, p: PageId, h: nat)
    requires Good(ns, p, h)
    ensures Shape(Abs(ns, p, h), h)
    decreases h
  {
    hide Foot;
    if ns[p].InternalRec? {
      forall i | 0 <= i < |ns[p].children|
        ensures Shape(Abs(ns, ns[p].children[i], h - 1), h - 1)
      {
        GoodShape(ns, ns[p].children[i], h - 1);
      }
    }
  }

  lemma LeafFoot(ns: Nodes, p: PageId)
    ensures Foot(ns, p, 0) == {p}
  {
  }

  lemma {:induction false} FootStored(ns: Nodes, p: PageId, h: nat)
    requires Good(ns, p, h)
    ensures Foot(ns, p, h) <= ns.Keys
    decreases h
  {
    hide UnionAll, Foot, Feet;
    if ns[p].InternalRec? {
      FootOf(ns, p, h);
      forall q | q in UnionAll(Feet(ns, ns[p].children, h - 1))
        ensures q in ns
      {
        var i := InSomeFoot(ns, ns[p].children, h - 1, q);
        FootStored(ns, ns[p].children[i], h - 1);
      }
    } else {
      LeafFoot(ns, p);
    }
  }

  /** A tree is untouched by changes outside its pages. */
  lemma {:induction false} Frame(ns: Nodes, ns': Nodes, p: PageId, h: nat)
    requires Good(ns, p, h) && SameOn(ns, ns', Foot(ns, p, h))
    ensures Good(ns', p, h) && Abs(ns', p, h) == Abs(ns, p, h) && Foot(ns', p, h) == Foot(ns, p, h)
    decreases h
  {
    hide UnionAll, Foot, Feet;
    assert ns'[p] == ns[p];
    if ns[p].InternalRec? {
      var ch := ns[p].children;
      FootOf(ns, p, h);
      FootOf(ns', p, h);
      forall i | 0 <= i < |ch|
        ensures Good(ns', ch[i], h - 1)
        ensures Abs(ns', ch[i], h - 1) == Abs(ns, ch[i], h - 1)
        ensures Foot(ns', ch[i], h - 1) == Foot(ns, ch[i], h - 1)
      {
        Frame(ns, ns', ch[i], h - 1);
      }
      SameFeet(ns, ns', ch, h - 1);
      assert Abs(ns', p, h).children == Abs(ns, p, h).children;
    } else {
      LeafFoot(ns, p);
      LeafFoot(ns', p);
    }
  }

  lemma SameFeet(ns: Nodes, ns': Nodes, ch: seq<PageId>, h: nat)
    requires forall i :: 0 <= i < |ch| ==> Foot(ns', ch[i], h) == Foot(ns, ch[i], h)
    ensures Feet(ns', ch, h) == Feet(ns, ch, h)
  {
  }

  /** An internal node seen through one of its children. */
  lemma AbsNode(ns: Nodes, p: PageId, h: nat, i: nat)
    requires Good(ns, p, h) && ns[p].InternalRec? && i < |ns[p].children|
    ensures var ch := ns[p].children; var t := Abs(ns, p, h);
            && h > 0 && t.Node? && t.keys == ns[p].keys && |t.children| == |ch| == |t.keys| + 1
            && Good(ns, ch[i], h - 1) && t.children[i] == Abs(ns, ch[i], h - 1)
            && Foot(ns, ch[i], h - 1) <= Foot(ns, p, h) && p !in Foot(ns, ch[i], h - 1)
            && forall j :: 0 <= j < |ch| && j != i ==> Foot(ns, ch[i], h - 1) !! Foot(ns, ch[j], h - 1)
  {
    hide Foot;
    FootOf(ns, p, h);
    var ch := ns[p].children;
    forall j | 0 <= j < |ch| && j != i
      ensures Foot(ns, ch[i], h - 1) !! Foot(ns, ch[j], h - 1)
    {
      if i < j {
        assert Foot(ns, ch[i], h - 1) !! Foot(ns, ch[j], h - 1);
      } else {
        assert Foot(ns, ch[j], h - 1) !! Foot(ns, ch[i], h - 1);
      }
    }
  }

  ghost predicate Apart(ns: Nodes, ch: seq<PageId>, h: nat) {
    forall i, j :: 0 <= i < j < |ch| ==> Foot(ns, ch[i], h) !! Foot(ns, ch[j], h)
  }

  /** A node whose children are all good and pairwise apart is good. */
  lemma GoodNode(ns: Nodes, p: PageId, h: nat)
    requires p in ns && ns[p].InternalRec? && h > 0 && |ns[p].children| == |ns[p].keys| + 1
    requires forall i :: 0 <= i < |ns[p].children| ==> Good(ns, ns[p].children[i], h - 1)
    requires forall i :: 0 <= i < |ns[p].children| ==> p !in Foot(ns, ns[p].children[i], h - 1)
    requires Apart(ns, ns[p].children, h - 1)
    ensures Good(ns, p, h)
  {
    hide Foot;
  }

  /** Only the pages of the tree at c changed, apart from fresh ones it took. */
  ghost predicate Rewrote(ns: Nodes, ns': Nodes, c: PageId, h: nat) {
    && Good(ns, c, h) && Good(ns', c, h)
    && SameOn(ns, ns', ns.Keys - Foot(ns, c, h))
    && Foot(ns', c, h) * ns.Keys == Foot(ns, c, h)
  }

  lemma RewroteTransitive(ns: Nodes, ns': Nodes, ns'': Nodes, c: PageId, h: nat)
    requires Rewrote(ns, ns', c, h) && Rewrote(ns', ns'', c, h) && ns.Keys <= ns'.Keys
    ensures Rewrote(ns, ns'', c, h)
  {
    hide Good, Foot;
  }

  /** Child j was rewritten into another tree, on its own pages and fresh ones. */
  lemma ChildRewritten(ns: Nodes, ns': Nodes, p: PageId, h: nat, j: nat)
    requires Good(ns, p, h) && ns[p].InternalRec? && j < |ns[p].children|
    requires h > 0 && Rewrote(ns, ns', ns[p].children[j], h - 1)
    ensures Rewrote(ns, ns', p, h) && ns'[p] == ns[p]
    ensures Abs(ns', p, h) == Node(ns[p].keys, Abs(ns, p, h).children[j := Abs(ns', ns[p].children[j], h - 1)])
    ensures Foot(ns', p, h) == Foot(ns, p, h) + Foot(ns', ns[p].children[j], h - 1)
  {
    var ch, c := ns[p].children, ns[p].children[j];
    hide Foot, Feet, UnionAll, Good;
    AbsNode(ns, p, h, j);
    FootStored(ns, p, h);
    forall i | 0 <= i < |ch| && i != j
      ensures Good(ns', ch[i], h - 1) && Abs(ns', ch[i], h - 1) == Abs(ns, ch[i], h - 1)
      ensures Foot(ns', ch[i], h - 1) == Foot(ns, ch[i], h - 1) <= ns.Keys
    {
      OtherChild(ns, ns', p, h, j, i);
    }
    RewrittenGood(ns, ns', p, h, j);
    RewrittenFoot(ns, ns', p, h, j);
    RewrittenAbs(ns, ns', p, h, j);
  }

  lemma RewrittenAbs(ns: Nodes, ns': Nodes, p: PageId, h: nat, j: nat)
    requires p in ns && ns[p].InternalRec? && j < |ns[p].children| && h > 0
    requires p in ns' && ns'[p] == ns[p]
    requires forall i :: 0 <= i < |ns[p].children| && i != j ==>
               Abs(ns', ns[p].children[i], h - 1) == Abs(ns, ns[p].children[i], h - 1)
    ensures Abs(ns, p, h).Node? && |Abs(ns, p, h).children| == |ns[p].children|
    ensures Abs(ns', p, h) == Node(ns[p].keys, Abs(ns, p, h).children[j := Abs(ns', ns[p].children[j], h - 1)])
  {
    assert Abs(ns', p, h).children == Abs(ns, p, h).children[j := Abs(ns', ns[p].children[j], h - 1)];
  }

  lemma OtherChild(ns: Nodes, ns': Nodes, p: PageId, h: nat, j: nat, i: nat)
    requires Good(ns, p, h) && ns[p].InternalRec? && j < |ns[p].children| && i < |ns[p].children| && i != j
    requires h > 0 && SameOn(ns, ns', ns.Keys - Foot(ns, ns[p].children[j], h - 1))
    ensures var d := ns[p].children[i];
            && Good(ns', d, h - 1) && Abs(ns', d, h - 1) == Abs(ns, d, h - 1)
            && Foot(ns', d, h - 1) == Foot(ns, d, h - 1) <= ns.Keys
  {
    var d := ns[p].children[i];
    hide Foot, Good;
    AbsNode(ns, p, h, i);
    FootStored(ns, d, h - 1);
    Frame(ns, ns', d, h - 1);
  }

  lemma RewrittenGood(ns: Nodes, ns': Nodes, p: PageId, h: nat, j: nat)
    requires Good(ns, p, h) && ns[p].InternalRec? && j < |ns[p].children|
    requires h > 0 && p in ns' && ns'[p] == ns[p]
    requires Good(ns', ns[p].children[j], h - 1)
    requires Foot(ns', ns[p].children[j], h - 1) * ns.Keys == Foot(ns, ns[p].children[j], h - 1)
    requires forall i :: 0 <= i < |ns[p].children| && i != j ==>
               && Good(ns', ns[p].children[i], h - 1)
               && Foot(ns', ns[p].children[i], h - 1) == Foot(ns, ns[p].children[i], h - 1) <= ns.Keys
    ensures Good(ns', p, h)
  {
    hide Foot, Abs;
    AbsNode(ns, p, h, j);
    GoodNode(ns', p, h);
  }

  lemma RewrittenFoot(ns: Nodes, ns': Nodes, p: PageId, h: nat, j: nat)
    requires p in ns && ns[p].InternalRec? && j < |ns[p].children|
    requires h > 0 && p in ns' && ns'[p] == ns[p]
    requires Foot(ns, ns[p].children[j], h - 1) <= Foot(ns', ns[p].children[j], h - 1)
    requires forall i :: 0 <= i < |ns[p].children| && i != j ==>
               Foot(ns', ns[p].children[i], h - 1) == Foot(ns, ns[p].children[i], h - 1)
    ensures Foot(ns', p, h) == Foot(ns, p, h) + Foot(ns', ns[p].children[j], h - 1)
  {
    hide Foot, Feet, UnionAll;
    var ch := ns[p].children;
    FootOf(ns, p, h);
    FootOf(ns', p, h);
    forall q
      ensures q in Foot(ns', p, h) <==> q in Foot(ns, p, h) || q in Foot(ns', ch[j], h - 1)
    {
      if q in UnionAll(Feet(ns', ch, h - 1)) {
        var i := InSomeFoot(ns', ch, h - 1, q);
        assert i == j || Foot(ns', ch[i], h - 1) == Foot(ns, ch[i], h - 1);
      }
      if q in UnionAll(Feet(ns, ch, h - 1)) {
        var i := InSomeFoot(ns, ch, h - 1, q);
        assert Foot(ns, ch[i], h - 1) <= Foot(ns', ch[i], h - 1);
      }
    }
  }
}
