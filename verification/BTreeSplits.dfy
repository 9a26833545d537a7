/** Splitting a stored node: the records written, and that they store the split tree. */
module BTreeSplits {
  import opened KeyOrder
  import opened BTreeModel
  import opened BTreeInsert
  import opened NodePage
  import opened BTreePages
  import opened RowIds

  datatype RecHalves = RecHalves(left: NodeRec, sep: Key, right: NodeRec)

  predicate RecSplittable(n: NodeRec) {
    CountOf(n) >= 2 && (n.InternalRec? ==> |n.children| == |n.keys| + 1)
  }

  /** The left half always forgets its right neighbour (next leaf 0). */
  function SplitRec(n: NodeRec): RecHalves
    requires RecSplittable(n)
  {
    var mid := CountOf(n) / 2;
    match n
    case LeafRec(es, next) => RecHalves(LeafRec(es[..mid], 0), es[mid].key, LeafRec(es[mid..], next))
    case InternalRec(keys, ch) =>
      RecHalves(InternalRec(keys[..mid], ch[..mid + 1]), keys[mid], InternalRec(keys[mid + 1..], ch[mid + 1..]))
  }

  lemma SplittableAbs(ns: Nodes, c: PageId, h: nat)
    requires Good(ns, c, h)
    ensures Count(Abs(ns, c, h)) == CountOf(ns[c]) && (Abs(ns, c, h).Leaf? <==> ns[c].LeafRec?)
    ensures CountOf(ns[c]) >= 2 ==> Splittable(Abs(ns, c, h)) && RecSplittable(ns[c])
  {
    hide Foot;
  }

  /** Two good trees side by side, on the pages of the old one and the page r. */
  ghost predicate StoredHalves(ns: Nodes, ns': Nodes, c: PageId, r: PageId, h: nat) {
    && Good(ns, c, h) && Good(ns', c, h) && Good(ns', r, h)
    && Foot(ns', c, h) !! Foot(ns', r, h)
    && Foot(ns', c, h) + Foot(ns', r, h) == Foot(ns, c, h) + {r}
    && SameOn(ns, ns', ns.Keys - Foot(ns, c, h))
  }

  lemma LeafHalves(ns: Nodes, ns': Nodes, c: PageId, r: PageId)
    requires Good(ns, c, 0) && RecSplittable(ns[c]) && r !in ns
    requires ns' == ns[c := SplitRec(ns[c]).left][r := SplitRec(ns[c]).right]
    ensures StoredHalves(ns, ns', c, r, 0)
    ensures Abs(ns', c, 0) == Split(Abs(ns, c, 0)).left && Abs(ns', r, 0) == Split(Abs(ns, c, 0)).right
    ensures SplitRec(ns[c]).sep == Split(Abs(ns, c, 0)).sep
  {
    LeafFoot(ns, c);
    LeafFoot(ns', c);
    LeafFoot(ns', r);
  }

  /** Grandchildren keep their trees while c and r are written. */
  lemma GrandchildKept(ns: Nodes, ns': Nodes, c: PageId, r: PageId, h: nat, i: nat)
    requires Good(ns, c, h) && ns[c].InternalRec? && i < |ns[c].children| && r !in ns
    requires SameOn(ns, ns', ns.Keys - {c})
    ensures h > 0
    ensures var d := ns[c].children[i];
            && Good(ns, d, h - 1) && Good(ns', d, h - 1) && Abs(ns', d, h - 1) == Abs(ns, d, h - 1)
            && Foot(ns', d, h - 1) == Foot(ns, d, h - 1)
            && c !in Foot(ns, d, h - 1) && r !in Foot(ns, d, h - 1)
  {
    var d := ns[c].children[i];
    hide Foot, Good;
    AbsNode(ns, c, h, i);
    FootStored(ns, d, h - 1);
    Frame(ns, ns', d, h - 1);
  }

  lemma NodeHalves(ns: Nodes, ns': Nodes, c: PageId, r: PageId, h: nat)
    requires Good(ns, c, h) && ns[c].InternalRec? && RecSplittable(ns[c]) && r !in ns
    requires ns' == ns[c := SplitRec(ns[c]).left][r := SplitRec(ns[c]).right]
    ensures StoredHalves(ns, ns', c, r, h)
    ensures Abs(ns', c, h) == Split(Abs(ns, c, h)).left && Abs(ns', r, h) == Split(Abs(ns, c, h)).right
    ensures SplitRec(ns[c]).sep == Split(Abs(ns, c, h)).sep
  {
    var ch, mid := ns[c].children, |ns[c].keys| / 2;
    forall i | 0 <= i < |ch|
      ensures h > 0 && Good(ns, ch[i], h - 1) && Good(ns', ch[i], h - 1)
      ensures Abs(ns', ch[i], h - 1) == Abs(ns, ch[i], h - 1)
      ensures Foot(ns', ch[i], h - 1) == Foot(ns, ch[i], h - 1)
      ensures c !in Foot(ns, ch[i], h - 1) && r !in Foot(ns, ch[i], h - 1)
    {
      GrandchildKept(ns, ns', c, r, h, i);
    }
    HalvesGood(ns, ns', c, r, h);
    HalvesFoot(ns, ns', c, r, h);
    HalvesAbs(ns, ns', c, r, h);
    FootStored(ns, c, h);
    hide Foot, Good;
    assert SameOn(ns, ns', ns.Keys - Foot(ns, c, h));
  }

  lemma HalvesGood(ns: Nodes, ns': Nodes, c: PageId, r: PageId, h: nat)
    requires Good(ns, c, h) && ns[c].InternalRec? && RecSplittable(ns[c]) && r !in ns && h > 0
    requires ns' == ns[c := SplitRec(ns[c]).left][r := SplitRec(ns[c]).right]
    requires forall i :: 0 <= i < |ns[c].children| ==>
               && Good(ns', ns[c].children[i], h - 1)
               && Foot(ns', ns[c].children[i], h - 1) == Foot(ns, ns[c].children[i], h - 1)
               && c !in Foot(ns, ns[c].children[i], h - 1) && r !in Foot(ns, ns[c].children[i], h - 1)
    ensures Good(ns', c, h) && Good(ns', r, h)
  {
    hide Foot, Abs;
    var ch, mid := ns[c].children, |ns[c].keys| / 2;
    var a, b := ch[..mid + 1], ch[mid + 1..];
    assert Apart(ns, ch, h - 1);
    forall i, j | 0 <= i < j < |a|
      ensures Foot(ns', a[i], h - 1) !! Foot(ns', a[j], h - 1)
    {
      assert Foot(ns, ch[i], h - 1) !! Foot(ns, ch[j], h - 1);
    }
    forall i, j | 0 <= i < j < |b|
      ensures Foot(ns', b[i], h - 1) !! Foot(ns', b[j], h - 1)
    {
      assert Foot(ns, ch[mid + 1 + i], h - 1) !! Foot(ns, ch[mid + 1 + j], h - 1);
    }
    GoodNode(ns', c, h);
    GoodNode(ns', r, h);
  }

  lemma HalvesAbs(ns: Nodes, ns': Nodes, c: PageId, r: PageId, h: nat)
    requires Good(ns, c, h) && ns[c].InternalRec? && RecSplittable(ns[c]) && r !in ns && h > 0
    requires ns' == ns[c := SplitRec(ns[c]).left][r := SplitRec(ns[c]).right]
    requires forall i :: 0 <= i < |ns[c].children| ==>
               Abs(ns', ns[c].children[i], h - 1) == Abs(ns, ns[c].children[i], h - 1)
    ensures Splittable(Abs(ns, c, h))
    ensures Abs(ns', c, h) == Split(Abs(ns, c, h)).left && Abs(ns', r, h) == Split(Abs(ns, c, h)).right
  {
    hide Foot, Less;
    var t, mid := Abs(ns, c, h), |ns[c].keys| / 2;
    hide Good;
    assert Abs(ns', c, h).children == t.children[..mid + 1];
    assert Abs(ns', r, h).children == t.children[mid + 1..];
  }

  lemma FeetApart(ns: Nodes, ch: seq<PageId>, h: nat)
    requires Apart(ns, ch, h)
    ensures var fs := Feet(ns, ch, h); forall i, j :: 0 <= i < j < |fs| ==> fs[i] !! fs[j]
  {
    hide Foot;
  }

  lemma FeetSlice(ns: Nodes, ns': Nodes, ch: seq<PageId>, h: nat, a: nat, b: nat)
    requires a <= b <= |ch|
    requires forall i :: a <= i < b ==> Foot(ns', ch[i], h) == Foot(ns, ch[i], h)
    ensures Feet(ns', ch[a..b], h) == Feet(ns, ch, h)[a..b]
  {
    hide Foot;
  }

  lemma HalvesFoot(ns: Nodes, ns': Nodes, c: PageId, r: PageId, h: nat)
    requires Good(ns, c, h) && ns[c].InternalRec? && RecSplittable(ns[c]) && r !in ns && h > 0
    requires ns' == ns[c := SplitRec(ns[c]).left][r := SplitRec(ns[c]).right]
    requires forall i :: 0 <= i < |ns[c].children| ==>
               && Foot(ns', ns[c].children[i], h - 1) == Foot(ns, ns[c].children[i], h - 1)
               && c !in Foot(ns, ns[c].children[i], h - 1) && r !in Foot(ns, ns[c].children[i], h - 1)
    ensures Foot(ns', c, h) !! Foot(ns', r, h)
    ensures Foot(ns', c, h) + Foot(ns', r, h) == Foot(ns, c, h) + {r}
  {
    hide Foot, Feet, UnionAll, Abs, Less;
    var ch, mid := ns[c].children, |ns[c].keys| / 2;
    assert Apart(ns, ch, h - 1);
    assert ns'[c].children == ch[0..mid + 1] && ns'[r].children == ch[mid + 1..|ch|];
    hide Good, SplitRec, Apart;
    FootOf(ns, c, h);
    FootOf(ns', c, h);
    FootOf(ns', r, h);
    OutsideChildren(ns, ch, h - 1, c);
    OutsideChildren(ns, ch, h - 1, r);
    ChildrenHalved(ns, ns', ch, h - 1, mid + 1);
  }

  lemma ChildrenHalved(ns: Nodes, ns': Nodes, ch: seq<PageId>, h: nat, m: nat)
    requires Apart(ns, ch, h) && m <= |ch|
    requires forall i :: 0 <= i < |ch| ==> Foot(ns', ch[i], h) == Foot(ns, ch[i], h)
    ensures UnionAll(Feet(ns', ch[0..m], h)) !! UnionAll(Feet(ns', ch[m..|ch|], h))
    ensures UnionAll(Feet(ns', ch[0..m], h)) + UnionAll(Feet(ns', ch[m..|ch|], h)) == UnionAll(Feet(ns, ch, h))
  {
    FeetApart(ns, ch, h);
    hide Foot, Feet, UnionAll, Apart;
    var fs := Feet(ns, ch, h);
    FeetSlice(ns, ns', ch, h, 0, m);
    FeetSlice(ns, ns', ch, h, m, |ch|);
    UnionsApart(fs, m);
    UnionConcat(fs[..m], fs[m..]);
    assert fs[..m] + fs[m..] == fs && fs[0..m] == fs[..m] && fs[m..|ch|] == fs[m..];
  }

  lemma OutsideChildren(ns: Nodes, ch: seq<PageId>, h: nat, q: PageId)
    requires forall i :: 0 <= i < |ch| ==> q !in Foot(ns, ch[i], h)
    ensures q !in UnionAll(Feet(ns, ch, h))
  {
    hide Foot, Feet, UnionAll;
    if q in UnionAll(Feet(ns, ch, h)) {
      var i := InSomeFoot(ns, ch, h, q);
    }
  }

  lemma HalvesStored(ns: Nodes, ns': Nodes, c: PageId, r: PageId, h: nat)
    requires Good(ns, c, h) && RecSplittable(ns[c]) && r !in ns
    requires ns' == ns[c := SplitRec(ns[c]).left][r := SplitRec(ns[c]).right]
    ensures Splittable(Abs(ns, c, h)) && StoredHalves(ns, ns', c, r, h)
    ensures Abs(ns', c, h) == Split(Abs(ns, c, h)).left && Abs(ns', r, h) == Split(Abs(ns, c, h)).right
    ensures SplitRec(ns[c]).sep == Split(Abs(ns, c, h)).sep
  {
    SplittableAbs(ns, c, h);
    if ns[c].LeafRec? {
      LeafHalves(ns, ns', c, r);
    } else {
      NodeHalves(ns, ns', c, r, h);
    }
  }

  // ----- the parent after a child was split -----

  /** The parent record with the separator and the new right page put in at i. */
  function ParentRec(n: NodeRec, i: nat, sep: Key, r: PageId): NodeRec
    requires n.InternalRec? && i <= |n.keys| && i + 1 <= |n.children|
  {
    InternalRec(n.keys[..i] + [sep] + n.keys[i..], n.children[..i + 1] + [r] + n.children[i + 1..])
  }

  /** All the writes of _split_child, child and right page first, parent last. */
  ghost function AfterSplit(ns: Nodes, p: PageId, i: nat, r: PageId): Nodes
    requires p in ns && ns[p].InternalRec? && i < |ns[p].children| == |ns[p].keys| + 1
    requires ns[p].children[i] in ns && RecSplittable(ns[ns[p].children[i]])
  {
    var c := ns[p].children[i];
    var s := SplitRec(ns[c]);
    ns[c := s.left][r := s.right][p := ParentRec(ns[p], i, s.sep, r)]
  }

  lemma SplitStored(ns: Nodes, p: PageId, h: nat, i: nat, r: PageId)
    requires Good(ns, p, h) && ns[p].InternalRec? && i < |ns[p].children| && r !in ns
    requires ns[p].children[i] in ns && RecSplittable(ns[ns[p].children[i]])
    ensures var ns', t := AfterSplit(ns, p, i, r), Abs(ns, p, h);
            && h > 0 && t.Node? && |t.children| == |t.keys| + 1 && i < |t.children| && Splittable(t.children[i])
            && Rewrote(ns, ns', p, h) && Foot(ns', p, h) == Foot(ns, p, h) + {r}
            && Abs(ns', p, h) == SplitChild(t, i)
  {
    var ns' := AfterSplit(ns, p, i, r);
    hide Foot, Good, SplitRec, Abs, SplitFacts, SplitAbsFacts, AfterSplit, SplitChild;
    AbsNode(ns, p, h, i);
    FootStored(ns, p, h);
    SplitFactsHold(ns, p, h, i, r);
    ParentGood(ns, ns', p, h, i, r);
    ParentFoot(ns, ns', p, h, i, r);
    ParentAbs(ns, ns', p, h, i, r);
    AfterSplitElsewhere(ns, p, h, i, r);
  }

  lemma AfterSplitElsewhere(ns: Nodes, p: PageId, h: nat, i: nat, r: PageId)
    requires Good(ns, p, h) && ns[p].InternalRec? && i < |ns[p].children| && r !in ns
    requires ns[p].children[i] in ns && RecSplittable(ns[ns[p].children[i]])
    ensures SameOn(ns, AfterSplit(ns, p, i, r), ns.Keys - Foot(ns, p, h))
  {
    hide Foot, Good, SplitRec;
    AbsNode(ns, p, h, i);
    assert ns[p].children[i] in Foot(ns, ns[p].children[i], h - 1);
  }

  /** A split followed by one more write, to a page x outside the tree that was split. */
  lemma HalvesThenWrite(ns: Nodes, c: PageId, r: PageId, h: nat, x: PageId, rec: NodeRec)
    requires Good(ns, c, h) && RecSplittable(ns[c]) && r !in ns
    requires x !in Foot(ns, c, h) && x != r
    ensures var ns' := ns[c := SplitRec(ns[c]).left][r := SplitRec(ns[c]).right][x := rec];
            && Splittable(Abs(ns, c, h))
            && Good(ns', c, h) && Good(ns', r, h)
            && Foot(ns', c, h) !! Foot(ns', r, h)
            && Foot(ns', c, h) + Foot(ns', r, h) == Foot(ns, c, h) + {r}
            && Abs(ns', c, h) == Split(Abs(ns, c, h)).left && Abs(ns', r, h) == Split(Abs(ns, c, h)).right
            && SplitRec(ns[c]).sep == Split(Abs(ns, c, h)).sep
  {
    var mid := ns[c := SplitRec(ns[c]).left][r := SplitRec(ns[c]).right];
    hide Foot, Feet, UnionAll, Good, Split, SplitRec, Abs;
    HalvesStored(ns, mid, c, r, h);
    WriteElsewhere(mid, c, h, x, rec);
    WriteElsewhere(mid, r, h, x, rec);
  }

  lemma WriteElsewhere(ns: Nodes, p: PageId, h: nat, x: PageId, rec: NodeRec)
    requires Good(ns, p, h) && x !in Foot(ns, p, h)
    ensures var ns' := ns[x := rec];
            Good(ns', p, h) && Abs(ns', p, h) == Abs(ns, p, h) && Foot(ns', p, h) == Foot(ns, p, h)
  {
    hide Foot, Good, Abs;
    Frame(ns, ns[x := rec], p, h);
  }

  lemma SplitFactsHold(ns: Nodes, p: PageId, h: nat, i: nat, r: PageId)
    requires Good(ns, p, h) && ns[p].InternalRec? && i < |ns[p].children| && r !in ns
    requires ns[p].children[i] in ns && RecSplittable(ns[ns[p].children[i]])
    ensures SplitFacts(ns, AfterSplit(ns, p, i, r), p, h, i, r)
    ensures SplitAbsFacts(ns, AfterSplit(ns, p, i, r), p, h, i, r)
  {
    var c := ns[p].children[i];
    var ns' := AfterSplit(ns, p, i, r);
    AbsNode(ns, p, h, i);
    hide Foot, Feet, UnionAll, Good, Abs, Split;
    HalvesThenWrite(ns, c, r, h - 1, p, ParentRec(ns[p], i, SplitRec(ns[c]).sep, r));
    hide SplitRec;
    forall j | 0 <= j < |ns[p].children| && j != i
      ensures Good(ns', ns[p].children[j], h - 1)
      ensures Abs(ns', ns[p].children[j], h - 1) == Abs(ns, ns[p].children[j], h - 1)
      ensures Foot(ns', ns[p].children[j], h - 1) == Foot(ns, ns[p].children[j], h - 1) <= ns.Keys
    {
      SiblingKept(ns, ns', p, h, i, r, j);
    }
  }

  lemma SiblingKept(ns: Nodes, ns': Nodes, p: PageId, h: nat, i: nat, r: PageId, j: nat)
    requires Good(ns, p, h) && ns[p].InternalRec? && i < |ns[p].children| && j < |ns[p].children| && i != j
    requires r !in ns && SameOn(ns, ns', ns.Keys - {ns[p].children[i], p})
    ensures h > 0
    ensures var d := ns[p].children[j];
            && Good(ns', d, h - 1) && Abs(ns', d, h - 1) == Abs(ns, d, h - 1)
            && Foot(ns', d, h - 1) == Foot(ns, d, h - 1) <= ns.Keys
  {
    var c, d := ns[p].children[i], ns[p].children[j];
    hide Foot, Good;
    AbsNode(ns, p, h, j);
    FootStored(ns, d, h - 1);
    assert c in Foot(ns, c, h - 1);
    Frame(ns, ns', d, h - 1);
  }

  /** What is known of the stores before and after when the parent's new list is examined. */
  ghost predicate SplitFacts(ns: Nodes, ns': Nodes, p: PageId, h: nat, i: nat, r: PageId) {
    && Good(ns, p, h) && ns[p].InternalRec? && i < |ns[p].children| && h > 0
    && p in ns' && ns'[p].InternalRec?
    && ns'[p].children == ns[p].children[..i + 1] + [r] + ns[p].children[i + 1..]
    && |ns'[p].keys| == |ns[p].keys| + 1
    && var ch := ns[p].children; var c := ch[i];
       && Good(ns', c, h - 1) && Good(ns', r, h - 1)
       && Foot(ns', c, h - 1) !! Foot(ns', r, h - 1)
       && Foot(ns', c, h - 1) + Foot(ns', r, h - 1) == Foot(ns, c, h - 1) + {r}
       && forall j :: 0 <= j < |ch| && j != i ==>
            Good(ns', ch[j], h - 1) && Foot(ns', ch[j], h - 1) == Foot(ns, ch[j], h - 1) <= ns.Keys
  }

  /** The same, for the trees stored. */
  ghost predicate SplitAbsFacts(ns: Nodes, ns': Nodes, p: PageId, h: nat, i: nat, r: PageId)
    requires p in ns && ns[p].InternalRec? && i < |ns[p].children| && h > 0
    requires p in ns' && ns'[p].InternalRec?
  {
    var t, c := Abs(ns, p, h), ns[p].children[i];
    && t.Node? && |t.children| == |t.keys| + 1 && i < |t.children| && Splittable(t.children[i])
    && ns'[p].keys == ns[p].keys[..i] + [Split(t.children[i]).sep] + ns[p].keys[i..]
    && Abs(ns', c, h - 1) == Split(t.children[i]).left && Abs(ns', r, h - 1) == Split(t.children[i]).right
    && forall j :: 0 <= j < |ns[p].children| && j != i ==>
         Abs(ns', ns[p].children[j], h - 1) == Abs(ns, ns[p].children[j], h - 1)
  }

  lemma ParentGood(ns: Nodes, ns': Nodes, p: PageId, h: nat, i: nat, r: PageId)
    requires SplitFacts(ns, ns', p, h, i, r) && r !in ns
    ensures Good(ns', p, h)
  {
    var ch, ch' := ns[p].children, ns'[p].children;
    assert |ch| == |ns[p].keys| + 1;
    ParentApart(ns, ns', p, h, i, r);
    hide Foot, Apart;
    AbsNode(ns, p, h, i);
    FootStored(ns, p, h);
    forall j | 0 <= j < |ch'|
      ensures Good(ns', ch'[j], h - 1) && p !in Foot(ns', ch'[j], h - 1)
    {
      if j != i && j != i + 1 {
        var k := if j < i then j else j - 1;
        AbsNode(ns, p, h, k);
        assert ch'[j] == ch[k];
      }
    }
    hide Good;
    GoodNode(ns', p, h);
  }

  /** Child j of the new list came from child j or j - 1 of the old one. */
  function Home(i: nat, j: nat): nat {
    if j <= i then j else j - 1
  }

  lemma ChildHome(ns: Nodes, ns': Nodes, p: PageId, h: nat, i: nat, r: PageId, j: nat)
    requires SplitFacts(ns, ns', p, h, i, r) && j < |ns'[p].children|
    ensures Home(i, j) < |ns[p].children|
    ensures Foot(ns', ns'[p].children[j], h - 1) <=
            Foot(ns, ns[p].children[Home(i, j)], h - 1) + (if Home(i, j) == i then {r} else {})
  {
    var ch, ch' := ns[p].children, ns'[p].children;
    hide Foot, Good;
    ListHome(ch, i, r, j);
    if j == i || j == i + 1 {
      assert Foot(ns', ch'[j], h - 1) <= Foot(ns', ch[i], h - 1) + Foot(ns', r, h - 1);
    }
  }

  lemma ListHome(ch: seq<PageId>, i: nat, r: PageId, j: nat)
    requires i < |ch| && j <= |ch|
    ensures (ch[..i + 1] + [r] + ch[i + 1..])[j] == if j == i + 1 then r else ch[Home(i, j)]
  {
  }

  lemma ParentApart(ns: Nodes, ns': Nodes, p: PageId, h: nat, i: nat, r: PageId)
    requires SplitFacts(ns, ns', p, h, i, r) && r !in ns
    ensures Apart(ns', ns'[p].children, h - 1)
  {
    var ch, ch' := ns[p].children, ns'[p].children;
    assert Apart(ns, ch, h - 1);
    forall j | 0 <= j < |ch|
      ensures r !in Foot(ns, ch[j], h - 1)
    {
      hide Foot, Apart;
      AbsNode(ns, p, h, j);
      FootStored(ns, ch[j], h - 1);
    }
    hide Foot, Feet, UnionAll, Good;
    assert ch'[i] == ch[i] && ch'[i + 1] == r;
    assert Foot(ns', ch'[i], h - 1) !! Foot(ns', ch'[i + 1], h - 1);
    hide SplitFacts;
    forall j, k | 0 <= j < k < |ch'|
      ensures Foot(ns', ch'[j], h - 1) !! Foot(ns', ch'[k], h - 1)
    {
      ChildHome(ns, ns', p, h, i, r, j);
      ChildHome(ns, ns', p, h, i, r, k);
      if Home(i, j) != Home(i, k) {
        assert Foot(ns, ch[Home(i, j)], h - 1) !! Foot(ns, ch[Home(i, k)], h - 1);
      }
    }
  }

  lemma ParentFoot(ns: Nodes, ns': Nodes, p: PageId, h: nat, i: nat, r: PageId)
    requires SplitFacts(ns, ns', p, h, i, r)
    ensures Foot(ns', p, h) == Foot(ns, p, h) + {r}
  {
    assert p in ns;
    hide Foot, Feet, UnionAll, Good;
    FootOf(ns, p, h);
    FootOf(ns', p, h);
    ParentFootGrows(ns, ns', p, h, i, r);
    ParentFootNoMore(ns, ns', p, h, i, r);
  }

  lemma ParentFootNoMore(ns: Nodes, ns': Nodes, p: PageId, h: nat, i: nat, r: PageId)
    requires SplitFacts(ns, ns', p, h, i, r)
    ensures UnionAll(Feet(ns', ns'[p].children, h - 1)) <= UnionAll(Feet(ns, ns[p].children, h - 1)) + {r}
  {
    var ch, ch' := ns[p].children, ns'[p].children;
    hide Foot, Feet, UnionAll, Good;
    var u, u' := UnionAll(Feet(ns, ch, h - 1)), UnionAll(Feet(ns', ch', h - 1));
    forall q | q in u'
      ensures q in u + {r}
    {
      var j := InSomeFoot(ns', ch', h - 1, q);
      ChildHome(ns, ns', p, h, i, r, j);
      InUnion(ns, ch, h - 1, Home(i, j));
    }
  }

  lemma GoodKnown(ns: Nodes, p: PageId, h: nat)
    requires Good(ns, p, h)
    ensures p in ns
  {
  }

  lemma ParentFootGrows(ns: Nodes, ns': Nodes, p: PageId, h: nat, i: nat, r: PageId)
    requires SplitFacts(ns, ns', p, h, i, r)
    ensures UnionAll(Feet(ns, ns[p].children, h - 1)) + {r} <= UnionAll(Feet(ns', ns'[p].children, h - 1))
  {
    hide Foot, Feet, UnionAll, Good;
    GoodKnown(ns, p, h);
    var ch, ch' := ns[p].children, ns'[p].children;
    assert ch'[i] == ch[i] && ch'[i + 1] == r && |ch'| == |ch| + 1;
    InUnion(ns', ch', h - 1, i);
    InUnion(ns', ch', h - 1, i + 1);
    assert Foot(ns, ch[i], h - 1) + {r} <= UnionAll(Feet(ns', ch', h - 1));
    var u, u' := UnionAll(Feet(ns, ch, h - 1)), UnionAll(Feet(ns', ch', h - 1));
    forall q | q in u
      ensures q in u'
    {
      var j := InSomeFoot(ns, ch, h - 1, q);
      if j != i {
        var k := if j < i then j else j + 1;
        assert ch'[k] == ch[j];
        InUnion(ns', ch', h - 1, k);
      }
    }
  }

  lemma InUnion(ns: Nodes, ch: seq<PageId>, h: nat, i: nat)
    requires i < |ch|
    ensures Foot(ns, ch[i], h) <= UnionAll(Feet(ns, ch, h))
  {
    var fs := Feet(ns, ch, h);
    assert fs[i] in fs;
  }

  lemma ParentAbs(ns: Nodes, ns': Nodes, p: PageId, h: nat, i: nat, r: PageId)
    requires SplitFacts(ns, ns', p, h, i, r) && SplitAbsFacts(ns, ns', p, h, i, r)
    ensures Abs(ns', p, h) == SplitChild(Abs(ns, p, h), i)
  {
    hide Foot, Good, Split, Splittable;
    var t, t', s := Abs(ns, p, h), Abs(ns', p, h), SplitChild(Abs(ns, p, h), i);
    var ch' := ns'[p].children;
    assert |t'.children| == |ch'| == |s.children|;
    forall j | 0 <= j < |ch'|
      ensures t'.children[j] == s.children[j]
    {
      if j != i + 1 {
        assert ch'[j] == ns[p].children[if j <= i then j else j - 1];
      }
    }
    assert t'.children == s.children;
  }

  /** The writes of insert when the root is split under a new root q. */
  ghost function AfterRootSplit(ns: Nodes, p: PageId, q: PageId, r: PageId): Nodes
    requires p in ns && RecSplittable(ns[p])
  {
    var s := SplitRec(ns[p]);
    ns[p := s.left][r := s.right][q := InternalRec([s.sep], [p, r])]
  }

  lemma RootSplitStored(ns: Nodes, p: PageId, h: nat, q: PageId, r: PageId)
    requires Good(ns, p, h) && RecSplittable(ns[p]) && q !in ns && r !in ns && q != r
    ensures var ns' := AfterRootSplit(ns, p, q, r);
            && Splittable(Abs(ns, p, h))
            && Good(ns', q, h + 1) && Abs(ns', q, h + 1) == GrowRoot(Abs(ns, p, h))
            && Foot(ns', q, h + 1) == Foot(ns, p, h) + {q, r}
  {
    FootStored(ns, p, h);
    hide Good, SplitRec, Foot, Split, Splittable, Abs, RecSplittable, Feet, UnionAll;
    var sep := SplitRec(ns[p]).sep;
    HalvesThenWrite(ns, p, r, h, q, InternalRec([sep], [p, r]));
    NewRoot(AfterRootSplit(ns, p, q, r), q, p, r, h, sep);
  }

  lemma NewRoot(ns: Nodes, q: PageId, p: PageId, r: PageId, h: nat, sep: Key)
    requires Good(ns, p, h) && Good(ns, r, h) && Foot(ns, p, h) !! Foot(ns, r, h)
    requires q in ns && ns[q] == InternalRec([sep], [p, r]) && q !in Foot(ns, p, h) + Foot(ns, r, h)
    ensures Good(ns, q, h + 1)
    ensures Abs(ns, q, h + 1) == Node([sep], [Abs(ns, p, h), Abs(ns, r, h)])
    ensures Foot(ns, q, h + 1) == {q} + Foot(ns, p, h) + Foot(ns, r, h)
  {
    hide Foot, Feet, UnionAll, Good;
    FootOf(ns, q, h + 1);
    TwoFeet(ns, p, r, h);
    GoodNode(ns, q, h + 1);
    assert Abs(ns, q, h + 1).children == [Abs(ns, p, h), Abs(ns, r, h)];
  }

  lemma TwoFeet(ns: Nodes, p: PageId, r: PageId, h: nat)
    ensures UnionAll(Feet(ns, [p, r], h)) == Foot(ns, p, h) + Foot(ns, r, h)
  {
    hide Foot;
    var fs := Feet(ns, [p, r], h);
    assert fs == [Foot(ns, p, h), Foot(ns, r, h)];
    var u := UnionAll(fs);
    assert fs[0] in fs && fs[1] in fs;
    assert forall q :: q in u <==> q in fs[0] || q in fs[1];
  }
}
