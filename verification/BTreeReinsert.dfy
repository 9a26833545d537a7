/** At every node limit a run of inserts and one delete leads to a tree in which the deleted key, inserted again,
    is not found: keys inserted in ascending order fill the last inner node, and its middle separator is the key. */
module BTreeReinsert {
  import opened ByteCodec
  import opened KeyOrder
  import opened RowIds
  import opened BTreeModel
  import opened BTreeInsert
  import opened BTreeRuns
  import opened BTreeOverflow
  import NP = NodePage
  import K = KeyEncoding
  import RF = RowFormat

  /** Inserts of the keys one after the other. */
  function Ascending(keys: seq<Key>): (ops: seq<Op>)
    ensures |ops| == |keys| && forall i :: 0 <= i < |keys| ==> ops[i] == Ins(Entry(keys[i], RowId(1, i)))
  {
    seq(|keys|, i requires 0 <= i < |keys| => Ins(Entry(keys[i], RowId(1, i))))
  }

  /** The index after the first n of them. */
  function After(keys: seq<Key>, n: nat, lim: Limits): (x: Index)
    requires n <= |keys| && GoodLimits(lim)
    ensures Shaped(x)
  {
    Execute(Ascending(keys)[..n], lim)
  }

  lemma AfterNext(keys: seq<Key>, n: nat, lim: Limits)
    requires n < |keys| && GoodLimits(lim)
    ensures After(keys, n + 1, lim) == Apply(After(keys, n, lim), Ins(Entry(keys[n], RowId(1, n))), lim)
  {
    hide Apply;
    var ops := Ascending(keys);
    assert ops[..n + 1][..n] == ops[..n];
  }

  /** k is above every key of the tree. */
  ghost predicate Tops(t: Tree, k: Key) {
    forall x :: Occurs(t, x) ==> Less(x, k)
  }

  lemma AscendingOnce(keys: seq<Key>, n: nat)
    requires Sorted(keys) && n <= |keys|
    ensures InsertsOnce(Ascending(keys)[..n])
  {
    hide Less;
    StrictTotalOrder();
    forall i, j | 0 <= i < j < n
      ensures keys[i] != keys[j]
    {
      assert Less(keys[i], keys[j]);
    }
  }

  /** The next key is above all that are there. */
  lemma NextTops(keys: seq<Key>, n: nat, lim: Limits)
    requires Sorted(keys) && n < |keys| && GoodLimits(lim)
    ensures Balanced(After(keys, n, lim), lim) && Tops(After(keys, n, lim).tree, keys[n])
  {
    hide Less, Occurs, Execute, Meaning, Balanced, Represents;
    AscendingOnce(keys, n);
    RunInvariant(Ascending(keys)[..n], lim);
    forall x | Occurs(After(keys, n, lim).tree, x)
      ensures Less(x, keys[n])
    {
      var i :| 0 <= i < n && Ascending(keys)[i].e.key == x;
      assert Less(keys[i], keys[n]);
    }
  }

  // ----- inserting at the right end -----

  function Last(t: Tree): Tree
    requires t.Node? && |t.children| == |t.keys| + 1
  {
    t.children[|t.keys|]
  }

  lemma TopsPosition(t: Tree, k: Key)
    requires t.Node? && |t.children| == |t.keys| + 1 && Tops(t, k)
    ensures Position(t.keys, k) == |t.keys| && Tops(Last(t), k)
  {
    hide Less;
    StrictTotalOrder();
    assert forall i :: 0 <= i < |t.keys| ==> Occurs(t, t.keys[i]);
    assert Last(t) in t.children;
  }

  lemma SepBelow(t: Tree, c: Tree, k: Key)
    requires t.Node? && c in t.children && Splittable(c) && Tops(t, k)
    ensures Less(Split(c).sep, k)
  {
    SplitOccurs(c, Split(c).sep);
    assert Occurs(t, Split(c).sep);
  }

  /** A full last child is split, and the insertion goes on in its right half. */
  lemma PrepareLast(t: Tree, h: nat, k: Key, lim: Limits)
    requires Shape(t, h) && t.Node? && GoodLimits(lim) && Tops(t, k)
    ensures !Full(Last(t), lim) ==> Prepare(t, h, k, lim) == (t, |t.keys|)
    ensures Full(Last(t), lim) ==>
              Splittable(Last(t)) && Prepare(t, h, k, lim) == (SplitChild(t, |t.keys|), |t.keys| + 1)
  {
    hide Less, Split, Occurs, Tops;
    TopsPosition(t, k);
    if Full(Last(t), lim) {
      assert Shape(t.children[|t.keys|], h - 1);
      SepBelow(t, Last(t), k);
    }
  }

  /** The last leaf of a node over leaves. */
  function LastCount(t: Tree): nat
    requires t.Node? && |t.children| == |t.keys| + 1
  {
    Count(Last(t))
  }

  /** One more key at the right end of a node over leaves. */
  lemma AppendBelow(t: Tree, e: Entry, lo: Bound, hi: Bound, lim: Limits)
    requires WF(t, 1, lo, hi, lim) && Shape(t, 1) && GoodLimits(lim) && Tops(t, e.key)
    ensures t.Node? && LastCount(t) <= lim.leaf
    ensures var t' := InsertNonfull(t, 1, e, lim);
            && t'.Node? && |t'.children| == |t'.keys| + 1
            && (if LastCount(t) < lim.leaf then |t'.keys| == |t.keys| && LastCount(t') == LastCount(t) + 1
                else |t'.keys| == |t.keys| + 1 && LastCount(t') == lim.leaf - lim.leaf / 2 + 1)
  {
    hide Less, Tops, Occurs, Prepare;
    PrepareLast(t, 1, e.key, lim);
    assert Shape(t.children[|t.keys|], 0);
    assert WF(t.children[|t.keys|], 0, Lo(t.keys, lo, |t.keys|), Hi(t.keys, hi, |t.keys|), lim);
  }

  // ----- how long it takes -----

  /** A bound on the insertions until a node over leaves is full. */
  function Steps(t: Tree, lim: Limits): int
    requires t.Node? && |t.children| == |t.keys| + 1
  {
    (lim.internal - |t.keys|) * (lim.leaf + 1) + (lim.leaf - LastCount(t))
  }

  lemma FewerSteps(t: Tree, t': Tree, lim: Limits)
    requires GoodLimits(lim) && t.Node? && |t.children| == |t.keys| + 1 && t'.Node? && |t'.children| == |t'.keys| + 1
    requires |t.keys| < lim.internal && LastCount(t) <= lim.leaf
    requires if LastCount(t) < lim.leaf then |t'.keys| == |t.keys| && LastCount(t') == LastCount(t) + 1
             else |t'.keys| == |t.keys| + 1 && LastCount(t') == lim.leaf - lim.leaf / 2 + 1
    ensures 0 <= Steps(t', lim) < Steps(t, lim)
  {
    var a := lim.internal - |t.keys|;
    NextRound(a, lim.leaf);
    assert LastCount(t) == lim.leaf ==> lim.internal - |t'.keys| == a - 1;
  }

  lemma NextRound(a: nat, l: nat)
    requires a >= 1
    ensures a * (l + 1) == (a - 1) * (l + 1) + (l + 1) && (a - 1) * (l + 1) >= 0
  {
  }

  lemma StepsBound(t: Tree, lim: Limits)
    requires t.Node? && |t.children| == |t.keys| + 1 && |t.keys| <= lim.internal && LastCount(t) <= lim.leaf
    ensures 0 <= Steps(t, lim) <= lim.internal * (lim.leaf + 1) + lim.leaf
  {
    var w := lim.leaf + 1;
    assert 0 <= (lim.internal - |t.keys|) * w <= lim.internal * w;
  }

  /** As many keys as suffice to fill an inner node below the root. */
  function Enough(lim: Limits): nat {
    2 * (lim.internal * (lim.leaf + 1) + lim.leaf) + lim.leaf + 2
  }

  // ----- the tree grows -----

  lemma {:induction false} GetsRoot(keys: seq<Key>, n: nat, lim: Limits) returns (n': nat)
    requires Sorted(keys) && GoodLimits(lim) && n < |keys| && After(keys, n, lim).height == 0
    requires n + lim.leaf - Count(After(keys, n, lim).tree) < |keys|
    ensures n' <= |keys| && After(keys, n', lim).height == 1
    ensures n' <= n + lim.leaf - Count(After(keys, n, lim).tree) + 1
    decreases |keys| - n
  {
    hide Less, After, Tops;
    var x := After(keys, n, lim);
    LeafCount(x, lim, keys, n);
    NextTops(keys, n, lim);
    AfterNext(keys, n, lim);
    if Count(x.tree) >= lim.leaf {
      n' := n + 1;
    } else {
      n' := GetsRoot(keys, n + 1, lim);
    }
  }

  lemma LeafCount(x: Index, lim: Limits, keys: seq<Key>, n: nat)
    requires Sorted(keys) && GoodLimits(lim) && n < |keys| && x == After(keys, n, lim)
    ensures Count(x.tree) <= if x.tree.Leaf? then lim.leaf else lim.internal
    ensures x.tree.Leaf? <==> x.height == 0
    ensures x.tree.Node? ==> |x.tree.children| == |x.tree.keys| + 1
  {
    hide Less, After, Tops;
    NextTops(keys, n, lim);
  }

  /** A root that has just been split has one key, and its right half has room. */
  lemma RootJustSplit(t: Tree, e: Entry, lim: Limits)
    requires WF(t, 1, Unbounded, Unbounded, lim) && Shape(t, 1) && GoodLimits(lim) && RootFull(t, lim) && Tops(t, e.key)
    ensures var t' := Insert(t, 1, e, lim);
            t'.Node? && |t'.keys| == 1 && |t'.children| == 2 && HeightAfter(t, 1, lim) == 2
  {
    hide Less, Occurs, WF, InsertNonfull;
    var g := GrowRoot(t);
    SplitShape(t, 1);
    forall x | Occurs(g, x)
      ensures Less(x, e.key)
    {
      RootOccurs(t, 1, lim, x);
    }
    CountWithin(t, lim);
    PrepareLast(g, 2, e.key, lim);
    InsertNode(g, 2, e, lim);
  }

  lemma CountWithin(t: Tree, lim: Limits)
    requires WF(t, 1, Unbounded, Unbounded, lim) && Shape(t, 1) && GoodLimits(lim) && RootFull(t, lim)
    ensures t.Node? && Splittable(t) && !Full(Split(t).right, lim)
    ensures |Split(t).right.children| == |Split(t).right.keys| + 1
  {
    HalvesNotFull(t, lim);
  }

  lemma InsertNode(t: Tree, h: nat, e: Entry, lim: Limits)
    requires Shape(t, h) && t.Node? && GoodLimits(lim)
    ensures var (n, j) := Prepare(t, h, e.key, lim);
            InsertNonfull(t, h, e, lim) == Node(n.keys, n.children[j := InsertNonfull(n.children[j], h - 1, e, lim)])
  {
    hide Prepare;
  }

  lemma {:induction false} GetsInnerNodes(keys: seq<Key>, n: nat, lim: Limits) returns (n': nat)
    requires Sorted(keys) && GoodLimits(lim) && n < |keys| && After(keys, n, lim).height == 1
    requires var t := After(keys, n, lim).tree;
             t.Node? && |t.children| == |t.keys| + 1 && n + Steps(t, lim) < |keys|
    ensures n' <= n + Steps(After(keys, n, lim).tree, lim) + 1 && n' <= |keys|
    ensures var x := After(keys, n', lim); x.height == 2 && x.tree.Node? && |x.tree.keys| == 1 && |x.tree.children| == 2
    decreases |keys| - n
  {
    hide Less, After, Tops, Steps, Insert, InsertNonfull;
    var x := After(keys, n, lim);
    LeafCount(x, lim, keys, n);
    NextTops(keys, n, lim);
    AfterNext(keys, n, lim);
    var e := Entry(keys[n], RowId(1, n));
    AppendBelow(x.tree, e, Unbounded, Unbounded, lim);
    StepsBound(x.tree, lim);
    if RootFull(x.tree, lim) {
      RootJustSplit(x.tree, e, lim);
      n' := n + 1;
    } else {
      FewerSteps(x.tree, InsertNonfull(x.tree, 1, e, lim), lim);
      NoRootSplit(x, e, lim);
      n' := GetsInnerNodes(keys, n + 1, lim);
    }
  }

  lemma NoRootSplit(x: Index, e: Entry, lim: Limits)
    requires Shaped(x) && GoodLimits(lim) && !RootFull(x.tree, lim)
    ensures Apply(x, Ins(e), lim) == Index(InsertNonfull(x.tree, x.height, e, lim), x.height)
  {
  }

  /** A root with one key over inner nodes, the last of which has room. */
  lemma AppendDeep(t: Tree, e: Entry, lim: Limits)
    requires WF(t, 2, Unbounded, Unbounded, lim) && Shape(t, 2) && GoodLimits(lim) && Tops(t, e.key)
    requires t.Node? && |t.keys| == 1 && !Full(Last(t), lim)
    ensures Last(t).Node? && WF(Last(t), 1, At(t.keys[0]), Unbounded, lim) && Shape(Last(t), 1) && Tops(Last(t), e.key)
    ensures InsertNonfull(t, 2, e, lim) == Node(t.keys, t.children[1 := InsertNonfull(Last(t), 1, e, lim)])
  {
    hide Less, Occurs, Tops, Prepare, InsertNonfull;
    assert WF(t.children[1], 1, Lo(t.keys, Unbounded, 1), Hi(t.keys, Unbounded, 1), lim);
    TopsPosition(t, e.key);
    PrepareLast(t, 2, e.key, lim);
    InsertNode(t, 2, e, lim);
  }

  lemma {:induction false} FillsInnerNode(keys: seq<Key>, n: nat, lim: Limits) returns (n': nat)
    requires Sorted(keys) && GoodLimits(lim) && n < |keys| && After(keys, n, lim).height == 2
    requires var t := After(keys, n, lim).tree;
             && t.Node? && |t.keys| == 1 && |t.children| == 2
             && Last(t).Node? && |Last(t).children| == |Last(t).keys| + 1
             && Count(Last(t)) <= lim.internal && n + Steps(Last(t), lim) < |keys|
    ensures n' < |keys|
    ensures var x := After(keys, n', lim);
            x.height == 2 && x.tree.Node? && |x.tree.keys| == 1 && |x.tree.children| == 2 && Full(Last(x.tree), lim)
    decreases |keys| - n
  {
    hide Less, After, Tops, Steps, Insert, InsertNonfull;
    var x := After(keys, n, lim);
    var c := Last(x.tree);
    n' := n;
    if !Full(c, lim) {
      NextTops(keys, n, lim);
      AfterNext(keys, n, lim);
      var e := Entry(keys[n], RowId(1, n));
      AppendDeep(x.tree, e, lim);
      AppendBelow(c, e, At(x.tree.keys[0]), Unbounded, lim);
      FewerSteps(c, InsertNonfull(c, 1, e, lim), lim);
      StepsBound(c, lim);
      NoRootSplit(x, e, lim);
      n' := FillsInnerNode(keys, n + 1, lim);
    }
  }

  // ----- the middle separator of the full node, deleted and inserted again -----

  lemma SepAbove(t: Tree, lim: Limits, i: nat)
    requires WF(t, 2, Unbounded, Unbounded, lim) && t.Node? && |t.keys| == 1 && |t.children| == 2
    requires Last(t).Node? && i < |Last(t).keys|
    ensures Position(t.keys, Last(t).keys[i]) == 1
  {
    assert WF(t.children[1], 1, Lo(t.keys, Unbounded, 1), Hi(t.keys, Unbounded, 1), lim);
    hide Less;
    StrictTotalOrder();
    assert Less(t.keys[0], Last(t).keys[i]);
  }

  /** Deletion leaves every separator where it is. */
  lemma SeparatorsStay(t: Tree, e: Entry, lim: Limits)
    requires Shape(t, 2) && t.Node? && |t.keys| == 1 && Position(t.keys, e.key) == 1
    ensures var t' := DeleteFrom(t, e);
            && t'.Node? && t'.keys == t.keys && |t'.children| == 2
            && Last(t').Node? && Last(t').keys == Last(t).keys && |Last(t').children| == |Last(t).keys| + 1
  {
    hide Less;
    assert Shape(t.children[1], 1);
  }

  /** The separator that the next split promotes. */
  function Middle(t: Tree): Key
    requires t.Node? && |t.keys| >= 1
  {
    t.keys[|t.keys| / 2]
  }

  lemma MiddlePromoted(t: Tree, lim: Limits, k: Key)
    requires Shape(t, 2) && GoodLimits(lim) && t.Node? && |t.keys| == 1 && Position(t.keys, k) == 1
    requires Last(t).Node? && Full(Last(t), lim) && k == Middle(Last(t))
    ensures Promotes(t, 2, k, lim)
  {
    hide Less, Prepare;
    ChildrenSplittable(t, 2);
    assert SplitsAt(t, k, lim);
  }

  lemma SeparatorLost(x: Index, m: map<Key, RowId>, k: Key, ptr: RowId, lim: Limits)
    requires GoodLimits(lim) && Shaped(x) && Balanced(x, lim) && Represents(x, m) && x.height == 2
    requires x.tree.Node? && |x.tree.keys| == 1 && |x.tree.children| == 2 && Last(x.tree).Node?
    requires Full(Last(x.tree), lim) && k == Middle(Last(x.tree)) && k in m
    ensures Search(x.tree, k) == [m[k]]
    ensures var y := Apply(x, Del(Entry(k, m[k])), lim);
            Search(y.tree, k) == [] && Search(Apply(y, Ins(Entry(k, ptr)), lim).tree, k) == []
  {
    hide Less, Search, Has, InsertNonfull, Promotes, Represents, WF, DeleteFrom, Shape, Middle;
    var d := Entry(k, m[k]);
    var y := Apply(x, Del(d), lim);
    DelStep(x, m, d, lim);
    SepAbove(x.tree, lim, |Last(x.tree).keys| / 2);
    assert k == Last(x.tree).keys[|Last(x.tree).keys| / 2] by { MiddleIs(Last(x.tree)); }
    SeparatorsStay(x.tree, d, lim);
    SameMiddle(Last(x.tree), Last(y.tree));
    MiddlePromoted(y.tree, lim, k);
    OnlyMapped(x, m, lim, k);
    OnlyMapped(y, m - {k}, lim, k);
    LostIfPromoted(y.tree, 2, Entry(k, ptr), Unbounded, Unbounded, lim);
    NoRootSplit(y, Entry(k, ptr), lim);
  }

  lemma MiddleIs(t: Tree)
    requires t.Node? && |t.keys| >= 1
    ensures Middle(t) == t.keys[|t.keys| / 2]
  {
  }

  lemma SameMiddle(t: Tree, u: Tree)
    requires t.Node? && u.Node? && t.keys == u.keys && |t.keys| >= 1
    ensures Middle(t) == Middle(u)
  {
  }

  /** What search answers in a tree that stands for m. */
  lemma OnlyMapped(x: Index, m: map<Key, RowId>, lim: Limits, k: Key)
    requires GoodLimits(lim) && Shaped(x) && Balanced(x, lim) && Represents(x, m)
    ensures Search(x.tree, k) == if k in m then [m[k]] else []
    ensures k !in m ==> !HasKey(x.tree, k)
  {
    hide WF, Has, Search;
    if k in m {
      SearchFinds(x.tree, x.height, Unbounded, Unbounded, lim, k, m[k]);
    } else {
      NothingFound(x.tree, x.height, Unbounded, Unbounded, lim, k);
    }
  }

  lemma {:induction false} AscendingMeaning(keys: seq<Key>, n: nat, j: nat)
    requires Sorted(keys) && j < n <= |keys|
    ensures keys[j] in Meaning(Ascending(keys)[..n]) && Meaning(Ascending(keys)[..n])[keys[j]] == RowId(1, j)
  {
    hide Less;
    var ops := Ascending(keys);
    assert ops[..n][..n - 1] == ops[..n - 1];
    if j < n - 1 {
      StrictTotalOrder();
      assert Less(keys[j], keys[n - 1]);
      AscendingMeaning(keys, n - 1, j);
    }
  }

  /** Enough keys inserted in ascending order fill the last inner node below the root. */
  lemma LastNodeFills(keys: seq<Key>, lim: Limits) returns (n: nat)
    requires GoodLimits(lim) && Sorted(keys) && |keys| > Enough(lim)
    ensures n < |keys|
    ensures var x := After(keys, n, lim);
            && x.height == 2 && x.tree.Node? && |x.tree.keys| == 1 && |x.tree.children| == 2
            && Last(x.tree).Node? && Full(Last(x.tree), lim) && |Last(x.tree).keys| >= 2
  {
    hide Less, After, Steps;
    assert After(keys, 0, lim) == Index(Leaf([]), 0) by { NothingYet(keys, lim); }
    n := GetsRoot(keys, 0, lim);
    NextTops(keys, n, lim);
    RootFacts(After(keys, n, lim), lim);
    StepsBound(After(keys, n, lim).tree, lim);
    n := GetsInnerNodes(keys, n, lim);
    NextTops(keys, n, lim);
    LastFacts(After(keys, n, lim), lim);
    StepsBound(Last(After(keys, n, lim).tree), lim);
    n := FillsInnerNode(keys, n, lim);
    NextTops(keys, n, lim);
    LastFacts(After(keys, n, lim), lim);
  }

  lemma NothingYet(keys: seq<Key>, lim: Limits)
    requires GoodLimits(lim)
    ensures After(keys, 0, lim) == Index(Leaf([]), 0)
  {
  }

  lemma RootFacts(x: Index, lim: Limits)
    requires Balanced(x, lim) && x.height == 1
    ensures x.tree.Node? && |x.tree.children| == |x.tree.keys| + 1 && |x.tree.keys| <= lim.internal
    ensures LastCount(x.tree) <= lim.leaf
  {
    hide Less;
    var t := x.tree;
    assert WF(t.children[|t.keys|], 0, Lo(t.keys, Unbounded, |t.keys|), Hi(t.keys, Unbounded, |t.keys|), lim);
  }

  lemma LastFacts(x: Index, lim: Limits)
    requires Balanced(x, lim) && x.height == 2 && x.tree.Node? && |x.tree.keys| == 1 && |x.tree.children| == 2
    ensures var c := Last(x.tree);
            c.Node? && |c.children| == |c.keys| + 1 && |c.keys| <= lim.internal && LastCount(c) <= lim.leaf
  {
    hide Less;
    var t := x.tree;
    assert WF(t.children[1], 1, Lo(t.keys, Unbounded, 1), Hi(t.keys, Unbounded, 1), lim);
    var c := t.children[1];
    assert WF(c.children[|c.keys|], 0, Lo(c.keys, At(t.keys[0]), |c.keys|), Hi(c.keys, Unbounded, |c.keys|), lim);
  }

  /** For every node limits and every long enough list of ascending keys: some of them inserted in order and one
      deleted, that one is inserted again in vain. */
  lemma KeyLostAtAnyLimits(keys: seq<Key>, lim: Limits, ptr: RowId) returns (n: nat, j: nat)
    requires GoodLimits(lim) && Sorted(keys) && |keys| > Enough(lim)
    ensures j < n < |keys| && InsertsOnce(Ascending(keys)[..n])
    ensures var run, k, r := Ascending(keys)[..n], keys[j], RowId(1, j);
            && Search(Execute(run, lim).tree, k) == [r]
            && Search(Execute(run + [Del(Entry(k, r))], lim).tree, k) == []
            && Search(Execute(run + [Del(Entry(k, r)), Ins(Entry(k, ptr))], lim).tree, k) == []
  {
    hide Less, Occurs, Search, Apply, Balanced, Represents, Meaning, Full, Execute, Middle;
    n := LastNodeFills(keys, lim);
    var run := Ascending(keys)[..n];
    AscendingOnce(keys, n);
    RunInvariant(run, lim);
    var x := Execute(run, lim);
    assert x == After(keys, n, lim);
    var k := Middle(Last(x.tree));
    MiddleOccurs(x.tree);
    j :| 0 <= j < n && run[j].e.key == k;
    AscendingMeaning(keys, n, j);
    SeparatorLost(x, Meaning(run), k, ptr, lim);
    var d, i := Del(Entry(k, RowId(1, j))), Ins(Entry(k, ptr));
    ExecuteSnoc(run, d, lim);
    ExecuteSnoc(run + [d], i, lim);
    assert run + [d] + [i] == run + [d, i];
  }

  lemma MiddleOccurs(t: Tree)
    requires t.Node? && |t.children| == |t.keys| + 1 && Last(t).Node? && |Last(t).keys| >= 1
    ensures Occurs(t, Middle(Last(t)))
  {
    assert Last(t) in t.children && Occurs(Last(t), Middle(Last(t)));
  }

  lemma ExecuteSnoc(ops: seq<Op>, op: Op, lim: Limits)
    requires GoodLimits(lim)
    ensures Execute(ops + [op], lim) == Apply(Execute(ops, lim), op, lim)
  {
    assert (ops + [op])[..|ops|] == ops;
  }

  // ----- in particular at the limits of TEXT keys, on pages -----

  /** n in w characters of 7 bits, most significant first. */
  function Characters(n: nat, w: nat): (b: Bytes)
    ensures |b| == w && forall i :: 0 <= i < w ==> b[i] < 128
  {
    if w == 0 then [] else Characters(n / 128, w - 1) + [n % 128]
  }

  /** How many texts of w characters there are. */
  function Texts(w: nat): nat {
    if w == 0 then 1 else 128 * Texts(w - 1)
  }

  lemma {:induction false} CharactersOrder(m: nat, n: nat, w: nat)
    requires m < n < Texts(w)
    ensures Less(Characters(m, w), Characters(n, w))
  {
    if w > 0 {
      K.LessSnoc(Characters(m / 128, w - 1), m % 128, Characters(n / 128, w - 1), n % 128);
      if m / 128 < n / 128 {
        CharactersOrder(m / 128, n / 128, w - 1);
      } else {
        assert m / 128 == n / 128 && m % 128 < n % 128;
      }
    }
  }

  /** The n-th text of three characters, as a key. */
  function TextKey(n: nat): (k: Key)
    ensures |k| == 7
  {
    K.EncodeKey(RF.Str(Characters(n, 3)))
  }

  lemma {:induction false} SamePrefix(p: Key, a: Key, b: Key)
    ensures Less(p + a, p + b) <==> Less(a, b)
  {
    if p == [] {
      assert p + a == a && p + b == b;
    } else {
      assert (p + a)[1..] == p[1..] + a && (p + b)[1..] == p[1..] + b;
      SamePrefix(p[1..], a, b);
    }
  }

  lemma TextKeysSorted(keys: seq<Key>)
    requires |keys| <= Texts(3) && forall i :: 0 <= i < |keys| ==> keys[i] == TextKey(i)
    ensures Sorted(keys)
  {
    hide Less, Characters;
    forall i, j | 0 <= i < j < |keys|
      ensures Less(keys[i], keys[j])
    {
      CharactersOrder(i, j, 3);
      SamePrefix(K.BigEndian(3, 4), Characters(i, 3), Characters(j, 3));
    }
  }

  /** Texts of three characters, inserted into an index on a TEXT column, and one deleted: nothing overflows a page,
      and that one, inserted again, is not found. */
  lemma TextKeyLost(ptr: RowId) returns (keys: seq<Key>, n: nat, j: nat)
    ensures j < n < |keys| && InsertsOnce(Ascending(keys)[..n]) && GoodLimits(NP.LimitsOf(NP.TEXT))
    ensures forall i :: 0 <= i < |keys| ==> keys[i] == TextKey(i)
    ensures var run, k, r := Ascending(keys)[..n] + [Del(Entry(keys[j], RowId(1, j)))], keys[j], NP.LimitsOf(NP.TEXT);
            && Search(ExecuteOnPages(run, r).tree, k) == []
            && Search(ExecuteOnPages(run + [Ins(Entry(k, ptr))], r).tree, k) == []
  {
    hide Less, TextKey, Ascending, Execute, ExecuteOnPages, Search, NP.LimitsFit;
    NP.TextLimits();
    assert Texts(1) == 128 && Texts(2) == 16384 && Texts(3) == 2097152;
    NP.TextLimitsFitIff(30);
    var lim := NP.LimitsOf(NP.TEXT);
    keys := seq(Enough(lim) + 1, i requires 0 <= i => TextKey(i));
    TextKeysSorted(keys);
    n, j := KeyLostAtAnyLimits(keys, lim, ptr);
    var d, e := Del(Entry(keys[j], RowId(1, j))), Ins(Entry(keys[j], ptr));
    var run := Ascending(keys)[..n];
    assert run + [d, e] == run + [d] + [e];
    ShortKeysRun(run + [d], lim, 30);
    ShortKeysRun(run + [d] + [e], lim, 30);
  }
}
