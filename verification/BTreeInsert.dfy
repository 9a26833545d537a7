/** Insertion and lazy deletion on tree values, and the refinement of whole runs to a map. */
module BTreeInsert {
  import opened KeyOrder
  import opened BTreeModel
  import opened RowIds

  function InsertEntry(es: seq<Entry>, e: Entry): seq<Entry> {
    var p := Position(KeysOf(es), e.key);
    es[..p] + [e] + es[p..]
  }

  /** The node and the child index at which insertion of k continues below t: a full child is
      split first, and k then goes right only if it is above the new separator. */
  function Prepare(t: Tree, h: nat, k: Key, lim: Limits): (r: (Tree, nat))
    requires Shape(t, h) && t.Node? && GoodLimits(lim)
    ensures Shape(r.0, h) && r.0.Node? && r.1 < |r.0.children|
  {
    var i := Position(t.keys, k);
    if Full(t.children[i], lim) then
      assert Shape(t.children[i], h - 1);
      SplitChildShape(t, h, i);
      var n := SplitChild(t, i);
      (n, if Less(n.keys[i], k) then i + 1 else i)
    else (t, i)
  }

  function InsertNonfull(t: Tree, h: nat, e: Entry, lim: Limits): (t': Tree)
    requires Shape(t, h) && GoodLimits(lim)
    ensures Shape(t', h)
    decreases h
  {
    match t
    case Leaf(es) => Leaf(InsertEntry(es, e))
    case Node(_, _) =>
      var (n, j) := Prepare(t, h, e.key, lim);
      Node(n.keys, n.children[j := InsertNonfull(n.children[j], h - 1, e, lim)])
  }

  /** The tree below a new root after the old root was split. */
  function GrowRoot(t: Tree): Tree
    requires Splittable(t)
  {
    var s := Split(t);
    Node([s.sep], [s.left, s.right])
  }

  /** A root is split as soon as it holds as many keys as a full leaf, whatever its kind. */
  predicate RootFull(t: Tree, lim: Limits) {
    Count(t) >= lim.leaf
  }

  function HeightAfter(t: Tree, h: nat, lim: Limits): nat {
    if RootFull(t, lim) then h + 1 else h
  }

  function RootForInsert(t: Tree, h: nat, lim: Limits): (t': Tree)
    requires Shape(t, h) && GoodLimits(lim)
    ensures Shape(t', HeightAfter(t, h, lim))
  {
    if RootFull(t, lim) then SplitShape(t, h); GrowRoot(t) else t
  }

  function Insert(t: Tree, h: nat, e: Entry, lim: Limits): (t': Tree)
    requires Shape(t, h) && GoodLimits(lim)
    ensures Shape(t', HeightAfter(t, h, lim))
  {
    InsertNonfull(RootForInsert(t, h, lim), HeightAfter(t, h, lim), e, lim)
  }

  /** Child i of t is full and its separator is k itself; k then goes left of it. */
  predicate SplitsAt(t: Tree, k: Key, lim: Limits)
    requires t.Node? && |t.children| == |t.keys| + 1 && GoodLimits(lim)
    requires forall c :: c in t.children && c.Node? ==> |c.children| == |c.keys| + 1
  {
    var c := t.children[Position(t.keys, k)];
    Full(c, lim) && Split(c).sep == k
  }

  lemma ChildrenSplittable(t: Tree, h: nat)
    requires Shape(t, h) && t.Node?
    ensures forall c :: c in t.children && c.Node? ==> |c.children| == |c.keys| + 1
  {
    forall c | c in t.children && c.Node?
      ensures |c.children| == |c.keys| + 1
    {
      var i :| 0 <= i < |t.children| && t.children[i] == c;
      assert Shape(t.children[i], h - 1);
    }
  }

  /** Some split on the insertion path of k promotes k. */
  ghost predicate Promotes(t: Tree, h: nat, k: Key, lim: Limits)
    requires Shape(t, h) && GoodLimits(lim)
    decreases h
  {
    t.Node? && (
      ChildrenSplittable(t, h);
      var (n, j) := Prepare(t, h, k, lim);
      SplitsAt(t, k, lim) || Promotes(n.children[j], h - 1, k, lim))
  }

  // ----- what insertion does to the pairs held -----

  lemma {:induction false} InsertNonfullHas(t: Tree, h: nat, e: Entry, lim: Limits, k: Key, r: RowId)
    requires Shape(t, h) && GoodLimits(lim)
    ensures Has(InsertNonfull(t, h, e, lim), k, r) <==> Has(t, k, r) || Entry(k, r) == e
    decreases h
  {
    match t
    case Leaf(es) =>
      var p := Position(KeysOf(es), e.key);
      assert es == es[..p] + es[p..];
    case Node(keys, children) =>
      hide Has, Prepare, Less;
      var (n, j) := Prepare(t, h, e.key, lim);
      PrepareHas(t, h, e.key, lim, k, r);
      var c := n.children[j];
      InsertNonfullHas(c, h - 1, e, lim, k, r);
      ReplaceChildHas(n.keys, n.children, j, InsertNonfull(c, h - 1, e, lim), k, r);
      ReplaceChildHas(n.keys, n.children, j, c, k, r);
      assert n.children[j := c] == n.children;
  }

  lemma PrepareHas(t: Tree, h: nat, x: Key, lim: Limits, k: Key, r: RowId)
    requires Shape(t, h) && t.Node? && GoodLimits(lim)
    ensures Has(Prepare(t, h, x, lim).0, k, r) <==> Has(t, k, r)
  {
    hide Split, Has;
    var i := Position(t.keys, x);
    if Full(t.children[i], lim) {
      assert Shape(t.children[i], h - 1);
      SplitChildHas(t, h, i, k, r);
    }
  }

  lemma InsertHas(t: Tree, h: nat, e: Entry, lim: Limits, k: Key, r: RowId)
    requires Shape(t, h) && GoodLimits(lim)
    ensures Has(Insert(t, h, e, lim), k, r) <==> Has(t, k, r) || Entry(k, r) == e
  {
    var t0 := RootForInsert(t, h, lim);
    InsertNonfullHas(t0, HeightAfter(t, h, lim), e, lim, k, r);
    if RootFull(t, lim) {
      SplitHas(t, h, k, r);
      var s := Split(t);
      assert t0.children == [s.left, s.right];
      assert s.left in t0.children && s.right in t0.children;
    }
  }

  // ----- what insertion keeps -----

  lemma LeafInsertWF(es: seq<Entry>, e: Entry, lo: Bound, hi: Bound, lim: Limits)
    requires WF(Leaf(es), 0, lo, hi, lim) && |es| < lim.leaf
    requires AtLeast(lo, e.key) && Below(hi, e.key)
    requires forall i :: 0 <= i < |es| ==> es[i].key != e.key
    ensures WF(Leaf(InsertEntry(es, e)), 0, lo, hi, lim)
  {
    hide Less;
    var keys := KeysOf(es);
    var p := Position(keys, e.key);
    PositionSeparates(keys, e.key);
    var es' := InsertEntry(es, e);
    assert KeysOf(es') == keys[..p] + [e.key] + keys[p..];
  }

  lemma HalvesNotFull(t: Tree, lim: Limits)
    requires Splittable(t) && GoodLimits(lim) && Count(t) <= (if t.Leaf? then lim.leaf else lim.internal)
    ensures !Full(Split(t).left, lim) && !Full(Split(t).right, lim)
  {
  }

  /** After the preparation the node is well-formed, the chosen child has room, and its bounds
      admit k unless k itself was just promoted. */
  lemma PrepareWF(t: Tree, h: nat, lo: Bound, hi: Bound, lim: Limits, k: Key)
    requires WF(t, h, lo, hi, lim) && Shape(t, h) && t.Node? && GoodLimits(lim) && !Full(t, lim)
    requires AtLeast(lo, k) && Below(hi, k)
    requires forall c :: c in t.children && c.Node? ==> |c.children| == |c.keys| + 1
    ensures var (n, j) := Prepare(t, h, k, lim);
            && WF(n, h, lo, hi, lim) && !Full(n.children[j], lim)
            && (if SplitsAt(t, k, lim) then j < |n.keys| && n.keys[j] == k
                else AtLeast(Lo(n.keys, lo, j), k) && Below(Hi(n.keys, hi, j), k))
  {
    hide Less, Split, WF, Shape, Sorted;
    var i := Position(t.keys, k);
    WFArity(t, h, lo, hi, lim);
    WFChild(t, h, lo, hi, lim, i);
    PositionInBounds(t.keys, lo, hi, k);
    if Full(t.children[i], lim) {
      StrictTotalOrder();
      SplitChildWF(t, h, lo, hi, lim, i);
      HalvesNotFull(t.children[i], lim);
    }
  }

  lemma WFArity(t: Tree, h: nat, lo: Bound, hi: Bound, lim: Limits)
    requires WF(t, h, lo, hi, lim) && t.Node?
    ensures h > 0 && |t.children| == |t.keys| + 1
  {
  }

  lemma WFChild(t: Tree, h: nat, lo: Bound, hi: Bound, lim: Limits, i: nat)
    requires WF(t, h, lo, hi, lim) && t.Node? && i < |t.children|
    ensures h > 0 && |t.children| == |t.keys| + 1
    ensures WF(t.children[i], h - 1, Lo(t.keys, lo, i), Hi(t.keys, hi, i), lim)
    ensures Count(t.children[i]) <= if t.children[i].Leaf? then lim.leaf else lim.internal
    ensures t.children[i].Node? ==> |t.children[i].children| == |t.children[i].keys| + 1
    ensures Sorted(t.keys)
  {
  }

  lemma PositionInBounds(keys: seq<Key>, lo: Bound, hi: Bound, k: Key)
    requires AtLeast(lo, k) && Below(hi, k)
    ensures AtLeast(Lo(keys, lo, Position(keys, k)), k) && Below(Hi(keys, hi, Position(keys, k)), k)
  {
  }

  /** Insertion of an absent key keeps the tree well-formed unless a split promotes the key. */
  lemma {:induction false} InsertNonfullWF(t: Tree, h: nat, e: Entry, lo: Bound, hi: Bound, lim: Limits)
    requires WF(t, h, lo, hi, lim) && Shape(t, h) && GoodLimits(lim) && !Full(t, lim)
    requires AtLeast(lo, e.key) && Below(hi, e.key)
    requires !HasKey(t, e.key) && !Promotes(t, h, e.key, lim)
    ensures WF(InsertNonfull(t, h, e, lim), h, lo, hi, lim)
    decreases h
  {
    match t
    case Leaf(es) =>
      AbsentFromLeaf(es, e.key);
      LeafInsertWF(es, e, lo, hi, lim);
    case Node(_, _) =>
      hide Less, Sorted;
      ChildrenSplittable(t, h);
      var (n, j) := Prepare(t, h, e.key, lim);
      PrepareWF(t, h, lo, hi, lim, e.key);
      WFChild(n, h, lo, hi, lim, j);
      AbsentFromChild(t, h, e.key, lim, n, j);
      InsertNonfullWF(n.children[j], h - 1, e, Lo(n.keys, lo, j), Hi(n.keys, hi, j), lim);
      ReplaceChildWF(n, h, lo, hi, lim, j, InsertNonfull(n.children[j], h - 1, e, lim));
  }

  lemma AbsentFromLeaf(es: seq<Entry>, k: Key)
    requires !HasKey(Leaf(es), k)
    ensures forall i :: 0 <= i < |es| ==> es[i].key != k
  {
    forall i | 0 <= i < |es|
      ensures es[i].key != k
    {
      assert es[i] == Entry(es[i].key, es[i].ptr);
      assert Has(Leaf(es), es[i].key, es[i].ptr);
    }
  }

  lemma AbsentFromChild(t: Tree, h: nat, k: Key, lim: Limits, n: Tree, j: nat)
    requires Shape(t, h) && t.Node? && GoodLimits(lim) && !HasKey(t, k)
    requires (n, j) == Prepare(t, h, k, lim)
    ensures forall c :: c in n.children ==> !HasKey(c, k)
  {
    forall c, r | c in n.children && Has(c, k, r)
      ensures false
    {
      assert Has(n, k, r);
      PrepareHas(t, h, k, lim, k, r);
    }
  }

  lemma GrowRootWF(t: Tree, h: nat, lim: Limits)
    requires WF(t, h, Unbounded, Unbounded, lim) && Splittable(t) && GoodLimits(lim)
    ensures WF(GrowRoot(t), h + 1, Unbounded, Unbounded, lim)
  {
    hide Split, Less;
    SplitWF(t, h, Unbounded, Unbounded, lim);
    var g := GrowRoot(t);
    forall i | 0 <= i < |g.children|
      ensures WF(g.children[i], h, Lo(g.keys, Unbounded, i), Hi(g.keys, Unbounded, i), lim)
    {
    }
  }

  lemma RootForInsertWF(t: Tree, h: nat, lim: Limits)
    requires WF(t, h, Unbounded, Unbounded, lim) && Shape(t, h) && GoodLimits(lim)
    ensures WF(RootForInsert(t, h, lim), HeightAfter(t, h, lim), Unbounded, Unbounded, lim)
    ensures !Full(RootForInsert(t, h, lim), lim)
  {
    if RootFull(t, lim) {
      GrowRootWF(t, h, lim);
    }
  }

  lemma RootForInsertHasKey(t: Tree, h: nat, lim: Limits, k: Key)
    requires Shape(t, h) && GoodLimits(lim)
    ensures HasKey(RootForInsert(t, h, lim), k) <==> HasKey(t, k)
  {
    forall r
      ensures Has(RootForInsert(t, h, lim), k, r) <==> Has(t, k, r)
    {
      if RootFull(t, lim) {
        SplitHas(t, h, k, r);
        var s := Split(t);
        assert s.left in GrowRoot(t).children && s.right in GrowRoot(t).children;
      }
    }
  }

  /** Insert(t, h, e) puts e.key left of its own separator. */
  ghost predicate Misplaces(t: Tree, h: nat, k: Key, lim: Limits)
    requires Shape(t, h) && GoodLimits(lim)
  {
    Promotes(RootForInsert(t, h, lim), HeightAfter(t, h, lim), k, lim)
  }

  lemma InsertWF(t: Tree, h: nat, e: Entry, lim: Limits)
    requires WF(t, h, Unbounded, Unbounded, lim) && Shape(t, h) && GoodLimits(lim)
    requires !HasKey(t, e.key) && !Misplaces(t, h, e.key, lim)
    ensures WF(Insert(t, h, e, lim), HeightAfter(t, h, lim), Unbounded, Unbounded, lim)
  {
    RootForInsertWF(t, h, lim);
    RootForInsertHasKey(t, h, lim, e.key);
    InsertNonfullWF(RootForInsert(t, h, lim), HeightAfter(t, h, lim), e, Unbounded, Unbounded, lim);
  }

  // ----- exactly when an absent key is found after its insertion -----

  lemma NothingFound(t: Tree, h: nat, lo: Bound, hi: Bound, lim: Limits, k: Key)
    requires WF(t, h, lo, hi, lim) && !HasKey(t, k)
    ensures Search(t, k) == []
  {
    if Search(t, k) != [] {
      SearchFinds(t, h, lo, hi, lim, k, Search(t, k)[0]);
    }
  }

  lemma {:induction false} LostIfPromoted(t: Tree, h: nat, e: Entry, lo: Bound, hi: Bound, lim: Limits)
    requires WF(t, h, lo, hi, lim) && Shape(t, h) && GoodLimits(lim) && !Full(t, lim)
    requires AtLeast(lo, e.key) && Below(hi, e.key)
    requires !HasKey(t, e.key) && Promotes(t, h, e.key, lim)
    ensures Search(InsertNonfull(t, h, e, lim), e.key) == []
    decreases h
  {
    hide Less, WF, Prepare;
    ChildrenSplittable(t, h);
    var (n, j) := Prepare(t, h, e.key, lim);
    PrepareWF(t, h, lo, hi, lim, e.key);
    WFArity(n, h, lo, hi, lim);
    WFChild(n, h, lo, hi, lim, j);
    AbsentFromChild(t, h, e.key, lim, n, j);
    if SplitsAt(t, e.key, lim) {
      StrictTotalOrder();
      PositionSeparates(n.keys, e.key);
      WFChild(n, h, lo, hi, lim, j + 1);
      assert j + 1 < |n.keys| ==> Less(n.keys[j], n.keys[j + 1]);
      NothingFound(n.children[j + 1], h - 1, Lo(n.keys, lo, j + 1), Hi(n.keys, hi, j + 1), lim, e.key);
    } else {
      OnlyChildFor(n.keys, lo, hi, e.key, j);
      LostIfPromoted(n.children[j], h - 1, e, Lo(n.keys, lo, j), Hi(n.keys, hi, j), lim);
    }
  }

  /** For every well-formed tree and absent key: search finds the pair just inserted if and only
      if no split on the way promoted that very key (possible for a key deleted earlier). */
  lemma FoundIffNotMisplaced(t: Tree, h: nat, e: Entry, lim: Limits)
    requires WF(t, h, Unbounded, Unbounded, lim) && Shape(t, h) && GoodLimits(lim)
    requires !HasKey(t, e.key)
    ensures Search(Insert(t, h, e, lim), e.key) == [e.ptr] <==> !Misplaces(t, h, e.key, lim)
  {
    hide Less, WF, Shape, Has, Search, Promotes, InsertNonfull, Full, RootForInsert;
    var t0, h0 := RootForInsert(t, h, lim), HeightAfter(t, h, lim);
    RootForInsertWF(t, h, lim);
    RootForInsertHasKey(t, h, lim, e.key);
    if Misplaces(t, h, e.key, lim) {
      LostIfPromoted(t0, h0, e, Unbounded, Unbounded, lim);
    } else {
      InsertWF(t, h, e, lim);
      InsertHas(t, h, e, lim, e.key, e.ptr);
      SearchFinds(Insert(t, h, e, lim), h0, Unbounded, Unbounded, lim, e.key, e.ptr);
    }
  }

  // ----- keys that occur anywhere, separators included -----

  ghost predicate Occurs(t: Tree, k: Key) {
    match t
    case Leaf(es) => exists i :: 0 <= i < |es| && es[i].key == k
    case Node(keys, children) => k in keys || exists c :: c in children && Occurs(c, k)
  }

  lemma SplitOccurs(t: Tree, k: Key)
    requires Splittable(t)
    requires Occurs(Split(t).left, k) || Occurs(Split(t).right, k) || Split(t).sep == k
    ensures Occurs(t, k)
  {
    var mid := Count(t) / 2;
    if t.Leaf? {
      assert t.entries == t.entries[..mid] + t.entries[mid..];
    } else {
      assert t.children == t.children[..mid + 1] + t.children[mid + 1..];
      assert t.keys == t.keys[..mid] + [t.keys[mid]] + t.keys[mid + 1..];
    }
  }

  lemma PrepareOccurs(t: Tree, h: nat, x: Key, lim: Limits, k: Key)
    requires Shape(t, h) && t.Node? && GoodLimits(lim)
    requires Occurs(Prepare(t, h, x, lim).0, k)
    ensures Occurs(t, k)
  {
    hide Split, Less;
    var i := Position(t.keys, x);
    var c := t.children[i];
    if Full(c, lim) {
      assert Shape(c, h - 1);
      var n := SplitChild(t, i);
      var s := Split(c);
      assert c in t.children;
      if k in n.keys && k != s.sep {
        assert k in t.keys;
      } else if k == s.sep {
        SplitOccurs(c, k);
      } else {
        var d :| d in n.children && Occurs(d, k);
        if d == s.left || d == s.right {
          SplitOccurs(c, k);
        } else {
          assert d in t.children;
        }
      }
    }
  }

  lemma {:induction false} PromotedOccurs(t: Tree, h: nat, k: Key, lim: Limits)
    requires Shape(t, h) && GoodLimits(lim) && Promotes(t, h, k, lim)
    ensures Occurs(t, k)
    decreases h
  {
    hide Split, Less;
    ChildrenSplittable(t, h);
    var (n, j) := Prepare(t, h, k, lim);
    if SplitsAt(t, k, lim) {
      SplitOccurs(t.children[Position(t.keys, k)], k);
    } else {
      PromotedOccurs(n.children[j], h - 1, k, lim);
      assert n.children[j] in n.children;
      PrepareOccurs(t, h, k, lim, k);
    }
  }

  lemma {:induction false} InsertNonfullOccurs(t: Tree, h: nat, e: Entry, lim: Limits, k: Key)
    requires Shape(t, h) && GoodLimits(lim)
    requires Occurs(InsertNonfull(t, h, e, lim), k)
    ensures Occurs(t, k) || k == e.key
    decreases h
  {
    hide Less;
    match t
    case Leaf(es) =>
    case Node(_, _) =>
      hide Split, Prepare;
      var (n, j) := Prepare(t, h, e.key, lim);
      if k !in n.keys {
        var c :| c in n.children[j := InsertNonfull(n.children[j], h - 1, e, lim)] && Occurs(c, k);
        if c == InsertNonfull(n.children[j], h - 1, e, lim) {
          InsertNonfullOccurs(n.children[j], h - 1, e, lim, k);
          assert n.children[j] in n.children;
        } else {
          assert c in n.children;
        }
      }
      if k != e.key {
        PrepareOccurs(t, h, e.key, lim, k);
      }
  }

  lemma RootOccurs(t: Tree, h: nat, lim: Limits, k: Key)
    requires Shape(t, h) && GoodLimits(lim) && Occurs(RootForInsert(t, h, lim), k)
    ensures Occurs(t, k)
  {
    hide Split;
    if RootFull(t, lim) {
      SplitOccurs(t, k);
    }
  }
}
