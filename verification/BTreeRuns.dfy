/** Whole runs of the index: inserts and lazy deletes refine a map from keys to row pointers. */
module BTreeRuns {
  import opened ByteCodec
  import opened KeyOrder
  import opened BTreeModel
  import opened BTreeInsert
  import opened RowIds

  function Without(es: seq<Entry>, e: Entry): seq<Entry> {
    if es == [] then []
    else (if es[0] == e then [] else [es[0]]) + Without(es[1..], e)
  }

  /** Removes the pair from the one leaf the scan leads to; no node is merged. */
  function DeleteFrom(t: Tree, e: Entry): Tree
    decreases t
  {
    match t
    case Leaf(es) => Leaf(Without(es, e))
    case Node(keys, children) =>
      var i := Position(keys, e.key);
      if i < |children| then Node(keys, children[i := DeleteFrom(children[i], e)]) else t
  }

  lemma {:induction false} WithoutKeeps(es: seq<Entry>, e: Entry)
    ensures |Without(es, e)| <= |es|
    ensures forall x :: x in Without(es, e) <==> x in es && x != e
    ensures Sorted(KeysOf(es)) ==> Sorted(KeysOf(Without(es, e)))
  {
    if es != [] {
      hide Less;
      var rest, out := es[1..], Without(es[1..], e);
      WithoutKeeps(rest, e);
      assert es == [es[0]] + rest;
      if Sorted(KeysOf(es)) {
        assert KeysOf(rest) == KeysOf(es)[1..];
        if es[0] != e {
          forall j | 0 <= j < |out|
            ensures Less(es[0].key, out[j].key)
          {
            assert out[j] in rest;
            var m :| 0 <= m < |rest| && rest[m] == out[j];
            assert Less(KeysOf(es)[0], KeysOf(es)[m + 1]);
          }
          assert KeysOf([es[0]] + out) == [es[0].key] + KeysOf(out);
        }
      }
    }
  }

  lemma {:induction false} DeleteShape(t: Tree, h: nat, e: Entry)
    requires Shape(t, h)
    ensures Shape(DeleteFrom(t, e), h)
    decreases h
  {
    if t.Node? {
      hide Less;
      var i := Position(t.keys, e.key);
      DeleteShape(t.children[i], h - 1, e);
    }
  }

  lemma {:induction false} DeleteWF(t: Tree, h: nat, e: Entry, lo: Bound, hi: Bound, lim: Limits)
    requires WF(t, h, lo, hi, lim)
    ensures WF(DeleteFrom(t, e), h, lo, hi, lim)
    decreases h
  {
    hide Less;
    match t
    case Leaf(es) =>
      WithoutKeeps(es, e);
      var out := Without(es, e);
      forall i | 0 <= i < |out|
        ensures AtLeast(lo, out[i].key) && Below(hi, out[i].key)
      {
        assert out[i] in es;
      }
    case Node(keys, children) =>
      var i := Position(keys, e.key);
      DeleteWF(children[i], h - 1, e, Lo(keys, lo, i), Hi(keys, hi, i), lim);
      ReplaceChildWF(t, h, lo, hi, lim, i, DeleteFrom(children[i], e));
  }

  lemma OtherChildrenLack(t: Tree, h: nat, lo: Bound, hi: Bound, lim: Limits, k: Key, r: RowId)
    requires WF(t, h, lo, hi, lim) && t.Node?
    ensures forall j :: 0 <= j < |t.children| && j != Position(t.keys, k) ==> !Has(t.children[j], k, r)
  {
    hide Less, WF, Has;
    WFArity(t, h, lo, hi, lim);
    forall j | 0 <= j < |t.children| && Has(t.children[j], k, r)
      ensures j == Position(t.keys, k)
    {
      WFChild(t, h, lo, hi, lim, j);
      HasWithinBounds(t.children[j], h - 1, Lo(t.keys, lo, j), Hi(t.keys, hi, j), lim, k, r);
      OnlyChildFor(t.keys, lo, hi, k, j);
    }
  }

  /** A well-formed tree holds the pair in no other leaf, so deletion removes it altogether. */
  lemma {:induction false} DeleteHas(t: Tree, h: nat, e: Entry, lo: Bound, hi: Bound, lim: Limits, k: Key, r: RowId)
    requires WF(t, h, lo, hi, lim)
    ensures Has(DeleteFrom(t, e), k, r) <==> Has(t, k, r) && Entry(k, r) != e
    decreases h
  {
    match t
    case Leaf(es) => WithoutKeeps(es, e);
    case Node(keys, children) =>
      hide Less, WF, Has;
      WFArity(t, h, lo, hi, lim);
      var i := Position(keys, e.key);
      WFChild(t, h, lo, hi, lim, i);
      DeleteHas(children[i], h - 1, e, Lo(keys, lo, i), Hi(keys, hi, i), lim, k, r);
      ReplaceChildHas(keys, children, i, DeleteFrom(children[i], e), k, r);
      ReplaceChildHas(keys, children, i, children[i], k, r);
      assert children[i := children[i]] == children;
      if k == e.key {
        OtherChildrenLack(t, h, lo, hi, lim, k, r);
      }
  }

  lemma {:induction false} DeleteOccurs(t: Tree, h: nat, e: Entry, k: Key)
    requires Shape(t, h) && Occurs(DeleteFrom(t, e), k)
    ensures Occurs(t, k)
    decreases h
  {
    match t
    case Leaf(es) =>
      WithoutKeeps(es, e);
      var i :| 0 <= i < |Without(es, e)| && Without(es, e)[i].key == k;
      assert Without(es, e)[i] in es;
    case Node(keys, children) =>
      hide Less;
      var i := Position(keys, e.key);
      if k !in keys {
        var c :| c in children[i := DeleteFrom(children[i], e)] && Occurs(c, k);
        if c == DeleteFrom(children[i], e) {
          DeleteOccurs(children[i], h - 1, e, k);
        }
      }
  }

  // ----- runs -----

  datatype Op = Ins(e: Entry) | Del(e: Entry)

  /** A tree with the depth of its leaves. */
  datatype Index = Index(tree: Tree, height: nat)

  ghost predicate Shaped(x: Index) {
    Shape(x.tree, x.height)
  }

  function Apply(x: Index, op: Op, lim: Limits): (x': Index)
    requires Shaped(x) && GoodLimits(lim)
    ensures Shaped(x')
  {
    match op
    case Ins(e) => Index(Insert(x.tree, x.height, e, lim), HeightAfter(x.tree, x.height, lim))
    case Del(e) => DeleteShape(x.tree, x.height, e); Index(DeleteFrom(x.tree, e), x.height)
  }

  function Execute(ops: seq<Op>, lim: Limits): (x: Index)
    requires GoodLimits(lim)
    ensures Shaped(x)
  {
    if ops == [] then Index(Leaf([]), 0)
    else Apply(Execute(ops[..|ops| - 1], lim), ops[|ops| - 1], lim)
  }

  /** The meaning of a run: the row pointer last inserted for each key and not yet deleted. */
  function Meaning(ops: seq<Op>): map<Key, RowId> {
    if ops == [] then map[]
    else
      var m, op := Meaning(ops[..|ops| - 1]), ops[|ops| - 1];
      if op.Ins? then m[op.e.key := op.e.ptr]
      else if op.e.key in m && m[op.e.key] == op.e.ptr then m - {op.e.key}
      else m
  }

  ghost predicate Inserts(ops: seq<Op>, k: Key) {
    exists i :: 0 <= i < |ops| && ops[i].Ins? && ops[i].e.key == k
  }

  /** No key is inserted twice, not even after it was deleted. */
  ghost predicate InsertsOnce(ops: seq<Op>) {
    forall i, j :: 0 <= i < j < |ops| && ops[i].Ins? && ops[j].Ins? ==> ops[i].e.key != ops[j].e.key
  }

  ghost predicate Represents(x: Index, m: map<Key, RowId>) {
    forall k, r :: Has(x.tree, k, r) <==> k in m && m[k] == r
  }

  ghost predicate Balanced(x: Index, lim: Limits) {
    WF(x.tree, x.height, Unbounded, Unbounded, lim)
  }

  lemma InsStep(x: Index, m: map<Key, RowId>, e: Entry, lim: Limits)
    requires GoodLimits(lim) && Shaped(x) && Balanced(x, lim) && Represents(x, m)
    requires e.key !in m && !Occurs(x.tree, e.key)
    ensures Balanced(Apply(x, Ins(e), lim), lim)
    ensures Represents(Apply(x, Ins(e), lim), m[e.key := e.ptr])
  {
    hide Less, WF, Occurs, Insert, Has;
    if Misplaces(x.tree, x.height, e.key, lim) {
      PromotedOccurs(RootForInsert(x.tree, x.height, lim), HeightAfter(x.tree, x.height, lim), e.key, lim);
      RootOccurs(x.tree, x.height, lim, e.key);
    }
    assert !HasKey(x.tree, e.key);
    InsertWF(x.tree, x.height, e, lim);
    forall k, r
      ensures Has(Apply(x, Ins(e), lim).tree, k, r) <==> k in m[e.key := e.ptr] && m[e.key := e.ptr][k] == r
    {
      InsertHas(x.tree, x.height, e, lim, k, r);
    }
  }

  lemma DelStep(x: Index, m: map<Key, RowId>, e: Entry, lim: Limits)
    requires GoodLimits(lim) && Shaped(x) && Balanced(x, lim) && Represents(x, m)
    ensures Balanced(Apply(x, Del(e), lim), lim)
    ensures Represents(Apply(x, Del(e), lim), if e.key in m && m[e.key] == e.ptr then m - {e.key} else m)
  {
    hide Less, WF, Has;
    DeleteWF(x.tree, x.height, e, Unbounded, Unbounded, lim);
    var m' := if e.key in m && m[e.key] == e.ptr then m - {e.key} else m;
    forall k, r
      ensures Has(DeleteFrom(x.tree, e), k, r) <==> k in m' && m'[k] == r
    {
      DeleteHas(x.tree, x.height, e, Unbounded, Unbounded, lim, k, r);
    }
  }

  lemma ApplyOccurs(x: Index, op: Op, lim: Limits, k: Key)
    requires GoodLimits(lim) && Shaped(x) && Occurs(Apply(x, op, lim).tree, k)
    ensures Occurs(x.tree, k) || (op.Ins? && op.e.key == k)
  {
    hide Less, Occurs, InsertNonfull;
    match op
    case Ins(e) =>
      InsertNonfullOccurs(RootForInsert(x.tree, x.height, lim), HeightAfter(x.tree, x.height, lim), e, lim, k);
      if k != e.key {
        RootOccurs(x.tree, x.height, lim, k);
      }
    case Del(e) => DeleteOccurs(x.tree, x.height, e, k);
  }

  lemma {:induction false} RunInvariant(ops: seq<Op>, lim: Limits)
    requires GoodLimits(lim) && InsertsOnce(ops)
    ensures Balanced(Execute(ops, lim), lim)
    ensures Represents(Execute(ops, lim), Meaning(ops))
    ensures forall k :: Occurs(Execute(ops, lim).tree, k) ==> Inserts(ops, k)
    ensures forall k :: k in Meaning(ops) ==> Inserts(ops, k)
  {
    if ops != [] {
      hide Less, Has, Occurs, WF;
      var before, op := ops[..|ops| - 1], ops[|ops| - 1];
      RunInvariant(before, lim);
      var x := Execute(before, lim);
      forall k | Inserts(before, k)
        ensures Inserts(ops, k)
      {
        var i :| 0 <= i < |before| && before[i].Ins? && before[i].e.key == k;
        assert ops[i] == before[i];
      }
      forall k | Occurs(Execute(ops, lim).tree, k)
        ensures Inserts(ops, k)
      {
        ApplyOccurs(x, op, lim, k);
        assert op.Ins? ==> Inserts(ops, op.e.key);
      }
      if op.Ins? {
        assert Inserts(ops, op.e.key);
        assert forall i :: 0 <= i < |before| ==> ops[i] == before[i];
        assert !Inserts(before, op.e.key);
        InsStep(x, Meaning(before), op.e, lim);
      } else {
        DelStep(x, Meaning(before), op.e, lim);
      }
    } else {
      assert Execute(ops, lim).tree == Leaf([]);
    }
  }

  /** The main refinement: after any run in which no key is inserted twice, search returns
      exactly the row pointer inserted and not deleted, and the tree is sorted, bounded by its
      separators, balanced and within the key limits. */
  lemma SearchRefinesMap(ops: seq<Op>, lim: Limits, k: Key)
    requires GoodLimits(lim) && InsertsOnce(ops)
    ensures Balanced(Execute(ops, lim), lim)
    ensures Search(Execute(ops, lim).tree, k) == if k in Meaning(ops) then [Meaning(ops)[k]] else []
  {
    hide Less, WF, Has, Search;
    RunInvariant(ops, lim);
    var x := Execute(ops, lim);
    if k in Meaning(ops) {
      SearchFinds(x.tree, x.height, Unbounded, Unbounded, lim, k, Meaning(ops)[k]);
    } else {
      NothingFound(x.tree, x.height, Unbounded, Unbounded, lim, k);
    }
  }

  // ----- a key deleted and inserted again can be lost -----

  const Small := Limits(2, 2)

  function One(n: Byte): seq<Entry> {
    [Entry([n], RowId(1, n))]
  }

  const LeftPart := Node([[1], [3]], [Leaf(One(0)), Leaf(One(1) + One(2)), Leaf([])])
  const RightPart := Node([], [Leaf(One(4))])

  /** What the inserts 4, 3, 1, 0, 2 and the delete of 3 leave with two keys to a node. */
  const AfterDelete := Node([[4]], [LeftPart, RightPart])

  lemma LeftPartWF()
    ensures WF(LeftPart, 1, Unbounded, At([4]), Small)
  {
    assert KeysOf(One(1) + One(2)) == [[1], [2]];
    assert WF(LeftPart.children[0], 0, Unbounded, At([1]), Small);
    assert WF(LeftPart.children[1], 0, At([1]), At([3]), Small);
    assert WF(LeftPart.children[2], 0, At([3]), At([4]), Small);
  }

  lemma AfterDeleteWF()
    ensures Shape(AfterDelete, 2) && WF(AfterDelete, 2, Unbounded, Unbounded, Small)
  {
    LeftPartWF();
    assert WF(RightPart.children[0], 0, At([4]), Unbounded, Small);
    assert WF(RightPart, 1, At([4]), Unbounded, Small);
    assert Separators([[4]], Unbounded, Unbounded);
    assert AfterDelete.children == [LeftPart, RightPart];
    WFShape(AfterDelete, 2, Unbounded, Unbounded, Small);
  }

  lemma AfterDeleteLacks3()
    ensures !HasKey(AfterDelete, [3])
  {
    AfterDeleteWF();
    assert Position([[4]], [3]) == 0;
    assert Position([[1], [3]], [3]) == 2;
    assert AfterDelete.children[0] == LeftPart && LeftPart.children[2] == Leaf([]);
    assert Search(LeftPart, [3]) == Search(Leaf([]), [3]) == [];
    assert Search(AfterDelete, [3]) == [];
    hide WF, Has, Search, Less;
    forall q
      ensures !Has(AfterDelete, [3], q)
    {
      SearchFinds(AfterDelete, 2, Unbounded, Unbounded, Small, [3], q);
    }
  }

  const Third := Node([[4]], [Leaf(One(1) + One(3)), Leaf(One(4))])
  const Fourth := Node([[3], [4]], [Leaf(One(0) + One(1)), Leaf(One(3)), Leaf(One(4))])
  const Fifth := Node([[4]], [Node([[1], [3]], [Leaf(One(0)), Leaf(One(1) + One(2)), Leaf(One(3))]), RightPart])

  function InsertOf(n: Byte): Op {
    Ins(One(n)[0])
  }

  lemma FirstStep()
    ensures Apply(Index(Leaf([]), 0), InsertOf(4), Small) == Index(Leaf(One(4)), 0)
  {
    assert InsertEntry([], One(4)[0]) == One(4);
  }

  lemma SecondStep()
    ensures Apply(Index(Leaf(One(4)), 0), InsertOf(3), Small) == Index(Leaf(One(3) + One(4)), 0)
  {
    assert Position([[4]], [3]) == 0;
    assert InsertEntry(One(4), One(3)[0]) == One(3) + One(4);
  }

  lemma ThirdStep()
    ensures Apply(Index(Leaf(One(3) + One(4)), 0), InsertOf(1), Small) == Index(Third, 1)
  {
    var two := Leaf(One(3) + One(4));
    assert Split(two) == Halves(Leaf(One(3)), [4], Leaf(One(4)));
    assert Position([[4]], [1]) == 0 && Position([[3]], [1]) == 0;
    assert InsertEntry(One(3), One(1)[0]) == One(1) + One(3);
  }

  lemma FourthStep()
    ensures Shape(Third, 1) && Apply(Index(Third, 1), InsertOf(0), Small) == Index(Fourth, 1)
  {
    assert Position([[4]], [0]) == 0 && Position([[1]], [0]) == 0;
    assert SplitChild(Third, 0) == Node([[3], [4]], [Leaf(One(1)), Leaf(One(3)), Leaf(One(4))]);
    assert InsertEntry(One(1), One(0)[0]) == One(0) + One(1);
  }

  lemma FourthSplit()
    ensures Split(Fourth) == Halves(Node([[3]], [Leaf(One(0) + One(1)), Leaf(One(3))]), [4], RightPart)
  {
    var c := Fourth.children;
    assert c[..2] == [Leaf(One(0) + One(1)), Leaf(One(3))] && c[2..] == [Leaf(One(4))];
    assert Fourth.keys[..1] == [[3]] && Fourth.keys[2..] == [];
  }

  lemma FifthStep()
    ensures Shape(Fourth, 1) && Apply(Index(Fourth, 1), InsertOf(2), Small) == Index(Fifth, 2)
  {
    var left := Node([[3]], [Leaf(One(0) + One(1)), Leaf(One(3))]);
    FourthSplit();
    assert Position([[4]], [2]) == 0 && Position([[3]], [2]) == 0 && Position([[1]], [2]) == 1;
    assert SplitChild(left, 0) == Node([[1], [3]], [Leaf(One(0)), Leaf(One(1)), Leaf(One(3))]);
    assert InsertEntry(One(1), One(2)[0]) == One(1) + One(2);
    assert InsertNonfull(left, 1, One(2)[0], Small) == Fifth.children[0];
  }

  lemma SixthLeft()
    ensures DeleteFrom(Fifth.children[0], One(3)[0]) == LeftPart
  {
    assert Position([[1], [3]], [3]) == 2;
    var c := Fifth.children[0].children;
    assert DeleteFrom(c[2], One(3)[0]) == Leaf([]);
    assert c[2 := Leaf([])] == LeftPart.children;
  }

  lemma SixthStep()
    ensures Shape(Fifth, 2) && Apply(Index(Fifth, 2), Del(One(3)[0]), Small) == Index(AfterDelete, 2)
  {
    assert Position([[4]], [3]) == 0;
    SixthLeft();
  }

  const TheRun := [InsertOf(4), InsertOf(3), InsertOf(1), InsertOf(0), InsertOf(2), Del(One(3)[0])]

  lemma AfterDeleteReached()
    ensures Execute(TheRun, Small) == Index(AfterDelete, 2)
  {
    hide Apply;
    FirstStep();
    SecondStep();
    ThirdStep();
    FourthStep();
    FifthStep();
    SixthStep();
    var ops := TheRun;
    Prefixes(ops);
    assert Execute(ops[..1], Small) == Index(Leaf(One(4)), 0);
    assert Execute(ops[..2], Small) == Index(Leaf(One(3) + One(4)), 0);
    assert Execute(ops[..3], Small) == Index(Third, 1);
    assert Execute(ops[..4], Small) == Index(Fourth, 1);
    assert Execute(ops[..5], Small) == Index(Fifth, 2);
    assert Execute(ops[..6], Small) == Index(AfterDelete, 2);
    assert ops[..6] == ops;
  }

  lemma Prefixes(ops: seq<Op>)
    ensures forall n :: 0 <= n < |ops| ==> ops[..n + 1][..n] == ops[..n]
  {
  }

  /** The inserts and the delete lead to a tree in which inserting 3 again splits the node that still has 3 as a
      separator; the new pair goes left of it and search, which goes right, no longer finds it. */
  lemma ReinsertedKeyLost(ptr: RowId)
    ensures Execute(TheRun, Small) == Index(AfterDelete, 2)
    ensures Search(Insert(AfterDelete, 2, Entry([3], ptr), Small), [3]) == []
  {
    AfterDeleteReached();
    hide Execute;
    AfterDeleteWF();
    AfterDeleteLacks3();
    assert Position([[4]], [3]) == 0;
    assert Split(AfterDelete.children[0]).sep == [3];
    ChildrenSplittable(AfterDelete, 2);
    assert SplitsAt(AfterDelete, [3], Small);
    LostIfPromoted(AfterDelete, 2, Entry([3], ptr), Unbounded, Unbounded, Small);
  }
}
