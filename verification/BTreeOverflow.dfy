/** Insertion into nodes that must fit their pages: writing a node that does not fit raises. The key limits
    do not rule it out, because they do not count the length stored with each key. */
module BTreeOverflow {
  import opened ByteCodec
  import opened KeyOrder
  import opened RowIds
  import opened BTreeModel
  import opened BTreeInsert
  import opened BTreeRuns
  import opened NodePage

  function KeysIn(t: Tree): seq<Key> {
    match t
    case Leaf(es) => KeysOf(es)
    case Node(keys, _) => keys
  }

  /** The node at the root of t fits a page. */
  predicate FitsPage(t: Tree) {
    KeysFit(t.Leaf?, KeysIn(t))
  }

  /** What becomes of an insertion: done; or the leaf it leads to has no room for the entry; or, before that, a
      node has no room for the separator of a child that was split. */
  datatype Outcome = Inserted | LeafFull | NodeFull

  function OutcomeBelow(t: Tree, h: nat, k: Key, lim: Limits): Outcome
    requires Shape(t, h) && GoodLimits(lim)
    decreases h
  {
    match t
    case Leaf(es) => if FitsPage(Leaf(InsertEntry(es, Entry(k, RowId(0, 0))))) then Inserted else LeafFull
    case Node(_, _) =>
      var (n, j) := Prepare(t, h, k, lim);
      if FitsPage(n) then OutcomeBelow(n.children[j], h - 1, k, lim) else NodeFull
  }

  /** The tree afterwards, unless a node was full: without room in the leaf, the splits on the way remain. */
  function Put(t: Tree, h: nat, e: Entry, lim: Limits): (t': Tree)
    requires Shape(t, h) && GoodLimits(lim)
    ensures Shape(t', h)
    decreases h
  {
    match t
    case Leaf(es) => if FitsPage(Leaf(InsertEntry(es, e))) then Leaf(InsertEntry(es, e)) else t
    case Node(_, _) =>
      var (n, j) := Prepare(t, h, e.key, lim);
      Node(n.keys, n.children[j := Put(n.children[j], h - 1, e, lim)])
  }

  function OutcomeOf(x: Index, k: Key, lim: Limits): Outcome
    requires Shaped(x) && GoodLimits(lim)
  {
    OutcomeBelow(RootForInsert(x.tree, x.height, lim), HeightAfter(x.tree, x.height, lim), k, lim)
  }

  function PutEntry(x: Index, e: Entry, lim: Limits): (x': Index)
    requires Shaped(x) && GoodLimits(lim)
    ensures Shaped(x')
  {
    var h := HeightAfter(x.tree, x.height, lim);
    Index(Put(RootForInsert(x.tree, x.height, lim), h, e, lim), h)
  }

  lemma SameKeys(es: seq<Entry>, e: Entry, d: Entry)
    requires e.key == d.key
    ensures KeysOf(InsertEntry(es, e)) == KeysOf(InsertEntry(es, d))
  {
    hide Less;
  }

  /** With room everywhere it is the insertion of BTreeInsert. */
  lemma {:induction false} PutInserts(t: Tree, h: nat, e: Entry, lim: Limits)
    requires Shape(t, h) && GoodLimits(lim) && OutcomeBelow(t, h, e.key, lim) == Inserted
    ensures Put(t, h, e, lim) == InsertNonfull(t, h, e, lim)
    decreases h
  {
    match t
    case Leaf(es) => SameKeys(es, e, Entry(e.key, RowId(0, 0)));
    case Node(_, _) =>
      hide Prepare, Less;
      var (n, j) := Prepare(t, h, e.key, lim);
      PutInserts(n.children[j], h - 1, e, lim);
  }

  /** Without room in the leaf no pair is gained or lost. */
  lemma {:induction false} PutKeeps(t: Tree, h: nat, e: Entry, lim: Limits, k: Key, r: RowId)
    requires Shape(t, h) && GoodLimits(lim) && OutcomeBelow(t, h, e.key, lim) == LeafFull
    ensures Has(Put(t, h, e, lim), k, r) <==> Has(t, k, r)
    decreases h
  {
    match t
    case Leaf(es) => SameKeys(es, e, Entry(e.key, RowId(0, 0)));
    case Node(_, _) =>
      hide Has, Prepare, Less;
      var (n, j) := Prepare(t, h, e.key, lim);
      PrepareHas(t, h, e.key, lim, k, r);
      var c := n.children[j];
      PutKeeps(c, h - 1, e, lim, k, r);
      ReplaceChildHas(n.keys, n.children, j, Put(c, h - 1, e, lim), k, r);
      ReplaceChildHas(n.keys, n.children, j, c, k, r);
      assert n.children[j := c] == n.children;
  }

  /** Nor is the tree's order, when no split promotes the key. */
  lemma {:induction false} PutWF(t: Tree, h: nat, e: Entry, lo: Bound, hi: Bound, lim: Limits)
    requires WF(t, h, lo, hi, lim) && Shape(t, h) && GoodLimits(lim) && !Full(t, lim)
    requires AtLeast(lo, e.key) && Below(hi, e.key)
    requires !Promotes(t, h, e.key, lim) && OutcomeBelow(t, h, e.key, lim) == LeafFull
    ensures WF(Put(t, h, e, lim), h, lo, hi, lim)
    decreases h
  {
    match t
    case Leaf(es) => SameKeys(es, e, Entry(e.key, RowId(0, 0)));
    case Node(_, _) =>
      hide Less, Sorted;
      ChildrenSplittable(t, h);
      var (n, j) := Prepare(t, h, e.key, lim);
      PrepareWF(t, h, lo, hi, lim, e.key);
      WFChild(n, h, lo, hi, lim, j);
      PutWF(n.children[j], h - 1, e, Lo(n.keys, lo, j), Hi(n.keys, hi, j), lim);
      ReplaceChildWF(n, h, lo, hi, lim, j, Put(n.children[j], h - 1, e, lim));
  }

  /** An insertion is the one of BTreeInsert when everything fits; when the leaf is full every search
      answers as before. */
  lemma PutEntryMeaning(x: Index, e: Entry, lim: Limits, k: Key)
    requires Shaped(x) && GoodLimits(lim) && Balanced(x, lim)
    ensures OutcomeOf(x, e.key, lim) == Inserted ==> PutEntry(x, e, lim) == Apply(x, Ins(e), lim)
    ensures OutcomeOf(x, e.key, lim) == LeafFull && !Misplaces(x.tree, x.height, e.key, lim) ==>
              Balanced(PutEntry(x, e, lim), lim) && Search(PutEntry(x, e, lim).tree, k) == Search(x.tree, k)
  {
    hide Less, WF, Shape, Has, Search, Promotes, InsertNonfull, Full, RootForInsert, Put, OutcomeBelow;
    var t, h := RootForInsert(x.tree, x.height, lim), HeightAfter(x.tree, x.height, lim);
    RootForInsertWF(x.tree, x.height, lim);
    if OutcomeOf(x, e.key, lim) == Inserted {
      PutInserts(t, h, e, lim);
    } else if OutcomeOf(x, e.key, lim) == LeafFull && !Misplaces(x.tree, x.height, e.key, lim) {
      PutWF(t, h, e, Unbounded, Unbounded, lim);
      forall r
        ensures Has(PutEntry(x, e, lim).tree, k, r) <==> Has(x.tree, k, r)
      {
        PutKeeps(t, h, e, lim, k, r);
        RootForInsertHas(x.tree, x.height, lim, k, r);
      }
      SamePairsSameSearch(x, PutEntry(x, e, lim), lim, k);
    }
  }

  lemma RootForInsertHas(t: Tree, h: nat, lim: Limits, k: Key, r: RowId)
    requires Shape(t, h) && GoodLimits(lim)
    ensures Has(RootForInsert(t, h, lim), k, r) <==> Has(t, k, r)
  {
    if RootFull(t, lim) {
      SplitHas(t, h, k, r);
      var s := Split(t);
      assert s.left in GrowRoot(t).children && s.right in GrowRoot(t).children;
    }
  }

  lemma SamePairsSameSearch(x: Index, y: Index, lim: Limits, k: Key)
    requires GoodLimits(lim) && Balanced(x, lim) && Balanced(y, lim)
    requires forall r :: Has(x.tree, k, r) <==> Has(y.tree, k, r)
    ensures Search(x.tree, k) == Search(y.tree, k)
  {
    hide WF, Has, Search;
    var a, b := Search(x.tree, k), Search(y.tree, k);
    forall r
      ensures r in a <==> r in b
      ensures |a| <= 1 && |b| <= 1
    {
      SearchFinds(x.tree, x.height, Unbounded, Unbounded, lim, k, r);
      SearchFinds(y.tree, y.height, Unbounded, Unbounded, lim, k, r);
    }
    assert a == [] || a[0] in a;
    assert b == [] || b[0] in b;
  }

  // ----- keys of fixed width: the index is one leaf -----

  /** How many entries of fixed-width keys a leaf has room for, below the limit that would split it. */
  function Capacity(t: KeyType): (n: nat)
    requires t != TEXT
    ensures t == BOOLEAN ==> n == 368
    ensures t != BOOLEAN ==> n == 225
    ensures n < LimitsOf(t).leaf
  {
    (PAGE_SIZE - NODE_DATA_OFFSET - 4) / (KeySize(t) + 10)
  }

  ghost predicate OfWidth(es: seq<Entry>, len: nat) {
    forall i :: 0 <= i < |es| ==> |es[i].key| == len
  }

  lemma CapacityExact(t: KeyType, es: seq<Entry>)
    requires t != TEXT && OfWidth(es, KeySize(t))
    ensures FitsPage(Leaf(es)) <==> |es| <= Capacity(t)
  {
    KeysSizeUniform(KeysOf(es), 10, KeySize(t));
  }

  lemma FixedLimits(t: KeyType)
    requires t != TEXT
    ensures GoodLimits(LimitsOf(t))
  {
  }

  /** A single leaf that fits its page: the next entry goes in or does not fit; there is nothing to split. */
  lemma LeafTakes(t: KeyType, es: seq<Entry>, e: Entry)
    requires t != TEXT && OfWidth(es, KeySize(t)) && |e.key| == KeySize(t) && |es| <= Capacity(t)
    ensures GoodLimits(LimitsOf(t))
    ensures var x := Index(Leaf(es), 0);
            && Shaped(x) && OutcomeOf(x, e.key, LimitsOf(t)) == (if |es| < Capacity(t) then Inserted else LeafFull)
            && PutEntry(x, e, LimitsOf(t)) == if |es| < Capacity(t) then Index(Leaf(InsertEntry(es, e)), 0) else x
    ensures OfWidth(InsertEntry(es, e), KeySize(t)) && |InsertEntry(es, e)| == |es| + 1
  {
    hide Less, InsertEntry, FitsPage, OfWidth, KeySize;
    FixedLimits(t);
    InsertedWidth(es, e, KeySize(t));
    InsertedWidth(es, Entry(e.key, RowId(0, 0)), KeySize(t));
    CapacityExact(t, InsertEntry(es, e));
    CapacityExact(t, InsertEntry(es, Entry(e.key, RowId(0, 0))));
    hide LimitsOf, Capacity;
    assert !RootFull(Leaf(es), LimitsOf(t));
  }

  lemma InsertedWidth(es: seq<Entry>, e: Entry, len: nat)
    requires OfWidth(es, len) && |e.key| == len
    ensures OfWidth(InsertEntry(es, e), len) && |InsertEntry(es, e)| == |es| + 1
  {
    hide Less;
  }

  function Step(x: Index, op: Op, lim: Limits): (x': Index)
    requires Shaped(x) && GoodLimits(lim)
    ensures Shaped(x')
  {
    if op.Ins? then PutEntry(x, op.e, lim) else Apply(x, op, lim)
  }

  function ExecuteOnPages(ops: seq<Op>, lim: Limits): (x: Index)
    requires GoodLimits(lim)
    ensures Shaped(x)
  {
    if ops == [] then Index(Leaf([]), 0) else Step(ExecuteOnPages(ops[..|ops| - 1], lim), ops[|ops| - 1], lim)
  }

  ghost predicate OneLeaf(x: Index, t: KeyType)
    requires t != TEXT
  {
    x.height == 0 && x.tree.Leaf? && OfWidth(x.tree.entries, KeySize(t)) && |x.tree.entries| <= Capacity(t)
  }

  ghost predicate InsertsOfWidth(ops: seq<Op>, len: nat) {
    forall i :: 0 <= i < |ops| && ops[i].Ins? ==> |ops[i].e.key| == len
  }

  /** Over every run an index of INTEGER, FLOAT or BOOLEAN keys stays one leaf: it is full before it would split. */
  lemma {:induction false} FixedWidthNeverSplits(ops: seq<Op>, t: KeyType)
    requires t != TEXT && InsertsOfWidth(ops, KeySize(t)) && GoodLimits(LimitsOf(t))
    ensures OneLeaf(ExecuteOnPages(ops, LimitsOf(t)), t)
  {
    if ops != [] {
      var before, op := ops[..|ops| - 1], ops[|ops| - 1];
      FixedWidthNeverSplits(before, t);
      var x := ExecuteOnPages(before, LimitsOf(t));
      hide LimitsOf, Capacity;
      if op.Ins? {
        LeafTakes(t, x.tree.entries, op.e);
      } else {
        WithoutKeeps(x.tree.entries, op.e);
        var out := Without(x.tree.entries, op.e);
        assert forall i :: 0 <= i < |out| ==> out[i] in x.tree.entries;
      }
    }
  }

  lemma {:induction false} LeafSizeOfMap(es: seq<Entry>, m: map<Key, RowId>)
    requires Sorted(KeysOf(es))
    requires forall k, r :: Entry(k, r) in es <==> k in m && m[k] == r
    ensures |es| == |m|
  {
    hide Less;
    StrictTotalOrder();
    assert forall k :: k in m ==> Entry(k, m[k]) in es;
    if es == [] {
      assert m.Keys == {};
    } else {
      var n := |es| - 1;
      var e, less := es[n], m - {es[n].key};
      assert KeysOf(es[..n]) == KeysOf(es)[..n];
      assert forall i :: 0 <= i < n ==> KeysOf(es)[i] != KeysOf(es)[n];
      forall k, r
        ensures Entry(k, r) in es[..n] <==> k in less && less[k] == r
      {
        assert es == es[..n] + [e];
      }
      LeafSizeOfMap(es[..n], less);
      assert Entry(e.key, e.ptr) in es && less.Keys == m.Keys - {e.key};
    }
  }

  /** Whenever the run inserts, fewer keys are live than the leaf has room for. */
  ghost predicate NeverFull(ops: seq<Op>, t: KeyType)
    requires t != TEXT
  {
    forall i :: 0 <= i < |ops| && ops[i].Ins? ==> |Meaning(ops[..i])| < Capacity(t)
  }

  /** The number of live keys decides whether an insertion fits. */
  lemma LiveKeys(ops: seq<Op>, t: KeyType)
    requires t != TEXT && GoodLimits(LimitsOf(t)) && InsertsOnce(ops)
    requires OneLeaf(Execute(ops, LimitsOf(t)), t)
    ensures |Execute(ops, LimitsOf(t)).tree.entries| == |Meaning(ops)|
  {
    hide LimitsOf, Capacity;
    RunInvariant(ops, LimitsOf(t));
    var x := Execute(ops, LimitsOf(t));
    forall k, r
      ensures Entry(k, r) in x.tree.entries <==> k in Meaning(ops) && Meaning(ops)[k] == r
    {
      assert Has(x.tree, k, r) <==> k in Meaning(ops) && Meaning(ops)[k] == r;
    }
    LeafSizeOfMap(x.tree.entries, Meaning(ops));
  }

  /** While at most as many keys are live as fit the leaf, nothing ever overflows, and the index on pages is the
      one of BTreeRuns. */
  lemma {:induction false} FixedWidthRun(ops: seq<Op>, t: KeyType)
    requires t != TEXT && GoodLimits(LimitsOf(t)) && InsertsOfWidth(ops, KeySize(t))
    requires InsertsOnce(ops) && NeverFull(ops, t)
    ensures ExecuteOnPages(ops, LimitsOf(t)) == Execute(ops, LimitsOf(t))
    ensures OneLeaf(Execute(ops, LimitsOf(t)), t)
  {
    hide LimitsOf, Capacity, PutEntry, Insert;
    FixedWidthNeverSplits(ops, t);
    if ops != [] {
      var before, op := ops[..|ops| - 1], ops[|ops| - 1];
      PrefixOfRun(ops, |ops| - 1, t);
      FixedWidthRun(before, t);
      if op.Ins? {
        LiveKeys(before, t);
        var x := Execute(before, LimitsOf(t));
        LeafTakes(t, x.tree.entries, op.e);
        InsertIntoOneLeaf(x.tree.entries, op.e, t);
      }
    }
  }

  lemma PrefixOfRun(ops: seq<Op>, n: nat, t: KeyType)
    requires t != TEXT && n <= |ops| && InsertsOfWidth(ops, KeySize(t)) && InsertsOnce(ops) && NeverFull(ops, t)
    ensures InsertsOfWidth(ops[..n], KeySize(t)) && InsertsOnce(ops[..n]) && NeverFull(ops[..n], t)
  {
    hide Capacity, Meaning;
    assert forall i :: 0 <= i < n ==> ops[..n][..i] == ops[..i];
  }

  lemma InsertIntoOneLeaf(es: seq<Entry>, e: Entry, t: KeyType)
    requires t != TEXT && GoodLimits(LimitsOf(t)) && |es| <= Capacity(t)
    ensures Apply(Index(Leaf(es), 0), Ins(e), LimitsOf(t)) == Index(Leaf(InsertEntry(es, e)), 0)
  {
  }

  /** So there search refines the map of BTreeRuns, and the next new key is taken exactly while there is room. */
  lemma FixedWidthRefinesMap(ops: seq<Op>, t: KeyType, e: Entry, k: Key)
    requires t != TEXT && GoodLimits(LimitsOf(t)) && InsertsOfWidth(ops, KeySize(t)) && |e.key| == KeySize(t)
    requires InsertsOnce(ops) && NeverFull(ops, t)
    ensures var x := ExecuteOnPages(ops, LimitsOf(t));
            && Search(x.tree, k) == (if k in Meaning(ops) then [Meaning(ops)[k]] else [])
            && (OutcomeOf(x, e.key, LimitsOf(t)) == Inserted <==> |Meaning(ops)| < Capacity(t))
            && OutcomeOf(x, e.key, LimitsOf(t)) != NodeFull
  {
    hide LimitsOf, Capacity, Execute, ExecuteOnPages, Search, OutcomeOf;
    FixedWidthRun(ops, t);
    SearchRefinesMap(ops, LimitsOf(t), k);
    LiveKeys(ops, t);
    LeafTakes(t, Execute(ops, LimitsOf(t)).tree.entries, e);
  }

  // ----- keys short enough for the limits: nothing ever overflows -----

  ghost predicate ShortKeys(t: Tree, len: nat) {
    forall k :: Occurs(t, k) ==> |k| <= len
  }

  /** Within the limits and with short keys, a leaf or internal node fits. */
  lemma WithinLimitsFits(t: Tree, lim: Limits, len: nat)
    requires LimitsFit(lim, len) && len < U16_LIMIT && lim.leaf < U16_LIMIT && lim.internal < U16_LIMIT
    requires Count(t) <= (if t.Leaf? then lim.leaf else lim.internal)
    requires forall i :: 0 <= i < |KeysIn(t)| ==> |KeysIn(t)[i]| <= len
    ensures FitsPage(t)
  {
    hide LimitsFit;
    var keys := KeysIn(t);
    var n := if t.Leaf? then LeafRec(seq(|keys|, i requires 0 <= i < |keys| => Entry(keys[i], RowId(0, 0))), 0)
             else InternalRec(keys, seq(|keys| + 1, _ => 0));
    assert KeysOfRec(n) == keys;
    assert Widths(n) && KeysShort(n, len) && WithinLimits(n, lim);
    LimitsFitOne(n, lim, len);
    FitsIff(n);
  }

  lemma LimitsFitOne(n: NodeRec, lim: Limits, len: nat)
    requires LimitsFit(lim, len) && Widths(n) && KeysShort(n, len) && WithinLimits(n, lim)
    ensures Fits(n)
  {
  }

  lemma OwnKeysOccur(t: Tree, len: nat)
    requires ShortKeys(t, len)
    ensures forall i :: 0 <= i < |KeysIn(t)| ==> |KeysIn(t)[i]| <= len
    ensures t.Node? ==> forall c :: c in t.children ==> ShortKeys(c, len)
  {
    forall i | 0 <= i < |KeysIn(t)|
      ensures |KeysIn(t)[i]| <= len
    {
      assert Occurs(t, KeysIn(t)[i]);
    }
    if t.Node? {
      forall c, k | c in t.children && Occurs(c, k)
        ensures |k| <= len
      {
        assert Occurs(t, k);
      }
    }
  }

  /** No node holds more keys than its limit. */
  ghost predicate InLimits(t: Tree, lim: Limits) {
    match t
    case Leaf(es) => |es| <= lim.leaf
    case Node(keys, children) => |keys| <= lim.internal && forall c :: c in children ==> InLimits(c, lim)
  }

  lemma SplitInLimits(t: Tree, h: nat, lim: Limits)
    requires Shape(t, h) && Splittable(t) && InLimits(t, lim) && GoodLimits(lim)
    ensures InLimits(Split(t).left, lim) && InLimits(Split(t).right, lim)
    ensures !Full(Split(t).left, lim) && !Full(Split(t).right, lim)
  {
    HalvesNotFull(t, lim);
  }

  lemma PreparedInLimits(t: Tree, h: nat, k: Key, lim: Limits)
    requires Shape(t, h) && t.Node? && GoodLimits(lim) && InLimits(t, lim) && !Full(t, lim)
    ensures var (n, j) := Prepare(t, h, k, lim);
            InLimits(n, lim) && InLimits(n.children[j], lim) && !Full(n.children[j], lim)
  {
    hide Less, Split;
    var i := Position(t.keys, k);
    assert t.children[i] in t.children && Shape(t.children[i], h - 1);
    if Full(t.children[i], lim) {
      SplitInLimits(t.children[i], h - 1, lim);
      var n, s := SplitChild(t, i), Split(t.children[i]);
      forall c | c in n.children
        ensures InLimits(c, lim)
      {
        assert c in t.children || c == s.left || c == s.right;
      }
    }
  }

  lemma PreparedShort(t: Tree, h: nat, k: Key, lim: Limits, len: nat)
    requires Shape(t, h) && t.Node? && GoodLimits(lim) && ShortKeys(t, len)
    ensures ShortKeys(Prepare(t, h, k, lim).0, len)
  {
    hide Prepare, Occurs;
    forall x | Occurs(Prepare(t, h, k, lim).0, x)
      ensures |x| <= len
    {
      PrepareOccurs(t, h, k, lim, x);
    }
  }

  lemma ShortLeafFits(es: seq<Entry>, k: Key, lim: Limits, len: nat)
    requires |es| < lim.leaf < U16_LIMIT && lim.internal < U16_LIMIT && ShortKeys(Leaf(es), len) && |k| <= len
    requires LimitsFit(lim, len) && len < U16_LIMIT
    ensures FitsPage(Leaf(InsertEntry(es, Entry(k, RowId(0, 0)))))
  {
    hide LimitsFit, Less;
    OwnKeysOccur(Leaf(es), len);
    var es' := InsertEntry(es, Entry(k, RowId(0, 0)));
    assert forall i :: 0 <= i < |es| ==> |KeysOf(es)[i]| <= len;
    WithinLimitsFits(Leaf(es'), lim, len);
  }

  /** The prepared node fits, and the chosen child is as good as the node was. */
  lemma PreparedFits(t: Tree, h: nat, k: Key, lim: Limits, len: nat)
    requires Shape(t, h) && t.Node? && GoodLimits(lim) && InLimits(t, lim) && !Full(t, lim)
    requires LimitsFit(lim, len) && len < U16_LIMIT && lim.internal < U16_LIMIT && ShortKeys(t, len)
    ensures var (n, j) := Prepare(t, h, k, lim);
            && FitsPage(n) && InLimits(n.children[j], lim) && !Full(n.children[j], lim)
            && ShortKeys(n.children[j], len)
  {
    hide LimitsFit, Less, Prepare, Shape, FitsPage, Occurs;
    var (n, j) := Prepare(t, h, k, lim);
    PreparedInLimits(t, h, k, lim);
    PreparedShort(t, h, k, lim, len);
    OwnKeysOccur(n, len);
    WithinLimitsFits(n, lim, len);
    assert n.children[j] in n.children;
  }

  lemma {:induction false} ShortKeysInserted(t: Tree, h: nat, k: Key, lim: Limits, len: nat)
    requires Shape(t, h) && GoodLimits(lim) && InLimits(t, lim) && !Full(t, lim)
    requires LimitsFit(lim, len) && len < U16_LIMIT && lim.internal < U16_LIMIT && ShortKeys(t, len) && |k| <= len
    ensures OutcomeBelow(t, h, k, lim) == Inserted
    decreases h
  {
    hide LimitsFit, Less, Prepare, FitsPage, Occurs;
    match t
    case Leaf(es) => ShortLeafFits(es, k, lim, len);
    case Node(_, _) =>
      hide InLimits, ShortKeys;
      var (n, j) := Prepare(t, h, k, lim);
      PreparedFits(t, h, k, lim, len);
      ShortKeysInserted(n.children[j], h - 1, k, lim, len);
  }

  lemma RootInLimits(t: Tree, h: nat, lim: Limits)
    requires Shape(t, h) && GoodLimits(lim) && InLimits(t, lim)
    ensures InLimits(RootForInsert(t, h, lim), lim) && !Full(RootForInsert(t, h, lim), lim)
  {
    hide Split;
    if RootFull(t, lim) {
      SplitInLimits(t, h, lim);
    }
  }

  lemma {:induction false} InsertInLimits(t: Tree, h: nat, e: Entry, lim: Limits)
    requires Shape(t, h) && GoodLimits(lim) && InLimits(t, lim) && !Full(t, lim)
    ensures InLimits(InsertNonfull(t, h, e, lim), lim)
    decreases h
  {
    hide Less;
    if t.Node? {
      hide Prepare;
      var (n, j) := Prepare(t, h, e.key, lim);
      PreparedInLimits(t, h, e.key, lim);
      InsertInLimits(n.children[j], h - 1, e, lim);
    }
  }

  lemma {:induction false} DeleteInLimits(t: Tree, e: Entry, lim: Limits)
    requires InLimits(t, lim)
    ensures InLimits(DeleteFrom(t, e), lim)
  {
    hide Less;
    match t
    case Leaf(es) => WithoutKeeps(es, e);
    case Node(keys, children) =>
      var i := Position(keys, e.key);
      if i < |children| {
        DeleteInLimits(children[i], e, lim);
      }
  }

  lemma StepInLimits(x: Index, op: Op, lim: Limits)
    requires Shaped(x) && GoodLimits(lim) && InLimits(x.tree, lim)
    ensures InLimits(Apply(x, op, lim).tree, lim)
  {
    hide InsertNonfull, RootForInsert, InLimits, DeleteFrom;
    match op
    case Ins(e) =>
      RootInLimits(x.tree, x.height, lim);
      InsertInLimits(RootForInsert(x.tree, x.height, lim), HeightAfter(x.tree, x.height, lim), e, lim);
    case Del(e) => DeleteInLimits(x.tree, e, lim);
  }

  lemma StepShort(x: Index, op: Op, lim: Limits, len: nat)
    requires Shaped(x) && GoodLimits(lim) && ShortKeys(x.tree, len) && (op.Ins? ==> |op.e.key| <= len)
    ensures ShortKeys(Apply(x, op, lim).tree, len)
  {
    hide Occurs, Apply;
    forall k | Occurs(Apply(x, op, lim).tree, k)
      ensures |k| <= len
    {
      ApplyOccurs(x, op, lim, k);
    }
  }

  /** One insertion of a short key into a tree of short keys. */
  lemma ShortKeysStep(x: Index, e: Entry, lim: Limits, len: nat)
    requires Shaped(x) && GoodLimits(lim) && InLimits(x.tree, lim)
    requires LimitsFit(lim, len) && len < U16_LIMIT && lim.internal < U16_LIMIT
    requires ShortKeys(x.tree, len) && |e.key| <= len
    ensures OutcomeOf(x, e.key, lim) == Inserted && PutEntry(x, e, lim) == Apply(x, Ins(e), lim)
  {
    hide LimitsFit, Occurs, RootForInsert, OutcomeBelow, Shape, Put, InLimits, InsertNonfull;
    var t, h := RootForInsert(x.tree, x.height, lim), HeightAfter(x.tree, x.height, lim);
    RootInLimits(x.tree, x.height, lim);
    forall k | Occurs(t, k)
      ensures |k| <= len
    {
      RootOccurs(x.tree, x.height, lim, k);
    }
    ShortKeysInserted(t, h, e.key, lim, len);
    PutInserts(t, h, e, lim);
  }

  ghost predicate InsertsShort(ops: seq<Op>, len: nat) {
    forall i :: 0 <= i < |ops| && ops[i].Ins? ==> |ops[i].e.key| <= len
  }

  /** Over every run whatsoever that inserts no key longer than the limits allow for, nothing overflows. */
  lemma {:induction false} ShortKeysRun(ops: seq<Op>, lim: Limits, len: nat)
    requires GoodLimits(lim) && LimitsFit(lim, len) && len < U16_LIMIT && lim.internal < U16_LIMIT
    requires InsertsShort(ops, len)
    ensures ExecuteOnPages(ops, lim) == Execute(ops, lim)
    ensures InLimits(Execute(ops, lim).tree, lim) && ShortKeys(Execute(ops, lim).tree, len)
  {
    hide LimitsFit, Apply, PutEntry, ShortKeys, InLimits;
    if ops == [] {
      EmptyTreeShort(lim, len);
    } else {
      var before, op := ops[..|ops| - 1], ops[|ops| - 1];
      ShortKeysRun(before, lim, len);
      var x := Execute(before, lim);
      StepInLimits(x, op, lim);
      StepShort(x, op, lim, len);
      if op.Ins? {
        ShortKeysStep(x, op.e, lim, len);
      }
    }
  }

  lemma EmptyTreeShort(lim: Limits, len: nat)
    ensures InLimits(Leaf([]), lim) && ShortKeys(Leaf([]), len)
  {
  }

  lemma NeverMisplaced(x: Index, k: Key, lim: Limits)
    requires Shaped(x) && GoodLimits(lim) && !Occurs(x.tree, k)
    ensures !Misplaces(x.tree, x.height, k, lim)
  {
    hide Occurs, Promotes, RootForInsert;
    if Misplaces(x.tree, x.height, k, lim) {
      PromotedOccurs(RootForInsert(x.tree, x.height, lim), HeightAfter(x.tree, x.height, lim), k, lim);
      RootOccurs(x.tree, x.height, lim, k);
    }
  }
}
