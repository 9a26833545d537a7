/** The B-tree as a value: what each operation of the index does to the tree, whatever pages
    hold it. Splits are preemptive and top-down; deletion only empties leaves. */
module BTreeModel {
  import opened KeyOrder
  import opened RowIds

  datatype Entry = Entry(key: Key, ptr: RowId)

  datatype Tree = Leaf(entries: seq<Entry>) | Node(keys: seq<Key>, children: seq<Tree>)

  /** The most keys a leaf and an internal node may hold. */
  datatype Limits = Limits(leaf: nat, internal: nat)

  predicate GoodLimits(lim: Limits) {
    2 <= lim.leaf <= lim.internal
  }

  datatype Bound = Unbounded | At(key: Key)

  predicate AtLeast(lo: Bound, k: Key) {
    lo.Unbounded? || !Less(k, lo.key)
  }

  predicate Above(lo: Bound, k: Key) {
    lo.Unbounded? || Less(lo.key, k)
  }

  predicate Below(hi: Bound, k: Key) {
    hi.Unbounded? || Less(k, hi.key)
  }

  function Lo(keys: seq<Key>, lo: Bound, i: nat): Bound
    requires i <= |keys|
  {
    if i == 0 then lo else At(keys[i - 1])
  }

  function Hi(keys: seq<Key>, hi: Bound, i: nat): Bound
    requires i <= |keys|
  {
    if i == |keys| then hi else At(keys[i])
  }

  function KeysOf(es: seq<Entry>): (keys: seq<Key>)
    ensures |keys| == |es|
    ensures forall i :: 0 <= i < |es| ==> keys[i] == es[i].key
  {
    seq(|es|, i requires 0 <= i < |es| => es[i].key)
  }

  function Count(t: Tree): nat {
    match t
    case Leaf(es) => |es|
    case Node(keys, _) => |keys|
  }

  predicate Full(t: Tree, lim: Limits) {
    Count(t) >= if t.Leaf? then lim.leaf else lim.internal
  }

  /** All leaves lie h levels down and every internal node has one child more than keys. */
  ghost predicate Shape(t: Tree, h: nat)
    decreases h
  {
    match t
    case Leaf(_) => h == 0
    case Node(keys, children) =>
      h > 0 && |children| == |keys| + 1 && forall i :: 0 <= i < |children| ==> Shape(children[i], h - 1)
  }

  /** Sorted nodes, separators that bound their subtrees, all leaves at depth h, key counts
      within the limits. */
  ghost predicate WF(t: Tree, h: nat, lo: Bound, hi: Bound, lim: Limits)
    decreases h
  {
    match t
    case Leaf(es) =>
      && h == 0 && |es| <= lim.leaf
      && Sorted(KeysOf(es))
      && forall i :: 0 <= i < |es| ==> AtLeast(lo, es[i].key) && Below(hi, es[i].key)
    case Node(keys, children) =>
      && h > 0 && |children| == |keys| + 1 && |keys| <= lim.internal
      && Separators(keys, lo, hi)
      && forall i :: 0 <= i < |children| ==> WF(children[i], h - 1, Lo(keys, lo, i), Hi(keys, hi, i), lim)
  }

  ghost predicate Separators(keys: seq<Key>, lo: Bound, hi: Bound) {
    Sorted(keys) && forall i :: 0 <= i < |keys| ==> Above(lo, keys[i]) && Below(hi, keys[i])
  }

  /** Some leaf holds the pair (k, r). */
  ghost predicate Has(t: Tree, k: Key, r: RowId) {
    match t
    case Leaf(es) => Entry(k, r) in es
    case Node(_, children) => exists c :: c in children && Has(c, k, r)
  }

  ghost predicate HasKey(t: Tree, k: Key) {
    exists r :: Has(t, k, r)
  }

  lemma {:induction false} WFShape(t: Tree, h: nat, lo: Bound, hi: Bound, lim: Limits)
    requires WF(t, h, lo, hi, lim)
    ensures Shape(t, h)
    decreases h
  {
    if t.Node? {
      forall i | 0 <= i < |t.children|
        ensures Shape(t.children[i], h - 1)
      {
        WFShape(t.children[i], h - 1, Lo(t.keys, lo, i), Hi(t.keys, hi, i), lim);
      }
    }
  }

  // ----- search -----

  function Matching(es: seq<Entry>, k: Key): seq<RowId> {
    if es == [] then []
    else (if es[0].key == k then [es[0].ptr] else []) + Matching(es[1..], k)
  }

  function Search(t: Tree, k: Key): seq<RowId> {
    match t
    case Leaf(es) => Matching(es, k)
    case Node(keys, children) =>
      var i := Position(keys, k);
      if i < |children| then Search(children[i], k) else []
  }

  lemma {:induction false} MatchingFinds(es: seq<Entry>, k: Key, r: RowId)
    requires Sorted(KeysOf(es))
    ensures r in Matching(es, k) <==> Entry(k, r) in es
    ensures |Matching(es, k)| <= 1
    ensures Matching(es, k) == [] <==> forall i :: 0 <= i < |es| ==> es[i].key != k
  {
    if es != [] {
      var rest := es[1..];
      forall i, j | 0 <= i < j < |rest|
        ensures Less(KeysOf(rest)[i], KeysOf(rest)[j])
      {
        assert Less(KeysOf(es)[i + 1], KeysOf(es)[j + 1]);
      }
      MatchingFinds(rest, k, r);
      assert es == [es[0]] + rest;
      if es[0].key == k {
        forall i | 0 <= i < |rest|
          ensures rest[i].key != k
        {
          assert Less(KeysOf(es)[0], KeysOf(es)[i + 1]);
          LessIrreflexive(k);
        }
      }
    }
  }

  /** Only one child of a node has bounds that admit k, the one the scan selects. */
  lemma OnlyChildFor(keys: seq<Key>, lo: Bound, hi: Bound, k: Key, i: nat)
    requires Sorted(keys) && i <= |keys|
    requires AtLeast(Lo(keys, lo, i), k) && Below(Hi(keys, hi, i), k)
    ensures i == Position(keys, k)
  {
    hide Less;
    StrictTotalOrder();
    PositionSeparates(keys, k);
  }

  /** Everything in a well-formed tree lies within its bounds. */
  lemma {:induction false} HasWithinBounds(t: Tree, h: nat, lo: Bound, hi: Bound, lim: Limits, k: Key, r: RowId)
    requires WF(t, h, lo, hi, lim) && Has(t, k, r)
    ensures AtLeast(lo, k) && Below(hi, k)
    decreases h
  {
    if t.Node? {
      hide Less;
      var c :| c in t.children && Has(c, k, r);
      var i :| 0 <= i < |t.children| && t.children[i] == c;
      HasWithinBounds(c, h - 1, Lo(t.keys, lo, i), Hi(t.keys, hi, i), lim, k, r);
      WiderBounds(t.keys, lo, hi, i, k);
    }
  }

  /** The bounds of a child lie within those of its parent. */
  lemma WiderBounds(keys: seq<Key>, lo: Bound, hi: Bound, i: nat, k: Key)
    requires Separators(keys, lo, hi) && i <= |keys|
    requires AtLeast(Lo(keys, lo, i), k) && Below(Hi(keys, hi, i), k)
    ensures AtLeast(lo, k) && Below(hi, k)
  {
    hide Less;
    StrictTotalOrder();
  }

  /** Search follows one path and still finds exactly what the leaves hold for k. */
  lemma {:induction false} SearchFinds(t: Tree, h: nat, lo: Bound, hi: Bound, lim: Limits, k: Key, r: RowId)
    requires WF(t, h, lo, hi, lim)
    ensures r in Search(t, k) <==> Has(t, k, r)
    ensures |Search(t, k)| <= 1
    decreases h
  {
    match t
    case Leaf(es) => MatchingFinds(es, k, r);
    case Node(keys, children) =>
      var p := Position(keys, k);
      HasAtPosition(t, h, lo, hi, lim, k, r);
      SearchFinds(children[p], h - 1, Lo(keys, lo, p), Hi(keys, hi, p), lim, k, r);
      hide Less, Has;
  }

  /** Only the child the scan leads to can hold a pair of k. */
  lemma HasAtPosition(t: Tree, h: nat, lo: Bound, hi: Bound, lim: Limits, k: Key, r: RowId)
    requires WF(t, h, lo, hi, lim) && t.Node?
    ensures Position(t.keys, k) < |t.children|
    ensures Has(t, k, r) <==> Has(t.children[Position(t.keys, k)], k, r)
  {
    hide Less;
    if Has(t, k, r) {
      var c :| c in t.children && Has(c, k, r);
      var i :| 0 <= i < |t.children| && t.children[i] == c;
      HasWithinBounds(c, h - 1, Lo(t.keys, lo, i), Hi(t.keys, hi, i), lim, k, r);
      OnlyChildFor(t.keys, lo, hi, k, i);
    }
  }

  // ----- splitting -----

  datatype Halves = Halves(left: Tree, sep: Key, right: Tree)

  predicate Splittable(t: Tree) {
    Count(t) >= 2 && (t.Node? ==> |t.children| == |t.keys| + 1)
  }

  /** A leaf keeps its separator in the right half; an internal node gives it up. */
  function Split(t: Tree): Halves
    requires Splittable(t)
  {
    var mid := Count(t) / 2;
    match t
    case Leaf(es) => Halves(Leaf(es[..mid]), es[mid].key, Leaf(es[mid..]))
    case Node(keys, children) =>
      Halves(Node(keys[..mid], children[..mid + 1]), keys[mid], Node(keys[mid + 1..], children[mid + 1..]))
  }

  /** A split divides the entries of a leaf, or the keys of an inner node but for the one that moves up, in the middle,
      the left half being the smaller one of a leaf and the right half that of a node. */
  lemma SplitHalves(t: Tree)
    requires Splittable(t)
    ensures var s := Split(t);
            && (t.Leaf? ==> s.left.Leaf? && s.right.Leaf? && t.entries == s.left.entries + s.right.entries
                            && |s.left.entries| <= |s.right.entries| <= |s.left.entries| + 1
                            && s.sep == s.right.entries[0].key)
            && (t.Node? ==> s.left.Node? && s.right.Node? && t.keys == s.left.keys + [s.sep] + s.right.keys
                            && |s.right.keys| <= |s.left.keys| <= |s.right.keys| + 1
                            && t.children == s.left.children + s.right.children
                            && |s.left.children| == |s.left.keys| + 1)
  {
  }

  lemma SplitShape(t: Tree, h: nat)
    requires Shape(t, h) && Splittable(t)
    ensures Shape(Split(t).left, h) && Shape(Split(t).right, h)
  {
  }

  lemma SplitHas(t: Tree, h: nat, k: Key, r: RowId)
    requires Shape(t, h) && Splittable(t)
    ensures Has(t, k, r) <==> Has(Split(t).left, k, r) || Has(Split(t).right, k, r)
  {
    var mid := Count(t) / 2;
    match t
    case Leaf(es) =>
      assert es == es[..mid] + es[mid..];
    case Node(keys, children) =>
      assert children == children[..mid + 1] + children[mid + 1..];
  }

  lemma SortedSlice(keys: seq<Key>, a: nat, b: nat)
    requires Sorted(keys) && a <= b <= |keys|
    ensures Sorted(keys[a..b])
  {
  }

  lemma SplitLeafWF(es: seq<Entry>, lo: Bound, hi: Bound, lim: Limits)
    requires WF(Leaf(es), 0, lo, hi, lim) && |es| >= 2
    ensures var s := Split(Leaf(es));
            && WF(s.left, 0, lo, At(s.sep), lim) && WF(s.right, 0, At(s.sep), hi, lim)
            && Above(lo, s.sep) && Below(hi, s.sep)
  {
    hide Less;
    StrictTotalOrder();
    var mid := |es| / 2;
    assert KeysOf(es[..mid]) == KeysOf(es)[0..mid];
    assert KeysOf(es[mid..]) == KeysOf(es)[mid..|es|];
    SortedSlice(KeysOf(es), 0, mid);
    SortedSlice(KeysOf(es), mid, |es|);
    assert Less(KeysOf(es)[0], KeysOf(es)[mid]);
    assert forall i :: 0 <= i < mid ==> Less(KeysOf(es)[i], KeysOf(es)[mid]);
    assert forall i :: mid < i < |es| ==> Less(KeysOf(es)[mid], KeysOf(es)[i]);
  }

  lemma SplitNodeWF(t: Tree, h: nat, lo: Bound, hi: Bound, lim: Limits)
    requires WF(t, h, lo, hi, lim) && t.Node? && |t.keys| >= 2
    ensures var s := Split(t);
            && WF(s.left, h, lo, At(s.sep), lim) && WF(s.right, h, At(s.sep), hi, lim)
            && Above(lo, s.sep) && Below(hi, s.sep)
  {
    hide Less;
    var mid := |t.keys| / 2;
    var s := Split(t);
    SortedSlice(t.keys, 0, mid);
    SortedSlice(t.keys, mid + 1, |t.keys|);
    forall i | 0 <= i < |s.left.children|
      ensures WF(s.left.children[i], h - 1, Lo(s.left.keys, lo, i), Hi(s.left.keys, At(s.sep), i), lim)
    {
      assert WF(t.children[i], h - 1, Lo(t.keys, lo, i), Hi(t.keys, hi, i), lim);
    }
    forall i | 0 <= i < |s.right.children|
      ensures WF(s.right.children[i], h - 1, Lo(s.right.keys, At(s.sep), i), Hi(s.right.keys, hi, i), lim)
    {
      var j := mid + 1 + i;
      assert WF(t.children[j], h - 1, Lo(t.keys, lo, j), Hi(t.keys, hi, j), lim);
    }
  }

  lemma SplitWF(t: Tree, h: nat, lo: Bound, hi: Bound, lim: Limits)
    requires WF(t, h, lo, hi, lim) && Splittable(t)
    ensures var s := Split(t);
            && WF(s.left, h, lo, At(s.sep), lim) && WF(s.right, h, At(s.sep), hi, lim)
            && Above(lo, s.sep) && Below(hi, s.sep)
  {
    if t.Leaf? {
      SplitLeafWF(t.entries, lo, hi, lim);
    } else {
      SplitNodeWF(t, h, lo, hi, lim);
    }
  }

  /** The parent after its child i was split. */
  function SplitChild(t: Tree, i: nat): Tree
    requires t.Node? && i < |t.children| == |t.keys| + 1 && Splittable(t.children[i])
  {
    var s := Split(t.children[i]);
    Node(t.keys[..i] + [s.sep] + t.keys[i..], t.children[..i] + [s.left, s.right] + t.children[i + 1..])
  }

  lemma SplitChildShape(t: Tree, h: nat, i: nat)
    requires Shape(t, h) && t.Node? && i < |t.children| && Splittable(t.children[i])
    ensures Shape(SplitChild(t, i), h)
  {
    SplitShape(t.children[i], h - 1);
    var t' := SplitChild(t, i);
    forall j | 0 <= j < |t'.children|
      ensures Shape(t'.children[j], h - 1)
    {
      assert j > i + 1 ==> t'.children[j] == t.children[j - 1];
    }
  }

  lemma SplitChildHas(t: Tree, h: nat, i: nat, k: Key, r: RowId)
    requires Shape(t, h) && t.Node? && i < |t.children| && Splittable(t.children[i])
    ensures Has(SplitChild(t, i), k, r) <==> Has(t, k, r)
  {
    SplitHas(t.children[i], h - 1, k, r);
    var t' := SplitChild(t, i);
    var s := Split(t.children[i]);
    assert t.children == t.children[..i] + [t.children[i]] + t.children[i + 1..];
    assert forall c :: c in t.children <==> c in t.children[..i] || c == t.children[i] || c in t.children[i + 1..];
    assert forall c :: c in t'.children <==>
                         c in t.children[..i] || c == s.left || c == s.right || c in t.children[i + 1..];
  }

  lemma SplitChildWF(t: Tree, h: nat, lo: Bound, hi: Bound, lim: Limits, i: nat)
    requires WF(t, h, lo, hi, lim) && t.Node? && i < |t.children| && Splittable(t.children[i])
    requires |t.keys| < lim.internal
    ensures WF(SplitChild(t, i), h, lo, hi, lim)
  {
    hide Less, Split, AtLeast, Above, Below, Sorted, Separators;
    var c := t.children[i];
    SplitWF(c, h - 1, Lo(t.keys, lo, i), Hi(t.keys, hi, i), lim);
    var s := Split(c);
    var t' := SplitChild(t, i);
    forall j | 0 <= j < |t'.children|
      ensures WF(t'.children[j], h - 1, Lo(t'.keys, lo, j), Hi(t'.keys, hi, j), lim)
    {
      if j > i + 1 {
        assert t'.children[j] == t.children[j - 1];
        assert WF(t.children[j - 1], h - 1, Lo(t.keys, lo, j - 1), Hi(t.keys, hi, j - 1), lim);
      } else if j < i {
        assert WF(t.children[j], h - 1, Lo(t.keys, lo, j), Hi(t.keys, hi, j), lim);
      }
    }
    SepInserted(t.keys, lo, hi, i, s.sep);
  }

  lemma SepInserted(keys: seq<Key>, lo: Bound, hi: Bound, i: nat, sep: Key)
    requires Separators(keys, lo, hi) && i <= |keys|
    requires Above(Lo(keys, lo, i), sep) && Below(Hi(keys, hi, i), sep)
    ensures Separators(keys[..i] + [sep] + keys[i..], lo, hi)
  {
    hide Less;
    StrictTotalOrder();
    var keys' := keys[..i] + [sep] + keys[i..];
    assert i > 0 ==> forall j :: 0 <= j < i ==> keys[j] == keys[i - 1] || Less(keys[j], keys[i - 1]);
    assert i < |keys| ==> forall j :: i <= j < |keys| ==> keys[j] == keys[i] || Less(keys[i], keys[j]);
  }

  lemma ReplaceChildWF(t: Tree, h: nat, lo: Bound, hi: Bound, lim: Limits, i: nat, c: Tree)
    requires WF(t, h, lo, hi, lim) && t.Node? && i < |t.children|
    requires WF(c, h - 1, Lo(t.keys, lo, i), Hi(t.keys, hi, i), lim)
    ensures WF(Node(t.keys, t.children[i := c]), h, lo, hi, lim)
  {
    var children' := t.children[i := c];
    forall j | 0 <= j < |children'|
      ensures WF(children'[j], h - 1, Lo(t.keys, lo, j), Hi(t.keys, hi, j), lim)
    {
      assert WF(t.children[j], h - 1, Lo(t.keys, lo, j), Hi(t.keys, hi, j), lim);
    }
  }

  lemma ReplaceChildHas(keys: seq<Key>, children: seq<Tree>, i: nat, c: Tree, k: Key, r: RowId)
    requires i < |children|
    ensures Has(Node(keys, children[i := c]), k, r) <==>
            Has(c, k, r) || exists j :: 0 <= j < |children| && j != i && Has(children[j], k, r)
  {
    var t' := Node(keys, children[i := c]);
    if Has(t', k, r) {
      var x :| x in t'.children && Has(x, k, r);
      var j :| 0 <= j < |t'.children| && t'.children[j] == x;
    }
    if Has(c, k, r) {
      assert t'.children[i] == c;
    }
    if j :| 0 <= j < |children| && j != i && Has(children[j], k, r) {
      assert t'.children[j] == children[j];
    }
  }
}
