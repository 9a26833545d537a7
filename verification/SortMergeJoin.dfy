/** The sort-merge join: on sorted inputs the merge is a nested loop, and sorting the inputs
    only permutes the bag of results. */
module SortMergeJoin {
  import opened Values
  import opened JoinSpec
  import opened Joins
  import opened JoinPlanner
  import OrderBy

  function Keys(rows: seq<Row>, col: string): (keys: seq<Cell>)
    ensures |keys| == |rows|
    ensures forall i :: 0 <= i < |rows| ==> keys[i] == Get(rows[i], col)
  {
    seq(|rows|, i requires 0 <= i < |rows| => Get(rows[i], col))
  }

  /** Rows match when their sort keys are equal. */
  function KeyRelation(lk: seq<Cell>, rk: seq<Cell>): Match {
    (i: nat, j: nat) => i < |lk| && j < |rk| && lk[i] == rk[j]
  }

  ghost predicate Ascending(keys: seq<Cell>) {
    forall i, j :: 0 <= i < j < |keys| ==> keys[i] == keys[j] || CellLess(keys[i], keys[j])
  }

  function Range(a: nat, b: nat): (r: seq<nat>)
    requires a <= b
    ensures |r| == b - a
    ensures forall k :: 0 <= k < b - a ==> r[k] == a + k
  {
    seq(b - a, k => a + k)
  }

  /** If exactly the right rows a..b match row i, they are its partners. */
  lemma {:induction false} PartnersRun(m: Match, i: nat, a: nat, b: nat, n: nat)
    requires a <= b && forall j :: 0 <= j < n ==> (m(i, j) <==> a <= j < b)
    ensures Partners(m, i, n) == if n <= a then [] else if n <= b then Range(a, n) else Range(a, b)
  {
    if n > 0 {
      PartnersRun(m, i, a, b, n - 1);
      if a < n <= b {
        assert Range(a, n) == Range(a, n - 1) + [n - 1];
      }
    }
  }

  /** Where the merge stands: the right keys passed lie below all remaining left keys, the left
      keys passed below all remaining right keys. */
  ghost predicate Frontier(lk: seq<Cell>, rk: seq<Cell>, i: nat, j: nat) {
    && i <= |lk| && j <= |rk|
    && (forall a, b :: i <= a < |lk| && 0 <= b < j ==> CellLess(rk[b], lk[a]))
    && (forall a, b :: 0 <= a < i && j <= b < |rk| ==> CellLess(lk[a], rk[b]))
  }

  lemma NoPartnerBelow(lk: seq<Cell>, rk: seq<Cell>, i: nat, j: nat)
    requires Ascending(lk) && Ascending(rk) && Frontier(lk, rk, i, j) && i < |lk|
    requires j < |rk| ==> CellLess(lk[i], rk[j])
    ensures Partners(KeyRelation(lk, rk), i, |rk|) == []
    ensures Frontier(lk, rk, i + 1, j)
  {
    CellOrder();
    hide CellLess;
    PartnersRun(KeyRelation(lk, rk), i, 0, 0, |rk|);
  }

  lemma SkipRight(lk: seq<Cell>, rk: seq<Cell>, i: nat, j: nat)
    requires Ascending(lk) && Ascending(rk) && Frontier(lk, rk, i, j) && i < |lk| && j < |rk|
    requires lk[i] != rk[j] && !CellLess(lk[i], rk[j])
    ensures Frontier(lk, rk, i, j + 1)
  {
    CellOrder();
    hide CellLess;
  }

  /** Past a run of equal keys, left rows i..m and right rows j..k. */
  lemma SkipRuns(lk: seq<Cell>, rk: seq<Cell>, i: nat, j: nat, m: nat, k: nat)
    requires Ascending(lk) && Ascending(rk) && Frontier(lk, rk, i, j)
    requires i < m <= |lk| && j < k <= |rk| && lk[i] == rk[j]
    requires (forall a :: i <= a < m ==> lk[a] == lk[i]) && (m < |lk| ==> lk[m] != lk[i])
    requires (forall b :: j <= b < k ==> rk[b] == rk[j]) && (k < |rk| ==> rk[k] != rk[j])
    ensures Frontier(lk, rk, m, k)
  {
    CellOrder();
    hide CellLess;
    assert forall a :: m <= a < |lk| ==> CellLess(lk[i], lk[a]);
    assert forall b :: k <= b < |rk| ==> CellLess(rk[j], rk[b]);
  }

  lemma RunPartners(lk: seq<Cell>, rk: seq<Cell>, i: nat, j: nat, k: nat, a: nat)
    requires Ascending(lk) && Ascending(rk) && Frontier(lk, rk, i, j)
    requires i <= a < |lk| && j < k <= |rk| && lk[a] == rk[j]
    requires (forall b :: j <= b < k ==> rk[b] == rk[j]) && (k < |rk| ==> rk[k] != rk[j])
    ensures Partners(KeyRelation(lk, rk), a, |rk|) == Range(j, k)
    ensures forall b: nat :: KeyRelation(lk, rk)(a, b) <==> j <= b < k
  {
    CellOrder();
    hide CellLess;
    assert forall b :: k <= b < |rk| ==> CellLess(rk[j], rk[b]);
    PartnersRun(KeyRelation(lk, rk), a, j, k, |rk|);
  }

  /** The merge loop over two sorted inputs: a nested loop in disguise. */
  method MergeSorted(p: Plan, ls: seq<Row>, rs: seq<Row>, lcol: string, rcol: string) returns (out: seq<Row>)
    requires Ascending(Keys(ls, lcol)) && Ascending(Keys(rs, rcol))
    ensures out == Render(p, ls, rs, Join(KeyRelation(Keys(ls, lcol), Keys(rs, rcol)), p.joinType, |ls|, |rs|))
  {
    hide RenderOne, Render, CellLess, Pairs, Matched, Merge, Partners;
    var lk, rk := Keys(ls, lcol), Keys(rs, rcol);
    ghost var m := KeyRelation(lk, rk);
    ghost var t := p.joinType;
    out := [];
    EmptyOutput(p, ls, rs);
    NoneMatched(m);
    var matchedRight: set<nat> := {};
    var i, j := 0, 0;
    while i < |ls| && j < |rs|
      invariant i <= |ls| && j <= |rs| && Frontier(lk, rk, i, j)
      invariant out == Render(p, ls, rs, LeftPart(m, t, i, |rs|))
      invariant forall b: nat :: b in matchedRight <==> b < |rs| && Matched(m, i, b)
      decreases |ls| - i + |rs| - j
    {
      if lk[i] == rk[j] {
        out, i, j, matchedRight := JoinRuns(p, ls, rs, lk, rk, i, j, out, matchedRight);
      } else if CellLess(lk[i], rk[j]) {
        NoPartnerBelow(lk, rk, i, j);
        out := PadLeft(p, ls, rs, i, out, m, LeftPart(m, t, i, |rs|));
        NobodyMatched(m, i, |rs|);
        i := i + 1;
      } else {
        SkipRight(lk, rk, i, j);
        j := j + 1;
      }
    }
    while i < |ls|
      invariant i <= |ls| && j <= |rs| && Frontier(lk, rk, i, j) && (i < |ls| ==> j == |rs|)
      invariant out == Render(p, ls, rs, LeftPart(m, t, i, |rs|))
      invariant forall b: nat :: b in matchedRight <==> b < |rs| && Matched(m, i, b)
    {
      NoPartnerBelow(lk, rk, i, j);
      out := PadLeft(p, ls, rs, i, out, m, LeftPart(m, t, i, |rs|));
      NobodyMatched(m, i, |rs|);
      i := i + 1;
    }
    out := AppendUnmatched(p, ls, rs, m, matchedRight, out, LeftPart(m, t, |ls|, |rs|));
  }

  /** All left rows with the current key against all right rows with it. */
  method JoinRuns(p: Plan, ls: seq<Row>, rs: seq<Row>, lk: seq<Cell>, rk: seq<Cell>, i: nat, j: nat,
                  out: seq<Row>, matchedRight: set<nat>)
    returns (out': seq<Row>, n: nat, k: nat, matchedRight': set<nat>)
    requires |lk| == |ls| && |rk| == |rs| && Ascending(lk) && Ascending(rk) && Frontier(lk, rk, i, j)
    requires i < |ls| && j < |rs| && lk[i] == rk[j]
    requires var m := KeyRelation(lk, rk);
             && out == Render(p, ls, rs, LeftPart(m, p.joinType, i, |rs|))
             && forall b: nat :: b in matchedRight <==> b < |rs| && Matched(m, i, b)
    ensures i < n <= |ls| && j < k <= |rs| && Frontier(lk, rk, n, k)
    ensures var m := KeyRelation(lk, rk);
            && out' == Render(p, ls, rs, LeftPart(m, p.joinType, n, |rs|))
            && forall b: nat :: b in matchedRight' <==> b < |rs| && Matched(m, n, b)
  {
    hide RenderOne, Render, CellLess, Pairs, Matched, Merge, Partners, LeftPart, Frontier, Ascending;
    ghost var m := KeyRelation(lk, rk);
    ghost var t := p.joinType;
    out', matchedRight' := out, matchedRight;
    k := j + 1;
    while k < |rs| && rk[k] == rk[j]
      invariant j < k <= |rs| && forall b :: j <= b < k ==> rk[b] == rk[j]
    {
      k := k + 1;
    }
    n := i;
    while n < |ls| && lk[n] == lk[i]
      invariant i <= n <= |ls| && forall a :: i <= a < n ==> lk[a] == lk[i]
      invariant out' == Render(p, ls, rs, LeftPart(m, t, n, |rs|))
      invariant forall b: nat :: b in matchedRight' <==> b < |rs| && Matched(m, n, b)
    {
      RunPartners(lk, rk, i, j, k, n);
      out', matchedRight' := PairRun(p, ls, rs, n, j, k, out', LeftPart(m, t, n, |rs|), matchedRight');
      LeftPartMatched(m, t, n, |rs|, Range(j, k));
      RunMatched(m, n, j, k);
      assert k <= |rs|;
      assert forall b: nat :: b in matchedRight' <==> (b < |rs| && Matched(m, n, b)) || j <= b < k;
      assert forall b: nat :: b in matchedRight' <==> b < |rs| && Matched(m, n + 1, b);
      n := n + 1;
    }
    SkipRuns(lk, rk, i, j, n, k);
  }

  lemma RunMatched(m: Match, n: nat, j: nat, k: nat)
    requires forall b: nat :: m(n, b) <==> j <= b < k
    ensures forall b: nat :: Matched(m, n + 1, b) <==> Matched(m, n, b) || j <= b < k
  {
    MatchedNext(m, n);
    hide Matched;
    forall b: nat
      ensures Matched(m, n + 1, b) <==> Matched(m, n, b) || j <= b < k
    {
      assert m(n, b) <==> j <= b < k;
      assert Matched(m, n + 1, b) <==> Matched(m, n, b) || m(n, b);
    }
  }

  lemma LeftPartMatched(m: Match, t: JoinType, i: nat, nr: nat, js: seq<nat>)
    requires Partners(m, i, nr) == js && js != []
    ensures LeftPart(m, t, i + 1, nr) == LeftPart(m, t, i, nr) + Pairs(i, js)
  {
  }

  lemma NobodyMatched(m: Match, i: nat, nr: nat)
    requires Partners(m, i, nr) == []
    ensures forall b: nat :: b < nr ==> (Matched(m, i + 1, b) <==> Matched(m, i, b))
  {
    PartnersExact(m, i, nr);
    MatchedNext(m, i);
    hide Matched;
    assert forall b: nat :: b < nr && m(i, b) ==> b in Partners(m, i, nr);
  }

  /** One left row of a run against the whole right run. */
  method PairRun(p: Plan, ls: seq<Row>, rs: seq<Row>, i: nat, j: nat, k: nat, out: seq<Row>,
                 ghost before: seq<Event>, matchedRight: set<nat>)
    returns (out': seq<Row>, matchedRight': set<nat>)
    requires i < |ls| && j < k <= |rs| && out == Render(p, ls, rs, before)
    ensures out' == Render(p, ls, rs, before + Pairs(i, Range(j, k)))
    ensures forall b :: b in matchedRight' <==> b in matchedRight || j <= b < k
  {
    hide RenderOne, Render, Pairs;
    out', matchedRight' := out, matchedRight;
    NoPairs(i);
    assert Range(j, j) == [] && before + [] == before;
    var b := j;
    while b < k
      invariant j <= b <= k
      invariant out' == Render(p, ls, rs, before + Pairs(i, Range(j, b)))
      invariant forall x :: x in matchedRight' <==> x in matchedRight || j <= x < b
    {
      PairsSnoc(i, Range(j, b), b);
      assert Range(j, b + 1) == Range(j, b) + [b];
      RenderSnoc(p, ls, rs, before, Pairs(i, Range(j, b)), Pair(i, b));
      matchedRight' := matchedRight' + {b};
      out' := out' + [RenderOne(p, ls, rs, Pair(i, b))];
      b := b + 1;
    }
  }

  /** A left row without partners: padded for LEFT and FULL, dropped otherwise. */
  method PadLeft(p: Plan, ls: seq<Row>, rs: seq<Row>, i: nat, out: seq<Row>, ghost m: Match,
                 ghost before: seq<Event>) returns (out': seq<Row>)
    requires i < |ls| && Partners(m, i, |rs|) == []
    requires out == Render(p, ls, rs, before) && before == LeftPart(m, p.joinType, i, |rs|)
    ensures out' == Render(p, ls, rs, LeftPart(m, p.joinType, i + 1, |rs|))
  {
    hide RenderOne, Render;
    NoPairs(i);
    out' := out;
    assert before + [] == before && [] + [LeftOnly(i)] == [LeftOnly(i)];
    if KeepsLeft(p.joinType) {
      RenderSnoc(p, ls, rs, before, [], LeftOnly(i));
      out' := out' + [RenderOne(p, ls, rs, LeftOnly(i))];
    }
  }

  // ----- sorting the inputs permutes the bag of results -----

  function Relabel(e: Event, pl: seq<nat>, pr: seq<nat>): Event {
    match e
    case Pair(i, j) => if i < |pl| && j < |pr| then Pair(pl[i], pr[j]) else e
    case LeftOnly(i) => if i < |pl| then LeftOnly(pl[i]) else e
    case RightOnly(j) => if j < |pr| then RightOnly(pr[j]) else e
  }

  function RelabelAll(es: seq<Event>, pl: seq<nat>, pr: seq<nat>): (r: seq<Event>)
    ensures |r| == |es|
    ensures forall k :: 0 <= k < |es| ==> r[k] == Relabel(es[k], pl, pr)
  {
    seq(|es|, k requires 0 <= k < |es| => Relabel(es[k], pl, pr))
  }

  /** m' is m seen through the two permutations. */
  ghost predicate Seen(m: Match, m': Match, pl: seq<nat>, pr: seq<nat>) {
    forall i, j :: 0 <= i < |pl| && 0 <= j < |pr| ==> m'(i, j) == m(pl[i], pr[j])
  }

  lemma PlaceIn(perm: seq<nat>, n: nat, x: nat) returns (at: nat)
    requires Permutation(perm, n) && x < n
    ensures at < n && perm[at] == x
  {
    if x !in perm {
      MissingMember(perm, n, x);
      assert false;
    }
    at :| 0 <= at < n && perm[at] == x;
  }

  lemma MissingMember(perm: seq<nat>, n: nat, x: nat)
    requires Permutation(perm, n) && x < n && x !in perm
    ensures false
  {
    var packed := seq(n, i requires 0 <= i < n => if perm[i] < x then perm[i] else perm[i] - 1);
    forall i | 0 <= i < n
      ensures perm[i] != x && 0 <= packed[i] < n - 1
    {
      assert perm[i] in perm;
    }
    OrderBy.Pigeonhole(packed, n - 1);
  }

  lemma RelabelBelongs(m: Match, m': Match, t: JoinType, nl: nat, nr: nat, pl: seq<nat>, pr: seq<nat>, e: Event)
    requires Permutation(pl, nl) && Permutation(pr, nr) && Seen(m, m', pl, pr)
    requires Belongs(m', t, nl, nr, e)
    ensures Belongs(m, t, nl, nr, Relabel(e, pl, pr))
  {
    match e
    case Pair(i, j) =>
    case LeftOnly(i) =>
      forall j | 0 <= j < nr
        ensures !m(pl[i], j)
      {
        var b := PlaceIn(pr, nr, j);
        assert m'(i, b) == m(pl[i], pr[b]);
      }
    case RightOnly(j) =>
      forall i | 0 <= i < nl
        ensures !m(i, pr[j])
      {
        var a := PlaceIn(pl, nl, i);
        assert m'(a, j) == m(pl[a], pr[j]);
        assert !Matched(m', nl, j);
      }
  }

  lemma UnlabelBelongs(m: Match, m': Match, t: JoinType, nl: nat, nr: nat, pl: seq<nat>, pr: seq<nat>, e: Event)
    returns (e': Event)
    requires Permutation(pl, nl) && Permutation(pr, nr) && Seen(m, m', pl, pr)
    requires Belongs(m, t, nl, nr, e)
    ensures Belongs(m', t, nl, nr, e') && Relabel(e', pl, pr) == e
  {
    match e
    case Pair(i, j) =>
      var a := PlaceIn(pl, nl, i);
      var b := PlaceIn(pr, nr, j);
      e' := Pair(a, b);
    case LeftOnly(i) =>
      var a := PlaceIn(pl, nl, i);
      e' := LeftOnly(a);
    case RightOnly(j) =>
      var b := PlaceIn(pr, nr, j);
      e' := RightOnly(b);
      forall i | 0 <= i < nl
        ensures !m'(i, b)
      {
        assert m'(i, b) == m(pl[i], pr[b]);
      }
  }

  lemma RelabelInjective(nl: nat, nr: nat, pl: seq<nat>, pr: seq<nat>, m: Match, t: JoinType, e: Event, f: Event)
    requires Permutation(pl, nl) && Permutation(pr, nr)
    requires Belongs(m, t, nl, nr, e) && Belongs(m, t, nl, nr, f) && e != f
    ensures Relabel(e, pl, pr) != Relabel(f, pl, pr)
  {
  }

  lemma RelabelExact(m: Match, m': Match, t: JoinType, nl: nat, nr: nat, pl: seq<nat>, pr: seq<nat>, es: seq<Event>)
    requires Permutation(pl, nl) && Permutation(pr, nr) && Seen(m, m', pl, pr)
    requires Exact(m', t, nl, nr, es)
    ensures Exact(m, t, nl, nr, RelabelAll(es, pl, pr))
  {
    var fs := RelabelAll(es, pl, pr);
    hide Belongs, Relabel, Permutation, Seen;
    forall e
      ensures e in fs <==> Belongs(m, t, nl, nr, e)
    {
      if e in fs {
        var k :| 0 <= k < |fs| && fs[k] == e;
        assert es[k] in es;
        RelabelBelongs(m, m', t, nl, nr, pl, pr, es[k]);
      }
      if Belongs(m, t, nl, nr, e) {
        var e' := UnlabelBelongs(m, m', t, nl, nr, pl, pr, e);
        var k :| 0 <= k < |es| && es[k] == e';
        assert fs[k] == e;
      }
    }
    forall a, b | 0 <= a < b < |fs|
      ensures fs[a] != fs[b]
    {
      assert es[a] in es && es[b] in es;
      RelabelInjective(nl, nr, pl, pr, m', t, es[a], es[b]);
    }
  }

  lemma RenderWithout(p: Plan, ls: seq<Row>, rs: seq<Row>, fs: seq<Event>, k: nat)
    requires k < |fs|
    ensures multiset(Render(p, ls, rs, fs)) ==
            multiset(Render(p, ls, rs, fs[..k] + fs[k + 1..])) + multiset{RenderOne(p, ls, rs, fs[k])}
  {
    hide RenderOne;
    var rows := Render(p, ls, rs, fs);
    assert rows == rows[..k] + [rows[k]] + rows[k + 1..];
    assert Render(p, ls, rs, fs[..k] + fs[k + 1..]) == rows[..k] + rows[k + 1..];
  }

  lemma {:induction false} RenderBag(p: Plan, ls: seq<Row>, rs: seq<Row>, es: seq<Event>, fs: seq<Event>)
    requires multiset(es) == multiset(fs)
    ensures multiset(Render(p, ls, rs, es)) == multiset(Render(p, ls, rs, fs))
  {
    if es == [] {
      assert |fs| == |multiset(fs)| == 0;
    } else {
      hide RenderOne, Render;
      var k := SameLast(es, fs);
      RenderBag(p, ls, rs, es[..|es| - 1], fs[..k] + fs[k + 1..]);
      RenderWithout(p, ls, rs, es, |es| - 1);
      assert es[..|es| - 1] + es[|es|..] == es[..|es| - 1];
      RenderWithout(p, ls, rs, fs, k);
    }
  }

  /** The last element of es, found in fs, can be dropped from both. */
  lemma SameLast(es: seq<Event>, fs: seq<Event>) returns (k: nat)
    requires multiset(es) == multiset(fs) && es != []
    ensures k < |fs| && fs[k] == es[|es| - 1]
    ensures multiset(es[..|es| - 1]) == multiset(fs[..k] + fs[k + 1..])
  {
    var n := |es| - 1;
    assert es == es[..n] + [es[n]];
    assert es[n] in multiset(fs);
    k :| 0 <= k < |fs| && fs[k] == es[n];
    assert fs == fs[..k] + [fs[k]] + fs[k + 1..];
    var a, b, e := multiset(es[..n]), multiset(fs[..k] + fs[k + 1..]), multiset{es[n]};
    assert multiset(es) == a + e && multiset(fs) == b + e;
    assert a == (a + e) - e && b == (b + e) - e;
  }

  /** Every join key is a value, and the keys of both sides can be compared. */
  ghost predicate SortableKeys(p: Plan, ls: seq<Row>, rs: seq<Row>)
    requires p.on.Equality?
  {
    && (forall i :: 0 <= i < |ls| ==> Get(ls[i], p.on.left.name).Val?)
    && (forall j :: 0 <= j < |rs| ==> Get(rs[j], p.on.right.name).Val?)
    && Comparable(Keys(ls, p.on.left.name) + Keys(rs, p.on.right.name))
  }

  lemma SortedIsAscending(rows: seq<Row>, col: string, perm: seq<nat>)
    requires SortedPerm(perm, Keys(rows, col), false)
    ensures Ascending(Keys(Select(rows, perm), col))
  {
    var keys, sorted := Keys(rows, col), Keys(Select(rows, perm), col);
    forall i, j | 0 <= i < j < |sorted|
      ensures sorted[i] == sorted[j] || CellLess(sorted[i], sorted[j])
    {
      hide CellLess;
      assert Precedes(keys, false, perm[i], perm[j]);
    }
  }

  /** Sort-merge join returns the same bag of rows as the nested loop: all join types, any runs
      of duplicate keys on both sides. */
  method SortMerge(p: Plan, ls: seq<Row>, rs: seq<Row>) returns (out: seq<Row>)
    requires Oriented(p) && Tables(p, ls, rs) && SortableKeys(p, ls, rs)
    ensures multiset(out) ==
            multiset(Render(p, ls, rs, Join(LoopRelation(p, ls, rs), p.joinType, |ls|, |rs|)))
  {
    var lcol, rcol := p.on.left.name, p.on.right.name;
    var leftSorted, pl := StableSort(ls, Keys(ls, lcol), false);
    var rightSorted, pr := StableSort(rs, Keys(rs, rcol), false);
    SortedIsAscending(ls, lcol, pl);
    SortedIsAscending(rs, rcol, pr);
    out := MergeSorted(p, leftSorted, rightSorted, lcol, rcol);
    SameBag(p, ls, rs, pl, pr);
  }

  lemma SameBag(p: Plan, ls: seq<Row>, rs: seq<Row>, pl: seq<nat>, pr: seq<nat>)
    requires Oriented(p) && Tables(p, ls, rs) && SortableKeys(p, ls, rs)
    requires Permutation(pl, |ls|) && Permutation(pr, |rs|)
    ensures var ls', rs' := Select(ls, pl), Select(rs, pr);
            var m' := KeyRelation(Keys(ls', p.on.left.name), Keys(rs', p.on.right.name));
            multiset(Render(p, ls', rs', Join(m', p.joinType, |ls'|, |rs'|))) ==
            multiset(Render(p, ls, rs, Join(LoopRelation(p, ls, rs), p.joinType, |ls|, |rs|)))
  {
    var ls', rs' := Select(ls, pl), Select(rs, pr);
    var m, m' := LoopRelation(p, ls, rs), KeyRelation(Keys(ls', p.on.left.name), Keys(rs', p.on.right.name));
    var t := p.joinType;
    KeysSeen(p, ls, rs, pl, pr);
    hide Oriented, Tables, SortableKeys, LoopRelation, KeyRelation, RenderOne, Render, Join, Exact;
    JoinExact(m, t, |ls|, |rs|);
    JoinExact(m', t, |ls|, |rs|);
    var es := Join(m', t, |ls|, |rs|);
    RelabelExact(m, m', t, |ls|, |rs|, pl, pr, es);
    var fs := RelabelAll(es, pl, pr);
    ExactSameBag(m, t, |ls|, |rs|, fs, Join(m, t, |ls|, |rs|));
    RenderBag(p, ls, rs, fs, Join(m, t, |ls|, |rs|));
    RenderRelabelled(p, ls, rs, pl, pr, m', es);
  }

  lemma KeysSeen(p: Plan, ls: seq<Row>, rs: seq<Row>, pl: seq<nat>, pr: seq<nat>)
    requires Oriented(p) && Tables(p, ls, rs) && SortableKeys(p, ls, rs)
    requires Permutation(pl, |ls|) && Permutation(pr, |rs|)
    ensures Seen(LoopRelation(p, ls, rs),
                 KeyRelation(Keys(Select(ls, pl), p.on.left.name), Keys(Select(rs, pr), p.on.right.name)), pl, pr)
  {
    var ls', rs' := Select(ls, pl), Select(rs, pr);
    var m, m' := LoopRelation(p, ls, rs), KeyRelation(Keys(ls', p.on.left.name), Keys(rs', p.on.right.name));
    forall i, j | 0 <= i < |pl| && 0 <= j < |pr|
      ensures m'(i, j) == m(pl[i], pr[j])
    {
      hide Oriented, LoopMatch, Conforms;
      LoopComparesColumns(p, ls[pl[i]], rs[pr[j]]);
    }
  }

  lemma RenderRelabelled(p: Plan, ls: seq<Row>, rs: seq<Row>, pl: seq<nat>, pr: seq<nat>, m: Match, es: seq<Event>)
    requires Permutation(pl, |ls|) && Permutation(pr, |rs|) && Exact(m, p.joinType, |ls|, |rs|, es)
    ensures Render(p, Select(ls, pl), Select(rs, pr), es) == Render(p, ls, rs, RelabelAll(es, pl, pr))
  {
    hide Merge, Data, NullRow;
    forall k | 0 <= k < |es|
      ensures RenderOne(p, Select(ls, pl), Select(rs, pr), es[k]) == RenderOne(p, ls, rs, Relabel(es[k], pl, pr))
    {
      assert es[k] in es;
    }
  }
}
