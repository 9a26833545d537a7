/** ORDER BY with several keys, carried out as successive stable sorts from the last key to the
    first. */
module OrderBy {
  import opened KeyOrder
  import opened Values

  /** A sort expression evaluated on a row, and whether it is DESC. */
  datatype OrderKey = OrderKey(eval: Row -> Cell, desc: bool)

  function KeysOf(rows: seq<Row>, k: OrderKey): (keys: seq<Cell>)
    ensures |keys| == |rows|
    ensures forall i :: 0 <= i < |rows| ==> keys[i] == k.eval(rows[i])
  {
    seq(|rows|, i requires 0 <= i < |rows| => k.eval(rows[i]))
  }

  /** Input row x belongs before input row y: the first key on which they differ decides in its
      own direction, NULL lowest; rows equal on all keys keep their input order. */
  ghost predicate Before(rows: seq<Row>, order: seq<OrderKey>, x: nat, y: nat)
    requires x < |rows| && y < |rows|
  {
    if order == [] then x < y
    else
      var a, b := order[0].eval(rows[x]), order[0].eval(rows[y]);
      (if order[0].desc then CellLess(b, a) else CellLess(a, b))
      || (a == b && Before(rows, order[1..], x, y))
  }

  ghost predicate Ordered(rows: seq<Row>, order: seq<OrderKey>, perm: seq<nat>) {
    && Permutation(perm, |rows|)
    && forall i, j :: 0 <= i < j < |perm| ==> Before(rows, order, perm[i], perm[j])
  }

  /** Row x before row y: at the first key on which they differ, ascending, x has NULL or the smaller number or, at the
      first differing byte, the smaller text, a text coming after its prefixes; descending it is the other way round.
      If they differ on no key, x came first. */
  lemma {:induction false} BeforeMeans(rows: seq<Row>, order: seq<OrderKey>, x: nat, y: nat, d: nat)
    requires x < |rows| && y < |rows| && Before(rows, order, x, y)
    requires d <= |order| && forall e :: 0 <= e < d ==> order[e].eval(rows[x]) == order[e].eval(rows[y])
    requires d < |order| ==> order[d].eval(rows[x]) != order[d].eval(rows[y])
    ensures d == |order| ==> x < y
    ensures d < |order| ==>
              var a, b := order[d].eval(rows[x]), order[d].eval(rows[y]);
              var lower, higher := if order[d].desc then b else a, if order[d].desc then a else b;
              && higher.Val?
              && (lower.Val? && lower.v.Num? && higher.v.Num? ==> lower.v.n < higher.v.n)
              && (lower.Val? && lower.v.Text? && higher.v.Text? ==>
                    forall k :: 0 <= k <= |lower.v.s| && k <= |higher.v.s| && lower.v.s[..k] == higher.v.s[..k] ==>
                      k < |higher.v.s| && (k < |lower.v.s| ==> lower.v.s[k] <= higher.v.s[k]))
  {
    hide Less;
    if d > 0 {
      CellOrder();
      assert forall e :: 0 <= e < d - 1 ==> order[1..][e] == order[e + 1];
      BeforeMeans(rows, order[1..], x, y, d - 1);
    } else if order != [] {
      var a, b := order[0].eval(rows[x]), order[0].eval(rows[y]);
      var lower, higher := if order[0].desc then b else a, if order[0].desc then a else b;
      if lower.Val? && higher.Val? && lower.v.Text? && higher.v.Text? {
        forall k | 0 <= k <= |lower.v.s| && k <= |higher.v.s| && lower.v.s[..k] == higher.v.s[..k]
          ensures k < |higher.v.s| && (k < |lower.v.s| ==> lower.v.s[k] <= higher.v.s[k])
        {
          LessMeans(lower.v.s, higher.v.s, k);
        }
      }
    }
  }

  /** One more stable sort, by a key more significant than those sorted by so far. */
  lemma SortStep(rows: seq<Row>, k: OrderKey, rest: seq<OrderKey>, perm: seq<nat>, step: seq<nat>)
    requires Ordered(rows, rest, perm)
    requires Permutation(step, |rows|) && SortedPerm(step, KeysOf(Select(rows, perm), k), k.desc)
    ensures Ordered(rows, [k] + rest, Select(perm, step))
    ensures Select(Select(rows, perm), step) == Select(rows, Select(perm, step))
  {
    var now := Select(rows, perm);
    var keys := KeysOf(now, k);
    var perm' := Select(perm, step);
    var order := [k] + rest;
    assert order[1..] == rest;
    forall i, j | 0 <= i < j < |perm'|
      ensures perm'[i] != perm'[j] && Before(rows, order, perm'[i], perm'[j])
    {
      hide CellLess;
      assert Precedes(keys, k.desc, step[i], step[j]);
      assert keys[step[i]] == k.eval(rows[perm'[i]]) && keys[step[j]] == k.eval(rows[perm'[j]]);
      if step[i] < step[j] {
        assert Before(rows, rest, perm[step[i]], perm[step[j]]);
      }
    }
  }

  /** The sort operator: its output is the input rearranged into the lexicographic order. */
  method Sort(rows: seq<Row>, order: seq<OrderKey>) returns (sorted: seq<Row>, ghost perm: seq<nat>)
    requires forall i :: 0 <= i < |order| ==> Comparable(KeysOf(rows, order[i]))
    ensures Ordered(rows, order, perm)
    ensures sorted == Select(rows, perm)
    ensures multiset(sorted) == multiset(rows)
  {
    sorted := rows;
    perm := seq(|rows|, i => i);
    assert order[|order|..] == [];
    var i := |order|;
    while i > 0
      invariant 0 <= i <= |order|
      invariant Ordered(rows, order[i..], perm) && sorted == Select(rows, perm)
    {
      i := i - 1;
      var step;
      ghost var now := sorted;
      sorted, step := StableSort(sorted, KeysOf(sorted, order[i]), order[i].desc);
      SortStep(rows, order[i], order[i + 1..], perm, step);
      assert [order[i]] + order[i + 1..] == order[i..];
      perm := Select(perm, step);
    }
    SelectIsPermutation(rows, perm);
  }

  lemma {:induction false} SelectIsPermutation<T>(s: seq<T>, perm: seq<nat>)
    requires Permutation(perm, |s|)
    ensures multiset(Select(s, perm)) == multiset(s)
  {
    if s != [] {
      var n := |s| - 1;
      var at := PlaceOf(perm, n);
      var rest := perm[..at] + perm[at + 1..];
      assert forall i :: 0 <= i < |rest| ==> rest[i] == perm[if i < at then i else i + 1];
      SelectIsPermutation(s[..n], rest);
      var sel := Select(s, perm);
      assert Select(s[..n], rest) == sel[..at] + sel[at + 1..];
      assert sel == sel[..at] + [s[n]] + sel[at + 1..];
      assert s == s[..n] + [s[n]];
    } else {
      assert Select(s, perm) == [];
    }
  }

  /** A permutation of 0..n-1 contains n - 1. */
  lemma PlaceOf(perm: seq<nat>, n: nat) returns (at: nat)
    requires Permutation(perm, n + 1)
    ensures at < |perm| && perm[at] == n
  {
    if n !in perm {
      Pigeonhole(perm, n);
      assert false;
    }
    at :| 0 <= at < |perm| && perm[at] == n;
  }

  lemma {:induction false} Pigeonhole(s: seq<nat>, n: nat)
    requires |s| > n && forall i :: 0 <= i < |s| ==> s[i] < n
    requires forall i, j :: 0 <= i < j < |s| ==> s[i] != s[j]
    ensures false
  {
    if n > 0 {
      var m := n - 1;
      if m in s {
        var at :| 0 <= at < |s| && s[at] == m;
        var rest := s[..at] + s[at + 1..];
        assert forall i :: 0 <= i < |rest| ==> rest[i] == s[if i < at then i else i + 1];
        Pigeonhole(rest, m);
      } else {
        Pigeonhole(s, m);
      }
    }
  }
}
