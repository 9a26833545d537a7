/** SQL values and NULL, rows as ordered dictionaries, and sorting. */
module Values {
  import opened ByteCodec
  import opened KeyOrder

  /** Texts are their UTF-8 bytes, whose order is the order of the code points. */
  datatype Value = Num(n: int) | Text(s: Bytes)

  datatype Cell = Null | Val(v: Value)

  type Row = seq<(string, Cell)>

  // ----- order -----

  predicate ValueLess(a: Value, b: Value) {
    match (a, b)
    case (Num(x), Num(y)) => x < y
    case (Text(s), Text(t)) => Less(s, t)
    case (Num(_), Text(_)) => true
    case (Text(_), Num(_)) => false
  }

  /** Python refuses to compare a number with a text; keys must not mix the two. */
  ghost predicate Comparable(keys: seq<Cell>) {
    forall i, j :: 0 <= i < |keys| && 0 <= j < |keys| && keys[i].Val? && keys[j].Val? ==>
      (keys[i].v.Num? <==> keys[j].v.Num?)
  }

  /** The sort key (0, 0) of NULL is below the key (1, v) of every value. */
  predicate CellLess(a: Cell, b: Cell) {
    match (a, b)
    case (Null, Null) => false
    case (Null, Val(_)) => true
    case (Val(_), Null) => false
    case (Val(x), Val(y)) => ValueLess(x, y)
  }

  lemma CellOrder()
    ensures forall a :: !CellLess(a, a)
    ensures forall a, b :: CellLess(a, b) || a == b || CellLess(b, a)
    ensures forall a, b, c :: CellLess(a, b) && CellLess(b, c) ==> CellLess(a, c)
  {
    StrictTotalOrder();
  }

  // ----- rows -----

  function Get(row: Row, k: string): Cell {
    if row == [] then Null else if row[0].0 == k then row[0].1 else Get(row[1..], k)
  }

  predicate Has(row: Row, k: string) {
    exists i :: 0 <= i < |row| && row[i].0 == k
  }

  /** Dictionary assignment: overwrite in place or append. */
  function Put(row: Row, k: string, c: Cell): Row {
    if row == [] then [(k, c)]
    else if row[0].0 == k then [(k, c)] + row[1..]
    else [row[0]] + Put(row[1..], k, c)
  }

  lemma {:induction false} PutGet(row: Row, k: string, c: Cell, q: string)
    ensures Get(Put(row, k, c), q) == if q == k then c else Get(row, q)
    ensures Has(Put(row, k, c), q) <==> q == k || Has(row, q)
  {
    if row == [] {
      assert Put(row, k, c)[0].0 == k;
    } else if row[0].0 == k {
      var p := Put(row, k, c);
      assert p[0].0 == k && p[1..] == row[1..];
      assert forall i :: 0 < i < |row| ==> p[i] == row[i];
    } else {
      PutGet(row[1..], k, c, q);
      var p := Put(row, k, c);
      assert p[1..] == Put(row[1..], k, c);
      HasTail(p, q);
      HasTail(row, q);
    }
  }

  lemma HasTail(row: Row, q: string)
    requires row != []
    ensures Has(row, q) <==> row[0].0 == q || Has(row[1..], q)
  {
    if i :| 0 <= i < |row| && row[i].0 == q {
      assert i > 0 ==> row[1..][i - 1].0 == q;
    }
    if i :| 0 <= i < |row[1..]| && row[1..][i].0 == q {
      assert row[i + 1].0 == q;
    }
  }

  function PutAll(row: Row, items: Row): Row
    decreases |items|
  {
    if items == [] then row else PutAll(Put(row, items[0].0, items[0].1), items[1..])
  }

  /** No column occurs twice, as in any Python dictionary. */
  ghost predicate Distinct(row: Row) {
    forall i, j :: 0 <= i < j < |row| ==> row[i].0 != row[j].0
  }

  lemma {:induction false} PutAllGet(row: Row, items: Row, q: string)
    requires Distinct(items)
    ensures Get(PutAll(row, items), q) == if Has(items, q) then Get(items, q) else Get(row, q)
    ensures Has(PutAll(row, items), q) <==> Has(items, q) || Has(row, q)
    decreases |items|
  {
    if items != [] {
      var k, c, rest := items[0].0, items[0].1, items[1..];
      assert Distinct(rest) && !Has(rest, k) by {
        assert forall i :: 0 <= i < |rest| ==> rest[i] == items[i + 1];
      }
      PutAllGet(Put(row, k, c), rest, q);
      PutGet(row, k, c, q);
      HasTail(items, q);
    }
  }

  // ----- stable sorting -----

  /** Row x goes before row y: by its key in the given direction, then by its old place. */
  predicate Precedes(keys: seq<Cell>, reverse: bool, x: nat, y: nat)
    requires x < |keys| && y < |keys|
  {
    (if reverse then CellLess(keys[y], keys[x]) else CellLess(keys[x], keys[y]))
    || (keys[x] == keys[y] && x < y)
  }

  ghost predicate Permutation(perm: seq<nat>, n: nat) {
    && |perm| == n
    && (forall i :: 0 <= i < n ==> perm[i] < n)
    && forall i, j :: 0 <= i < j < n ==> perm[i] != perm[j]
  }

  ghost predicate SortedPerm(perm: seq<nat>, keys: seq<Cell>, reverse: bool) {
    && (forall i :: 0 <= i < |perm| ==> perm[i] < |keys|)
    && forall i, j :: 0 <= i < j < |perm| ==> Precedes(keys, reverse, perm[i], perm[j])
  }

  function Select<T>(s: seq<T>, perm: seq<nat>): (r: seq<T>)
    requires forall i :: 0 <= i < |perm| ==> perm[i] < |s|
    ensures |r| == |perm|
    ensures forall i :: 0 <= i < |perm| ==> r[i] == s[perm[i]]
  {
    seq(|perm|, i requires 0 <= i < |perm| => s[perm[i]])
  }

  lemma PrecedesOrder(keys: seq<Cell>, reverse: bool, x: nat, y: nat)
    requires x < |keys| && y < |keys| && x != y
    ensures Precedes(keys, reverse, x, y) <==> !Precedes(keys, reverse, y, x)
    ensures forall z: nat :: z < |keys| && Precedes(keys, reverse, x, y) && Precedes(keys, reverse, y, z) ==>
              Precedes(keys, reverse, x, z)
  {
    CellOrder();
    hide CellLess;
  }

  /** list.sort(key, reverse): stable in both directions. Insertion sort on the old places. */
  method StableSort<T>(s: seq<T>, keys: seq<Cell>, reverse: bool) returns (sorted: seq<T>, perm: seq<nat>)
    requires |keys| == |s|
    ensures Permutation(perm, |s|) && SortedPerm(perm, keys, reverse)
    ensures sorted == Select(s, perm)
  {
    perm := [];
    var x := 0;
    while x < |s|
      invariant 0 <= x <= |s| && Permutation(perm, x) && SortedPerm(perm, keys, reverse)
    {
      var p := 0;
      while p < |perm| && Precedes(keys, reverse, perm[p], x)
        invariant 0 <= p <= |perm|
        invariant forall i :: 0 <= i < p ==> Precedes(keys, reverse, perm[i], x)
      {
        p := p + 1;
      }
      InsertKeepsSorted(perm, keys, reverse, x, p);
      perm := perm[..p] + [x] + perm[p..];
      x := x + 1;
    }
    sorted := Select(s, perm);
  }

  lemma InsertKeepsSorted(perm: seq<nat>, keys: seq<Cell>, reverse: bool, x: nat, p: nat)
    requires x < |keys| && Permutation(perm, x) && SortedPerm(perm, keys, reverse) && p <= |perm|
    requires forall i :: 0 <= i < p ==> Precedes(keys, reverse, perm[i], x)
    requires p < |perm| ==> !Precedes(keys, reverse, perm[p], x)
    ensures Permutation(perm[..p] + [x] + perm[p..], x + 1)
    ensures SortedPerm(perm[..p] + [x] + perm[p..], keys, reverse)
  {
    hide Precedes;
    var perm' := perm[..p] + [x] + perm[p..];
    if p < |perm| {
      PrecedesOrder(keys, reverse, x, perm[p]);
      forall i | p <= i < |perm|
        ensures Precedes(keys, reverse, x, perm[i])
      {
        assert i > p ==> Precedes(keys, reverse, perm[p], perm[i]);
      }
    }
    forall i, j | 0 <= i < j < |perm'|
      ensures perm'[i] != perm'[j] && Precedes(keys, reverse, perm'[i], perm'[j])
    {
      var i0, j0 := if i < p then i else i - 1, if j < p then j else j - 1;
      if i != p && j != p {
        assert perm'[i] == perm[i0] && perm'[j] == perm[j0];
      }
    }
  }
}
