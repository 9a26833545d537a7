/** Hash aggregation: one pass over the rows with a dictionary of group states. */
module Aggregates {
  import opened Values

  type GroupKey = seq<Cell>

  /** PlainValue is a column outside any aggregate. */
  datatype Func = PlainValue | Count | Sum | Avg

  /** What is aggregated: for a plain value its column, otherwise the value of the argument. */
  datatype Aggregation = Aggregation(func: Func, arg: Row -> Cell)

  /** The running state of one aggregate in one group; None before the first row. */
  datatype State = Unset | Last(cell: Cell) | Number(n: int) | Mean(sum: int, count: nat)

  datatype Outcome = Cell(cell: Values.Cell) | Ratio(sum: int, count: nat)

  datatype Group = Group(key: GroupKey, results: seq<Outcome>)

  /** Python adds numbers; adding a text to a number raises. */
  predicate Summable(f: Func, c: Values.Cell) {
    f in {Sum, Avg} ==> c.Null? || c.v.Num?
  }

  predicate StateFits(f: Func, s: State) {
    s.Unset? || match f case PlainValue => s.Last? case Count => s.Number? case Sum => s.Number? case Avg => s.Mean?
  }

  /** One row more. A NULL counts for COUNT; SUM and AVG pass over it. */
  function Accumulate(f: Func, s: State, c: Values.Cell): (s': State)
    requires Summable(f, c) && StateFits(f, s)
    ensures StateFits(f, s')
  {
    match f
    case PlainValue => Last(c)
    case Count => Number((if s.Number? then s.n else 0) + 1)
    case Sum => if c.Null? then s else Number((if s.Number? then s.n else 0) + c.v.n)
    case Avg =>
      var m := if s.Mean? then s else Mean(0, 0);
      if c.Null? then m else Mean(m.sum + c.v.n, m.count + 1)
  }

  function Finalize(s: State): Outcome {
    match s
    case Unset => Cell(Null)
    case Last(c) => Cell(c)
    case Number(n) => Cell(Val(Num(n)))
    case Mean(sum, count) => if count == 0 then Cell(Null) else Ratio(sum, count)
  }

  // ----- the meaning -----

  /** The values of the rows of one group, in order. */
  function Members(rows: seq<Row>, keyOf: Row -> GroupKey, key: GroupKey): seq<Row> {
    if rows == [] then []
    else
      var k := |rows| - 1;
      Members(rows[..k], keyOf, key) + if keyOf(rows[k]) == key then [rows[k]] else []
  }

  /** The group keys in the order they first appear. */
  function FirstSeen(rows: seq<Row>, keyOf: Row -> GroupKey): seq<GroupKey> {
    if rows == [] then []
    else
      var k := |rows| - 1;
      var seen := FirstSeen(rows[..k], keyOf);
      if keyOf(rows[k]) in seen then seen else seen + [keyOf(rows[k])]
  }

  ghost predicate AllSummable(rows: seq<Row>, aggs: seq<Aggregation>) {
    forall i, r :: 0 <= i < |aggs| && r in rows ==> Summable(aggs[i].func, aggs[i].arg(r))
  }

  /** The state of an aggregate after the rows of a group. */
  ghost function Fold(a: Aggregation, rows: seq<Row>): (s: State)
    requires forall r :: r in rows ==> Summable(a.func, a.arg(r))
    ensures StateFits(a.func, s)
  {
    if rows == [] then Unset
    else Accumulate(a.func, Fold(a, rows[..|rows| - 1]), a.arg(rows[|rows| - 1]))
  }

  /** The numbers among the values of an aggregate's argument: NULLs are passed over. */
  function Numbers(arg: Row -> Values.Cell, rows: seq<Row>): seq<int> {
    if rows == [] then []
    else
      var c := arg(rows[|rows| - 1]);
      Numbers(arg, rows[..|rows| - 1]) + if c.Val? && c.v.Num? then [c.v.n] else []
  }

  function Total(ns: seq<int>): int {
    if ns == [] then 0 else Total(ns[..|ns| - 1]) + ns[|ns| - 1]
  }

  lemma TotalSnoc(ns: seq<int>, n: int)
    ensures Total(ns + [n]) == Total(ns) + n
  {
    assert (ns + [n])[..|ns|] == ns;
  }

  /** COUNT is the number of rows of the group, SUM and AVG speak of its numbers alone. */
  function Meant(a: Aggregation, rows: seq<Row>): State {
    var ns := Numbers(a.arg, rows);
    match a.func
    case PlainValue => if rows == [] then Unset else Last(a.arg(rows[|rows| - 1]))
    case Count => if rows == [] then Unset else Number(|rows|)
    case Sum => if ns == [] then Unset else Number(Total(ns))
    case Avg => if rows == [] then Unset else Mean(Total(ns), |ns|)
  }

  lemma MeantNext(a: Aggregation, rows: seq<Row>, r: Row)
    requires Summable(a.func, a.arg(r)) && StateFits(a.func, Meant(a, rows))
    ensures Meant(a, rows + [r]) == Accumulate(a.func, Meant(a, rows), a.arg(r))
  {
    var ns, c := Numbers(a.arg, rows), a.arg(r);
    assert (rows + [r])[..|rows|] == rows;
    if c.Val? && c.v.Num? {
      TotalSnoc(ns, c.v.n);
      assert Numbers(a.arg, rows + [r]) == ns + [c.v.n];
    } else {
      assert Numbers(a.arg, rows + [r]) == ns;
    }
    hide Numbers, Total;
  }

  /** Folding the rows of a group one by one gives what the aggregate means. */
  lemma {:induction false} FoldMeaning(a: Aggregation, rows: seq<Row>)
    requires forall r :: r in rows ==> Summable(a.func, a.arg(r))
    ensures Fold(a, rows) == Meant(a, rows)
  {
    hide Accumulate, Summable, StateFits;
    if rows != [] {
      var init, r := rows[..|rows| - 1], rows[|rows| - 1];
      assert r in rows && init + [r] == rows;
      assert forall x :: x in init ==> x in rows;
      FoldMeaning(a, init);
      MeantNext(a, init, r);
    }
  }

  /** The number of values in a column that are not NULL. */
  function CountValues(arg: Row -> Values.Cell, rows: seq<Row>): (n: nat)
    ensures n <= |rows|
  {
    if rows == [] then 0
    else CountValues(arg, rows[..|rows| - 1]) + if arg(rows[|rows| - 1]) == Null then 0 else 1
  }

  lemma {:induction false} NoNullsCounted(arg: Row -> Values.Cell, rows: seq<Row>)
    ensures CountValues(arg, rows) == |rows| <==> forall r :: r in rows ==> arg(r) != Null
  {
    if rows != [] {
      var init, last := rows[..|rows| - 1], rows[|rows| - 1];
      assert last in rows && forall r :: r in rows <==> r in init || r == last;
      NoNullsCounted(arg, init);
    }
  }

  /** COUNT of a column counts its NULLs too: over any rows of any column, numbers or texts, the result is the number
      of values exactly if there are rows and none of them is NULL. Without rows there is no result. */
  lemma CountSkipsNullsIff(arg: Row -> Values.Cell, rows: seq<Row>)
    ensures Finalize(Fold(Aggregation(Count, arg), rows)) == Cell(Val(Num(CountValues(arg, rows))))
            <==> rows != [] && forall r :: r in rows ==> arg(r) != Null
    ensures rows != [] ==> Finalize(Fold(Aggregation(Count, arg), rows)) == Cell(Val(Num(|rows|)))
  {
    FoldMeaning(Aggregation(Count, arg), rows);
    NoNullsCounted(arg, rows);
  }

  lemma {:induction false} NumbersCounted(arg: Row -> Values.Cell, rows: seq<Row>)
    requires forall r :: r in rows ==> arg(r) == Null || arg(r).v.Num?
    ensures |Numbers(arg, rows)| == CountValues(arg, rows)
  {
    if rows != [] {
      var init, last := rows[..|rows| - 1], rows[|rows| - 1];
      assert last in rows && forall r :: r in init ==> r in rows;
      NumbersCounted(arg, init);
    }
  }

  /** What the operator puts out for a group: the last value of a plain column, the number of rows, the sum of the
      values that are not NULL, and for AVG their sum over their number; NULL when there is nothing to aggregate. */
  lemma ResultMeans(arg: Row -> Values.Cell, rows: seq<Row>)
    ensures Finalize(Meant(Aggregation(PlainValue, arg), rows))
            == Cell(if rows == [] then Null else arg(rows[|rows| - 1]))
    ensures Finalize(Meant(Aggregation(Count, arg), rows)) == Cell(if rows == [] then Null else Val(Num(|rows|)))
    ensures (forall r :: r in rows ==> arg(r) == Null || arg(r).v.Num?) ==>
              var total, n := Total(Numbers(arg, rows)), CountValues(arg, rows);
              && Finalize(Meant(Aggregation(Sum, arg), rows)) == Cell(if n == 0 then Null else Val(Num(total)))
              && Finalize(Meant(Aggregation(Avg, arg), rows)) == if n == 0 then Cell(Null) else Ratio(total, n)
  {
    hide Numbers, Total, CountValues;
    if forall r :: r in rows ==> arg(r) == Null || arg(r).v.Num? {
      NumbersCounted(arg, rows);
    }
  }

  // ----- groups partition the rows -----

  ghost predicate NoRepeats(keys: seq<GroupKey>) {
    forall i, j :: 0 <= i < j < |keys| ==> keys[i] != keys[j]
  }

  lemma {:induction false} FirstSeenExact(rows: seq<Row>, keyOf: Row -> GroupKey)
    ensures NoRepeats(FirstSeen(rows, keyOf))
    ensures forall key :: key in FirstSeen(rows, keyOf) <==> exists r :: r in rows && keyOf(r) == key
    ensures forall key :: key !in FirstSeen(rows, keyOf) ==> Members(rows, keyOf, key) == []
  {
    if rows != [] {
      var init, last := rows[..|rows| - 1], rows[|rows| - 1];
      FirstSeenExact(init, keyOf);
      assert last in rows && forall r :: r in rows <==> r in init || r == last;
    }
  }

  function Sizes(rows: seq<Row>, keyOf: Row -> GroupKey, keys: seq<GroupKey>): nat {
    if keys == [] then 0 else Sizes(rows, keyOf, keys[..|keys| - 1]) + |Members(rows, keyOf, keys[|keys| - 1])|
  }

  lemma {:induction false} SizesNext(rows: seq<Row>, keyOf: Row -> GroupKey, keys: seq<GroupKey>, r: Row)
    requires NoRepeats(keys)
    ensures Sizes(rows + [r], keyOf, keys) == Sizes(rows, keyOf, keys) + if keyOf(r) in keys then 1 else 0
  {
    if keys != [] {
      var init, last := keys[..|keys| - 1], keys[|keys| - 1];
      SizesNext(rows, keyOf, init, r);
      assert (rows + [r])[..|rows|] == rows;
      assert keyOf(r) in keys <==> keyOf(r) in init || keyOf(r) == last;
      assert last !in init;
    }
  }

  lemma SizesSnoc(rows: seq<Row>, keyOf: Row -> GroupKey, keys: seq<GroupKey>, key: GroupKey)
    ensures Sizes(rows, keyOf, keys + [key]) == Sizes(rows, keyOf, keys) + |Members(rows, keyOf, key)|
  {
    assert (keys + [key])[..|keys|] == keys;
  }

  /** No row is lost and none is counted twice. */
  lemma {:induction false} GroupsPartition(rows: seq<Row>, keyOf: Row -> GroupKey)
    ensures Sizes(rows, keyOf, FirstSeen(rows, keyOf)) == |rows|
  {
    if rows != [] {
      var init, r := rows[..|rows| - 1], rows[|rows| - 1];
      var seen, key := FirstSeen(init, keyOf), keyOf(r);
      GroupsPartition(init, keyOf);
      FirstSeenExact(init, keyOf);
      assert init + [r] == rows;
      SizesNext(init, keyOf, seen, r);
      if key !in seen {
        assert Members(rows, keyOf, key) == [r];
        SizesSnoc(rows, keyOf, seen, key);
      }
    }
  }

  // ----- the operator -----

  /** The states of all aggregates in the group of a key. */
  ghost function States(rows: seq<Row>, keyOf: Row -> GroupKey, aggs: seq<Aggregation>, key: GroupKey): (ss: seq<State>)
    requires AllSummable(rows, aggs)
    ensures |ss| == |aggs|
  {
    MembersAmong(rows, keyOf, key);
    seq(|aggs|, i requires 0 <= i < |aggs| => Fold(aggs[i], Members(rows, keyOf, key)))
  }

  lemma {:induction false} MembersAmong(rows: seq<Row>, keyOf: Row -> GroupKey, key: GroupKey)
    ensures forall r :: r in Members(rows, keyOf, key) ==> r in rows && keyOf(r) == key
  {
    if rows != [] {
      MembersAmong(rows[..|rows| - 1], keyOf, key);
    }
  }

  ghost predicate Ready(aggs: seq<Aggregation>, states: seq<State>, r: Row) {
    |states| == |aggs|
    && forall i :: 0 <= i < |aggs| ==> Summable(aggs[i].func, aggs[i].arg(r)) && StateFits(aggs[i].func, states[i])
  }

  /** Every aggregate has taken the row in. */
  ghost predicate Advanced(aggs: seq<Aggregation>, states: seq<State>, r: Row, states': seq<State>) {
    && Ready(aggs, states, r) && |states'| == |aggs|
    && forall i :: 0 <= i < |aggs| ==> states'[i] == Accumulate(aggs[i].func, states[i], aggs[i].arg(r))
  }

  /** A row changes the states of its own group alone. */
  lemma StatesNext(rows: seq<Row>, keyOf: Row -> GroupKey, aggs: seq<Aggregation>, r: Row, key: GroupKey)
    requires AllSummable(rows + [r], aggs)
    ensures AllSummable(rows, aggs)
    ensures var before, after := States(rows, keyOf, aggs, key), States(rows + [r], keyOf, aggs, key);
            if keyOf(r) == key then Advanced(aggs, before, r, after) else after == before
  {
    assert (rows + [r])[..|rows|] == rows && r in rows + [r];
    assert forall x :: x in rows ==> x in rows + [r];
    MembersAmong(rows, keyOf, key);
    MembersAmong(rows + [r], keyOf, key);
    var ms := Members(rows, keyOf, key);
    assert (ms + [r])[..|ms|] == ms && ms + [] == ms;
    hide Accumulate;
    if keyOf(r) != key {
      assert Members(rows + [r], keyOf, key) == ms;
    }
  }

  /** Brings the states of one group up to date with a row. */
  method AddRow(aggs: seq<Aggregation>, states: seq<State>, r: Row) returns (states': seq<State>)
    requires Ready(aggs, states, r)
    ensures Advanced(aggs, states, r, states')
  {
    hide Accumulate, Summable, StateFits;
    states' := states;
    for i := 0 to |aggs|
      invariant |states'| == |aggs| && states'[i..] == states[i..]
      invariant forall j :: 0 <= j < i ==> states'[j] == Accumulate(aggs[j].func, states[j], aggs[j].arg(r))
    {
      assert states'[i] == states'[i..][0] == states[i];
      states' := states'[i := Accumulate(aggs[i].func, states'[i], aggs[i].arg(r))];
    }
  }

  lemma AdvancedUnique(aggs: seq<Aggregation>, states: seq<State>, r: Row, a: seq<State>, b: seq<State>)
    requires Advanced(aggs, states, r, a) && Advanced(aggs, states, r, b)
    ensures a == b
  {
    hide Accumulate;
  }

  /** A key that has not come up yet has an empty group. */
  lemma NewGroup(rows: seq<Row>, keyOf: Row -> GroupKey, aggs: seq<Aggregation>, key: GroupKey)
    requires AllSummable(rows, aggs) && key !in FirstSeen(rows, keyOf)
    ensures States(rows, keyOf, aggs, key) == seq(|aggs|, _ => Unset)
  {
    FirstSeenExact(rows, keyOf);
  }

  /** One row more: a new group for a new key, then the group's states. */
  method TakeRow(ghost rows: seq<Row>, keyOf: Row -> GroupKey, aggs: seq<Aggregation>, r: Row,
                 order: seq<GroupKey>, groups: map<GroupKey, seq<State>>)
    returns (order': seq<GroupKey>, groups': map<GroupKey, seq<State>>)
    requires AllSummable(rows + [r], aggs) && AllSummable(rows, aggs)
    requires order == FirstSeen(rows, keyOf) && forall key :: key in groups <==> key in order
    requires forall key :: key in groups ==> groups[key] == States(rows, keyOf, aggs, key)
    ensures order' == FirstSeen(rows + [r], keyOf) && forall key :: key in groups' <==> key in order'
    ensures forall key :: key in groups' ==> groups'[key] == States(rows + [r], keyOf, aggs, key)
  {
    hide States, Ready, Advanced, AllSummable;
    order', groups' := order, groups;
    var key := keyOf(r);
    assert (rows + [r])[..|rows|] == rows;
    if key !in groups {
      order', groups' := order + [key], groups[key := seq(|aggs|, _ => Unset)];
      NewGroup(rows, keyOf, aggs, key);
    }
    forall k
      ensures if key == k
              then Advanced(aggs, States(rows, keyOf, aggs, k), r, States(rows + [r], keyOf, aggs, k))
              else States(rows + [r], keyOf, aggs, k) == States(rows, keyOf, aggs, k)
    {
      StatesNext(rows, keyOf, aggs, r, k);
    }
    AdvancedReady(aggs, groups'[key], r, States(rows + [r], keyOf, aggs, key));
    var states := AddRow(aggs, groups'[key], r);
    AdvancedUnique(aggs, groups'[key], r, states, States(rows + [r], keyOf, aggs, key));
    groups' := groups'[key := states];
  }

  lemma StatesMean(rows: seq<Row>, keyOf: Row -> GroupKey, aggs: seq<Aggregation>, key: GroupKey)
    requires AllSummable(rows, aggs)
    ensures forall i :: 0 <= i < |aggs| ==>
              States(rows, keyOf, aggs, key)[i] == Meant(aggs[i], Members(rows, keyOf, key))
  {
    MembersAmong(rows, keyOf, key);
    hide Members, Meant, Fold;
    forall i | 0 <= i < |aggs|
      ensures States(rows, keyOf, aggs, key)[i] == Meant(aggs[i], Members(rows, keyOf, key))
    {
      FoldMeaning(aggs[i], Members(rows, keyOf, key));
    }
  }

  lemma PrefixNone(rows: seq<Row>, aggs: seq<Aggregation>)
    ensures rows[..0] == [] && AllSummable(rows[..0], aggs)
  {
  }

  lemma PrefixSummable(rows: seq<Row>, n: nat, aggs: seq<Aggregation>)
    requires AllSummable(rows, aggs) && n < |rows|
    ensures rows[..n] + [rows[n]] == rows[..n + 1] && AllSummable(rows[..n], aggs) && AllSummable(rows[..n + 1], aggs)
  {
    hide Summable;
    forall i, r | 0 <= i < |aggs| && r in rows[..n + 1]
      ensures Summable(aggs[i].func, aggs[i].arg(r))
    {
      assert r in rows;
    }
    forall i, r | 0 <= i < |aggs| && r in rows[..n]
      ensures Summable(aggs[i].func, aggs[i].arg(r))
    {
      assert r in rows;
    }
  }

  lemma AdvancedReady(aggs: seq<Aggregation>, states: seq<State>, r: Row, states': seq<State>)
    requires Advanced(aggs, states, r, states')
    ensures Ready(aggs, states, r)
  {
  }

  /** One group for each key, in the order the keys first appear, with the aggregates of exactly
      the rows that have the key. */
  method Aggregate(rows: seq<Row>, keyOf: Row -> GroupKey, aggs: seq<Aggregation>) returns (out: seq<Group>)
    requires AllSummable(rows, aggs)
    ensures var keys := FirstSeen(rows, keyOf);
            && |out| == |keys|
            && forall k :: 0 <= k < |out| ==>
                 && out[k].key == keys[k] && |out[k].results| == |aggs|
                 && forall i :: 0 <= i < |aggs| ==>
                      out[k].results[i] == Finalize(Meant(aggs[i], Members(rows, keyOf, keys[k])))
  {
    var order: seq<GroupKey>, groups: map<GroupKey, seq<State>> := [], map[];
    hide Accumulate, Finalize, Fold, Summable, Meant, States, Members, AllSummable;
    PrefixNone(rows, aggs);
    for n := 0 to |rows|
      invariant AllSummable(rows[..n], aggs)
      invariant order == FirstSeen(rows[..n], keyOf)
      invariant forall key :: key in groups <==> key in order
      invariant forall key :: key in groups ==> groups[key] == States(rows[..n], keyOf, aggs, key)
    {
      PrefixSummable(rows, n, aggs);
      order, groups := TakeRow(rows[..n], keyOf, aggs, rows[n], order, groups);
      assert rows[..n + 1] == rows[..n] + [rows[n]];
    }
    assert rows[..|rows|] == rows;
    out := [];
    for k := 0 to |order|
      invariant |out| == k
      invariant forall j :: 0 <= j < k ==> out[j].key == order[j] && |out[j].results| == |aggs|
      invariant forall j, i :: 0 <= j < k && 0 <= i < |aggs| ==>
                  out[j].results[i] == Finalize(Meant(aggs[i], Members(rows, keyOf, order[j])))
    {
      assert order[k] in order;
      var ss := groups[order[k]];
      StatesMean(rows, keyOf, aggs, order[k]);
      out := out + [Group(order[k], seq(|aggs|, i requires 0 <= i < |aggs| => Finalize(ss[i])))];
    }
  }
}
