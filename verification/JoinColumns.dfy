/** What a join without or with an ON condition combines, and what its rows read column by column. */
module JoinColumns {
  import opened Wrappers
  import opened Values
  import opened JoinSpec
  import opened Joins
  import opened JoinPlanner
  import opened JoinRows

  // ----- which pairs are combined -----

  /** Without ON, whatever the join keys, the nested loop of every join type combines all pairs of rows, left row by
      left row; if one table is empty, only an outer join has rows, those of the other table. */
  lemma NoConditionCombinesAll(p: Plan, ls: seq<Row>, rs: seq<Row>)
    requires p.on.NoCond?
    ensures var es := Join(LoopRelation(p, ls, rs), p.joinType, |ls|, |rs|);
            && (ls != [] && rs != [] ==> es == AllPairs(|ls|, |rs|))
            && (rs == [] ==> es == if KeepsLeft(p.joinType) then AllLeft(|ls|) else [])
            && (ls == [] ==> es == if KeepsRight(p.joinType) then AllRight(|rs|) else [])
  {
    var m := LoopRelation(p, ls, rs);
    if ls != [] && rs != [] {
      JoinAll(m, p.joinType, |ls|, |rs|);
    }
    NoRightRows(m, p.joinType, |ls|);
    NoLeftRows(m, |rs|);
  }

  function AllLeft(n: nat): seq<Event> {
    seq(n, i requires 0 <= i < n => LeftOnly(i))
  }

  function AllRight(n: nat): seq<Event> {
    seq(n, j requires 0 <= j < n => RightOnly(j))
  }

  lemma {:induction false} NoRightRows(m: Match, t: JoinType, k: nat)
    ensures LeftPart(m, t, k, 0) == if KeepsLeft(t) then AllLeft(k) else []
  {
    if k > 0 {
      NoRightRows(m, t, k - 1);
      assert AllLeft(k) == AllLeft(k - 1) + [LeftOnly(k - 1)];
    }
  }

  lemma {:induction false} NoLeftRows(m: Match, k: nat)
    ensures RightPart(m, 0, k) == AllRight(k)
  {
    if k > 0 {
      NoLeftRows(m, k - 1);
      assert AllRight(k) == AllRight(k - 1) + [RightOnly(k - 1)];
    }
  }

  /** A USING list leaves no ON, only join keys. So the nested loop combines all pairs, while the hash join compares the
      key, if it is a single one, and else finds no partner for any row. The choice between them stays invisible
      exactly when there are no pairs, or all of them are equal in a single key. */
  lemma UsingAgreesIff(p: Plan, ls: seq<Row>, rs: seq<Row>)
    requires p.on.NoCond? && p.joinKeys != [] && p.joinKeys[0] != ""
    ensures SameEvents(p, ls, rs)
            <==> forall i, j :: 0 <= i < |ls| && 0 <= j < |rs| ==> OneEqualKey(p, ls[i], rs[j])
  {
    hide LeftKey, RightKey, OneEqualKey, Join;
    var m, m' := LoopRelation(p, ls, rs), HashRelation(p, ls, rs);
    SameJoinIffAgree(m, m', p.joinType, |ls|, |rs|);
    forall i, j | 0 <= i < |ls| && 0 <= j < |rs|
      ensures m(i, j) == m'(i, j) <==> OneEqualKey(p, ls[i], rs[j])
    {
      UsingKeys(p, ls[i], rs[j]);
    }
  }

  predicate OneEqualKey(p: Plan, l: Row, r: Row) {
    |p.joinKeys| == 1 && Get(l, p.joinKeys[0]) == Get(r, p.joinKeys[0])
  }

  lemma UsingKeys(p: Plan, l: Row, r: Row)
    requires p.on.NoCond? && p.joinKeys != [] && p.joinKeys[0] != ""
    ensures LeftKey(p, l) == RightKey(p, r) <==> OneEqualKey(p, l, r)
  {
    var a, b := LeftKey(p, l), RightKey(p, r);
    assert a[0] == Get(l, p.joinKeys[0]) && b == [Get(r, p.joinKeys[0])];
  }

  // ----- names -----

  /** The name of a column under its table's alias, or else under the name of the table. */
  function Under(s: Side, c: string): string {
    (match s.alias case Some(a) => (if a == "" then s.name else a) case None => s.name) + "_" + c
  }

  ghost predicate NamesColumn(s: Side, q: string) {
    exists c :: c in s.cols && Under(s, c) == q
  }

  ghost function ColumnNamed(s: Side, q: string): (c: string)
    requires NamesColumn(s, q)
    ensures c in s.cols && Under(s, c) == q
  {
    var c :| c in s.cols && Under(s, c) == q;
    c
  }

  /** What a name reads in the row that ON is evaluated on: a column of the right table under its prefix, or of the
      left table under its own, or a bare column of the left table, or of the right one. */
  ghost function ReadAs(p: Plan, l: Row, r: Row, q: string): Cell {
    if NamesColumn(p.right, q) then Get(r, ColumnNamed(p.right, q))
    else if NamesColumn(p.left, q) then Get(l, ColumnNamed(p.left, q))
    else if q in p.left.cols then Get(l, q) else if q in p.right.cols then Get(r, q) else Null
  }

  ghost predicate Readable(p: Plan, q: string) {
    NamesColumn(p.right, q) || NamesColumn(p.left, q) || q in p.left.cols || q in p.right.cols
  }

  lemma SameNames(s: Side, q: string)
    ensures NamesColumn(s, q) <==> IsQualified(PrefixOf(s), s.cols, q)
  {
    assert forall c :: Under(s, c) == Qualified(PrefixOf(s), c);
    if c :| c in s.cols && Under(s, c) == q {
      var i :| 0 <= i < |s.cols| && s.cols[i] == c;
      assert Qualified(PrefixOf(s), s.cols[i]) == q;
    }
    if i :| 0 <= i < |s.cols| && Qualified(PrefixOf(s), s.cols[i]) == q {
      assert s.cols[i] in s.cols;
    }
  }

  lemma ReadsQualified(row: Row, s: Side, q: string)
    requires Conforms(row, s.cols) && NamesColumn(s, q)
    ensures Get(Prefixed(PrefixOf(s), Data(row)), q) == Get(row, ColumnNamed(s, q))
  {
    var c := ColumnNamed(s, q);
    assert Under(s, c) == Qualified(PrefixOf(s), c);
    hide Data, Conforms;
    PrefixedGet(row, s.cols, PrefixOf(s), c);
    ColumnNotRowId(row, s.cols, c);
    GetData(row, c);
  }

  lemma ReadsBare(row: Row, cols: seq<string>, q: string)
    requires Conforms(row, cols) && q in cols
    ensures Get(Data(row), q) == Get(row, q)
  {
    ColumnNotRowId(row, cols, q);
    GetData(row, q);
  }

  // ----- the ON condition -----

  /** What a column reference of ON reads: under its table's name where there is such a name, or else bare. */
  ghost function ReferenceReads(p: Plan, l: Row, r: Row, c: ColRef): Cell {
    if c.table.Some? && c.table.value != "" && Readable(p, c.table.value + "_" + c.name)
    then ReadAs(p, l, r, c.table.value + "_" + c.name) else ReadAs(p, l, r, c.name)
  }

  lemma RawReads(p: Plan, l: Row, r: Row, q: string)
    requires Conforms(l, p.left.cols) && Conforms(r, p.right.cols)
    ensures Get(RawCombined(p, Data(l), Data(r)), q) == ReadAs(p, l, r, q)
    ensures Has(RawCombined(p, Data(l), Data(r)), q) <==> Readable(p, q)
  {
    hide Conforms, Data, RawCombined, Prefixed, IsQualified, NamesColumn, Get, Has;
    RawGet(p, l, r, q);
    SameNames(p.left, q);
    SameNames(p.right, q);
    if NamesColumn(p.right, q) {
      ReadsQualified(r, p.right, q);
    }
    if NamesColumn(p.left, q) {
      ReadsQualified(l, p.left, q);
    }
    if q in p.left.cols {
      ReadsBare(l, p.left.cols, q);
    }
    if q in p.right.cols {
      ReadsBare(r, p.right.cols, q);
    }
  }

  /** With any ON, a pair is combined exactly when ON holds: a test, of a row that reads as above; an equality, when
      both references read values and these are equal; an equality of one name with itself, when both rows have equal
      values in every join key. */
  lemma OnDecides(p: Plan, ls: seq<Row>, rs: seq<Row>, i: nat, j: nat) returns (raw: Row)
    requires Tables(p, ls, rs) && i < |ls| && j < |rs|
    ensures forall q :: Get(raw, q) == ReadAs(p, ls[i], rs[j], q) && (Has(raw, q) <==> Readable(p, q))
    ensures p.on.NoCond? ==> Pair(i, j) in Join(LoopRelation(p, ls, rs), p.joinType, |ls|, |rs|)
    ensures p.on.Other? ==>
              (Pair(i, j) in Join(LoopRelation(p, ls, rs), p.joinType, |ls|, |rs|) <==> p.on.test(raw))
    ensures p.on.Equality? && p.on.left.name != p.on.right.name ==>
              (Pair(i, j) in Join(LoopRelation(p, ls, rs), p.joinType, |ls|, |rs|) <==>
               ReferenceReads(p, ls[i], rs[j], p.on.left) == ReferenceReads(p, ls[i], rs[j], p.on.right) != Null)
    ensures p.on.Equality? && p.on.left.name == p.on.right.name ==>
              (Pair(i, j) in Join(LoopRelation(p, ls, rs), p.joinType, |ls|, |rs|) <==>
               forall k :: k in p.joinKeys ==> Get(ls[i], k) == Get(rs[j], k) != Null)
  {
    hide Conforms, EvalRef, ReadAs, Readable, ReferenceReads, Get, Has, Join, LoopMatch;
    raw := RawCombined(p, Data(ls[i]), Data(rs[j]));
    forall q
      ensures Get(raw, q) == ReadAs(p, ls[i], rs[j], q) && (Has(raw, q) <==> Readable(p, q))
    {
      RawReads(p, ls[i], rs[j], q);
    }
    JoinExact(LoopRelation(p, ls, rs), p.joinType, |ls|, |rs|);
    MatchMeans(p, ls[i], rs[j]);
    if p.on.Equality? {
      ReferenceIs(p, ls[i], rs[j], p.on.left, raw);
      ReferenceIs(p, ls[i], rs[j], p.on.right, raw);
    }
  }

  lemma MatchMeans(p: Plan, l: Row, r: Row)
    ensures var raw := RawCombined(p, Data(l), Data(r));
            LoopMatch(p, l, r) <==>
              match p.on
              case NoCond => true
              case Equality(a, b) =>
                if a.name == b.name then forall k :: k in p.joinKeys ==> Get(l, k) == Get(r, k) != Null
                else EvalRef(a, raw) == EvalRef(b, raw) != Null
              case Other(test) => test(raw)
  {
    hide RawCombined, Data, EvalRef, Get;
  }

  lemma ReferenceIs(p: Plan, l: Row, r: Row, c: ColRef, raw: Row)
    requires forall q :: Get(raw, q) == ReadAs(p, l, r, q) && (Has(raw, q) <==> Readable(p, q))
    ensures EvalRef(c, raw) == ReferenceReads(p, l, r, c)
  {
    hide ReadAs, Readable, Get, Has;
  }

  // ----- the rows put out -----

  lemma {:induction false} LastWins(row: Row, items: Row, k: nat)
    requires k < |items| && forall m :: k < m < |items| ==> items[m].0 != items[k].0
    ensures Get(PutAll(row, items), items[k].0) == items[k].1
    decreases |items|
  {
    var rest, row' := items[1..], Put(row, items[0].0, items[0].1);
    if k > 0 {
      assert rest[k - 1] == items[k];
      LastWins(row', rest, k - 1);
    } else {
      assert forall m :: 0 <= m < |rest| ==> rest[m] == items[m + 1];
      NotPut(row', rest, items[0].0);
      PutGet(row, items[0].0, items[0].1, items[0].0);
    }
  }

  lemma {:induction false} NotPut(row: Row, items: Row, q: string)
    requires forall m :: 0 <= m < |items| ==> items[m].0 != q
    ensures Get(PutAll(row, items), q) == Get(row, q)
    decreases |items|
  {
    if items != [] {
      NotPut(Put(row, items[0].0, items[0].1), items[1..], q);
      PutGet(row, items[0].0, items[0].1, q);
    }
  }

  /** The name a column of one side is put out under: its own, unless the other side has it too. */
  function ShownAs(s: Side, others: seq<string>, c: string): string {
    if c in others then Under(s, c) else c
  }

  /** Column k is the last of its side to be put out under its name. */
  ghost predicate Last(s: Side, others: seq<string>, k: nat)
    requires k < |s.cols|
  {
    forall m :: k < m < |s.cols| ==> ShownAs(s, others, s.cols[m]) != ShownAs(s, others, s.cols[k])
  }

  ghost predicate Shows(s: Side, others: seq<string>, q: string) {
    exists k :: 0 <= k < |s.cols| && ShownAs(s, others, s.cols[k]) == q
  }

  lemma RenamedAs(s: Side, row: Row, other: Row, others: seq<string>, k: nat)
    requires |row| == |s.cols| && k < |row| && row[k].0 == s.cols[k]
    requires forall q :: Has(other, q) <==> q in others
    ensures Renamed(PrefixOf(s), row, other)[k] == (ShownAs(s, others, s.cols[k]), row[k].1)
  {
  }

  /** A combined row shows every column of both sides, shared ones under prefixed names; of two with one name the later
      one, and of two sides with one name the right. */
  lemma MergeReads(p: Plan, l: Row, r: Row, q: string)
    requires |l| == |p.left.cols| && forall k :: 0 <= k < |l| ==> l[k].0 == p.left.cols[k]
    requires |r| == |p.right.cols| && forall k :: 0 <= k < |r| ==> r[k].0 == p.right.cols[k]
    ensures forall k :: 0 <= k < |r| && Last(p.right, p.left.cols, k) && ShownAs(p.right, p.left.cols, r[k].0) == q ==>
              Get(Merge(p, l, r), q) == r[k].1
    ensures forall k :: 0 <= k < |l| && Last(p.left, p.right.cols, k) && ShownAs(p.left, p.right.cols, l[k].0) == q
                        && !Shows(p.right, p.left.cols, q) ==>
              Get(Merge(p, l, r), q) == l[k].1
    ensures !Shows(p.right, p.left.cols, q) && !Shows(p.left, p.right.cols, q) ==> Get(Merge(p, l, r), q) == Null
  {
    var a, b := Renamed(PrefixOf(p.left), l, r), Renamed(PrefixOf(p.right), r, l);
    forall k | 0 <= k < |l|
      ensures a[k] == (ShownAs(p.left, p.right.cols, p.left.cols[k]), l[k].1)
    {
      ColumnsHas(r, p.right.cols);
      RenamedAs(p.left, l, r, p.right.cols, k);
    }
    forall k | 0 <= k < |r|
      ensures b[k] == (ShownAs(p.right, p.left.cols, p.right.cols[k]), r[k].1)
    {
      ColumnsHas(l, p.left.cols);
      RenamedAs(p.right, r, l, p.left.cols, k);
    }
    var row := PutAll([], a);
    hide Renamed, Has, Get, Under, ShownAs;
    forall k | 0 <= k < |r| && Last(p.right, p.left.cols, k) && ShownAs(p.right, p.left.cols, r[k].0) == q
      ensures Get(Merge(p, l, r), q) == r[k].1
    {
      LastWins(row, b, k);
    }
    if !Shows(p.right, p.left.cols, q) {
      NotPut(row, b, q);
      forall k | 0 <= k < |l| && Last(p.left, p.right.cols, k) && ShownAs(p.left, p.right.cols, l[k].0) == q
        ensures Get(Merge(p, l, r), q) == l[k].1
      {
        LastWins([], a, k);
      }
      if !Shows(p.left, p.right.cols, q) {
        NotPut([], a, q);
        NothingInEmpty(q);
      }
    }
  }

  lemma ColumnsHas(row: Row, cols: seq<string>)
    requires |row| == |cols| && forall k :: 0 <= k < |row| ==> row[k].0 == cols[k]
    ensures forall q :: Has(row, q) <==> q in cols
  {
    forall q
      ensures Has(row, q) <==> q in cols
    {
      if q in cols {
        var k :| 0 <= k < |cols| && cols[k] == q;
        assert row[k].0 == q;
      }
    }
  }

  /** What the row put out for a pair reads. */
  lemma PairReads(p: Plan, ls: seq<Row>, rs: seq<Row>, i: nat, j: nat, q: string)
    requires Tables(p, ls, rs) && i < |ls| && j < |rs|
    ensures var row := RenderOne(p, ls, rs, Pair(i, j));
            && (forall k :: 0 <= k < |p.right.cols| && Last(p.right, p.left.cols, k)
                            && ShownAs(p.right, p.left.cols, p.right.cols[k]) == q ==>
                  Get(row, q) == Get(rs[j], p.right.cols[k]))
            && (forall k :: 0 <= k < |p.left.cols| && Last(p.left, p.right.cols, k)
                            && ShownAs(p.left, p.right.cols, p.left.cols[k]) == q
                            && !Shows(p.right, p.left.cols, q) ==>
                  Get(row, q) == Get(ls[i], p.left.cols[k]))
            && (!Shows(p.right, p.left.cols, q) && !Shows(p.left, p.right.cols, q) ==> Get(row, q) == Null)
  {
    var l, r := Data(ls[i]), Data(rs[j]);
    MergeReads(p, l, r, q);
    ReadsAt(ls[i], p.left.cols);
    ReadsAt(rs[j], p.right.cols);
    hide Merge, Data, ShownAs, Last, Shows;
  }

  /** A left row without partners reads so too, with NULL in all columns of the right table. */
  lemma LeftOnlyReads(p: Plan, ls: seq<Row>, rs: seq<Row>, i: nat, q: string)
    requires Tables(p, ls, rs) && i < |ls|
    requires forall a, b :: 0 <= a < b < |p.right.cols| ==> p.right.cols[a] != p.right.cols[b]
    ensures var row := RenderOne(p, ls, rs, LeftOnly(i));
            && (Shows(p.right, p.left.cols, q) ==> Get(row, q) == Null)
            && (forall k :: 0 <= k < |p.left.cols| && Last(p.left, p.right.cols, k)
                            && ShownAs(p.left, p.right.cols, p.left.cols[k]) == q
                            && !Shows(p.right, p.left.cols, q) ==>
                  Get(row, q) == Get(ls[i], p.left.cols[k]))
  {
    var l, r := Data(ls[i]), NullRow(p.right.cols);
    NullRowAt(p.right.cols);
    MergeReads(p, l, r, q);
    ReadsAt(ls[i], p.left.cols);
    if Shows(p.right, p.left.cols, q) {
      var k := LastNamed(p.right, p.left.cols, q);
    }
    hide Merge, Data, ShownAs, Last, Shows;
  }

  lemma LastNamed(s: Side, others: seq<string>, q: string) returns (k: nat)
    requires Shows(s, others, q)
    ensures k < |s.cols| && ShownAs(s, others, s.cols[k]) == q && Last(s, others, k)
  {
    k :| 0 <= k < |s.cols| && ShownAs(s, others, s.cols[k]) == q;
    for m := k + 1 to |s.cols|
      invariant k < m && ShownAs(s, others, s.cols[k]) == q
      invariant forall n :: k < n < m ==> ShownAs(s, others, s.cols[n]) != q
    {
      if ShownAs(s, others, s.cols[m]) == q {
        k := m;
      }
    }
  }

  /** A right row without partners shows its own columns alone, under their own names. */
  lemma RightOnlyReads(p: Plan, ls: seq<Row>, rs: seq<Row>, j: nat, q: string)
    requires Tables(p, ls, rs) && j < |rs|
    ensures var row := RenderOne(p, ls, rs, RightOnly(j));
            (Has(row, q) <==> q in p.right.cols) && (q in p.right.cols ==> Get(row, q) == Get(rs[j], q))
  {
    var r := Data(rs[j]);
    var b := Renamed(PrefixOf(p.right), r, []);
    assert b == r;
    assert Renamed(PrefixOf(p.left), [], r) == [];
    PutAllGet([], r, q);
    NothingInEmpty(q);
    ColumnsHas(r, p.right.cols);
    if q in p.right.cols {
      ReadsBare(rs[j], p.right.cols, q);
    }
    hide Has, Get, Data;
  }

  lemma ReadsAt(row: Row, cols: seq<string>)
    requires Conforms(row, cols)
    ensures |Data(row)| == |cols|
    ensures forall k :: 0 <= k < |cols| ==> Data(row)[k] == (cols[k], Get(row, cols[k]))
  {
    forall k | 0 <= k < |cols|
      ensures Data(row)[k] == (cols[k], Get(row, cols[k]))
    {
      GetAt(Data(row), k);
      ReadsBare(row, cols, cols[k]);
    }
  }
}
