/** The planner's choice between nested-loop and hash join for two tables, and exactly when the
    choice cannot be seen in the result. */
module JoinPlanner {
  import opened Wrappers
  import opened Values
  import opened JoinSpec
  import opened Joins

  datatype Algorithm = NestedLoop | Hash

  /** USING columns, else the column of the left operand of an equality of two columns. */
  function ExtractJoinKeys(using_: seq<string>, on: OnCond): seq<string> {
    if using_ != [] then using_
    else if on.Equality? then [on.left.name] else []
  }

  function ChooseAlgorithm(t: JoinType, joinKeys: seq<string>, leftRows: nat, rightRows: nat): Algorithm {
    if t == CROSS || joinKeys == [] then NestedLoop
    else if leftRows < 50 && rightRows < 50 then NestedLoop
    else Hash
  }

  method RunJoin(p: Plan, ls: seq<Row>, rs: seq<Row>, leftRows: nat, rightRows: nat) returns (out: seq<Row>)
    ensures var m := if ChooseAlgorithm(p.joinType, p.joinKeys, leftRows, rightRows) == NestedLoop
                     then LoopRelation(p, ls, rs) else HashRelation(p, ls, rs);
            out == Render(p, ls, rs, Join(m, p.joinType, |ls|, |rs|))
    ensures out == Render(p, ls, rs, Join(
                     if p.joinType != CROSS && p.joinKeys != [] && (leftRows >= 50 || rightRows >= 50)
                     then HashRelation(p, ls, rs) else LoopRelation(p, ls, rs), p.joinType, |ls|, |rs|))
  {
    if ChooseAlgorithm(p.joinType, p.joinKeys, leftRows, rightRows) == NestedLoop {
      out := NestedLoopJoin(p, ls, rs);
    } else {
      out := HashJoin(p, ls, rs);
    }
  }

  // ----- which column a reference in ON denotes: decided by the two schemas alone -----

  /** The row has exactly these columns besides the row id. */
  ghost predicate Conforms(row: Row, cols: seq<string>) {
    && Distinct(Data(row)) && |Data(row)| == |cols|
    && forall i :: 0 <= i < |cols| ==> Data(row)[i].0 == cols[i] && cols[i] != ROWID
  }

  ghost predicate IsQualified(prefix: string, cols: seq<string>, q: string) {
    exists i :: 0 <= i < |cols| && Qualified(prefix, cols[i]) == q
  }

  ghost predicate InRaw(p: Plan, q: string) {
    || IsQualified(PrefixOf(p.right), p.right.cols, q) || IsQualified(PrefixOf(p.left), p.left.cols, q)
    || q in p.left.cols || q in p.right.cols
  }

  /** The name under which a reference is looked up in the combined row. */
  ghost function LookupName(p: Plan, c: ColRef): string {
    if c.table.Some? && c.table.value != "" && InRaw(p, Qualified(c.table.value, c.name))
    then Qualified(c.table.value, c.name) else c.name
  }

  /** Looked up as q, the combined row shows column c of the left table. */
  ghost predicate ShowsLeft(p: Plan, q: string, c: string) {
    && c in p.left.cols && !IsQualified(PrefixOf(p.right), p.right.cols, q)
    && (q == Qualified(PrefixOf(p.left), c) || (!IsQualified(PrefixOf(p.left), p.left.cols, q) && q == c))
  }

  /** Looked up as q, the combined row shows column c of the right table. */
  ghost predicate ShowsRight(p: Plan, q: string, c: string) {
    && c in p.right.cols
    && (q == Qualified(PrefixOf(p.right), c)
        || (!IsQualified(PrefixOf(p.right), p.right.cols, q) && !IsQualified(PrefixOf(p.left), p.left.cols, q)
            && q !in p.left.cols && q == c))
  }

  /** ON equates a column of the left table, written first, with one of the right table, and
      neither reference is captured by another name; or both operands have the same name. */
  ghost predicate Oriented(p: Plan) {
    && p.on.Equality? && p.joinKeys == [p.on.left.name]
    && p.on.left.name in p.left.cols && p.on.right.name in p.right.cols && p.on.right.name != ""
    && (IsNatural(p)
        || (ShowsLeft(p, LookupName(p, p.on.left), p.on.left.name)
            && ShowsRight(p, LookupName(p, p.on.right), p.on.right.name)))
  }

  // ----- looking up the combined row -----

  lemma QualifiedInjective(prefix: string, a: string, b: string)
    requires Qualified(prefix, a) == Qualified(prefix, b)
    ensures a == b
  {
    assert a == Qualified(prefix, a)[|prefix| + 1..];
    assert b == Qualified(prefix, b)[|prefix| + 1..];
  }

  lemma PrefixedDistinct(prefix: string, row: Row)
    requires Distinct(row)
    ensures Distinct(Prefixed(prefix, row))
  {
    forall i, j | 0 <= i < j < |row|
      ensures Prefixed(prefix, row)[i].0 != Prefixed(prefix, row)[j].0
    {
      if Qualified(prefix, row[i].0) == Qualified(prefix, row[j].0) {
        QualifiedInjective(prefix, row[i].0, row[j].0);
      }
    }
  }

  lemma {:induction false} GetAt(row: Row, i: nat)
    requires Distinct(row) && i < |row|
    ensures Get(row, row[i].0) == row[i].1 && Has(row, row[i].0)
  {
    if i > 0 {
      assert row[0].0 != row[i].0;
      assert row[1..][i - 1] == row[i];
      GetAt(row[1..], i - 1);
    }
  }

  lemma {:induction false} GetAbsent(row: Row, q: string)
    ensures !Has(row, q) ==> Get(row, q) == Null
    ensures Has(row, q) ==> exists i :: 0 <= i < |row| && row[i] == (q, Get(row, q))
  {
    if row != [] {
      GetAbsent(row[1..], q);
      HasTail(row, q);
      if Has(row, q) {
        if row[0].0 == q {
          assert row[0] == (q, Get(row, q));
        } else {
          var i :| 0 <= i < |row[1..]| && row[1..][i] == (q, Get(row[1..], q));
          assert row[i + 1] == (q, Get(row, q));
        }
      }
    }
  }

  /** Dropping the row id hides no other column. */
  lemma {:induction false} GetData(row: Row, q: string)
    requires q != ROWID
    ensures Get(Data(row), q) == Get(row, q)
  {
    if row != [] {
      GetData(row[1..], q);
      assert Data(row) == if row[0].0 == ROWID then Data(row[1..]) else [row[0]] + Data(row[1..]);
    }
  }

  lemma ConformsHas(row: Row, cols: seq<string>, q: string)
    requires Conforms(row, cols)
    ensures Has(Data(row), q) <==> q in cols
  {
  }

  lemma PrefixedHas(row: Row, cols: seq<string>, prefix: string, q: string)
    requires Conforms(row, cols)
    ensures Has(Prefixed(prefix, Data(row)), q) <==> IsQualified(prefix, cols, q)
  {
    var pr := Prefixed(prefix, Data(row));
    if Has(pr, q) {
      var i :| 0 <= i < |pr| && pr[i].0 == q;
      assert Qualified(prefix, cols[i]) == q;
    }
    if i :| 0 <= i < |cols| && Qualified(prefix, cols[i]) == q {
      assert pr[i].0 == q;
    }
  }

  lemma PrefixedGet(row: Row, cols: seq<string>, prefix: string, c: string)
    requires Conforms(row, cols) && c in cols
    ensures Get(Prefixed(prefix, Data(row)), Qualified(prefix, c)) == Get(Data(row), c)
  {
    var d := Data(row);
    var i :| 0 <= i < |cols| && cols[i] == c;
    GetAt(d, i);
    PrefixedDistinct(prefix, d);
    GetAt(Prefixed(prefix, d), i);
  }

  lemma RawGet(p: Plan, l: Row, r: Row, q: string)
    requires Conforms(l, p.left.cols) && Conforms(r, p.right.cols)
    ensures var raw := RawCombined(p, Data(l), Data(r));
            && (Has(raw, q) <==> InRaw(p, q))
            && Get(raw, q) ==
               if IsQualified(PrefixOf(p.right), p.right.cols, q) then Get(Prefixed(PrefixOf(p.right), Data(r)), q)
               else if IsQualified(PrefixOf(p.left), p.left.cols, q) then Get(Prefixed(PrefixOf(p.left), Data(l)), q)
               else if q in p.left.cols then Get(Data(l), q) else if q in p.right.cols then Get(Data(r), q) else Null
  {
    var dl, dr := Data(l), Data(r);
    var pl, pr := Prefixed(PrefixOf(p.left), dl), Prefixed(PrefixOf(p.right), dr);
    PrefixedDistinct(PrefixOf(p.left), dl);
    PrefixedDistinct(PrefixOf(p.right), dr);
    ConformsHas(l, p.left.cols, q);
    ConformsHas(r, p.right.cols, q);
    PrefixedHas(l, p.left.cols, PrefixOf(p.left), q);
    PrefixedHas(r, p.right.cols, PrefixOf(p.right), q);
    hide Conforms, IsQualified, Data, Get, Has, Prefixed, Distinct;
    PutAllGet(PutAll(PutAll(PutAll([], dr), dl), pl), pr, q);
    PutAllGet(PutAll(PutAll([], dr), dl), pl, q);
    PutAllGet(PutAll([], dr), dl, q);
    PutAllGet([], dr, q);
    NothingInEmpty(q);
  }

  lemma NothingInEmpty(q: string)
    ensures !Has([], q) && Get([], q) == Null
  {
  }

  lemma EvalLeft(p: Plan, l: Row, r: Row, c: ColRef)
    requires Conforms(l, p.left.cols) && Conforms(r, p.right.cols)
    requires ShowsLeft(p, LookupName(p, c), c.name)
    ensures EvalRef(c, RawCombined(p, Data(l), Data(r))) == Get(l, c.name)
  {
    if c.table.Some? {
      RawGet(p, l, r, Qualified(c.table.value, c.name));
    }
    RawGet(p, l, r, LookupName(p, c));
    PrefixedGet(l, p.left.cols, PrefixOf(p.left), c.name);
    GetData(l, c.name);
  }

  lemma EvalRight(p: Plan, l: Row, r: Row, c: ColRef)
    requires Conforms(l, p.left.cols) && Conforms(r, p.right.cols)
    requires ShowsRight(p, LookupName(p, c), c.name)
    ensures EvalRef(c, RawCombined(p, Data(l), Data(r))) == Get(r, c.name)
  {
    if c.table.Some? {
      RawGet(p, l, r, Qualified(c.table.value, c.name));
    }
    RawGet(p, l, r, LookupName(p, c));
    PrefixedGet(r, p.right.cols, PrefixOf(p.right), c.name);
    GetData(r, c.name);
  }

  /** An oriented nested loop compares the two named columns as SQL does. */
  lemma LoopComparesColumns(p: Plan, l: Row, r: Row)
    requires Oriented(p) && Conforms(l, p.left.cols) && Conforms(r, p.right.cols)
    ensures LoopMatch(p, l, r) <==> CompareEq(Get(l, p.on.left.name), Get(r, p.on.right.name))
  {
    hide Conforms, ShowsLeft, ShowsRight, RawCombined, LookupName;
    if !IsNatural(p) {
      EvalLeft(p, l, r, p.on.left);
      EvalRight(p, l, r, p.on.right);
    }
  }

  /** The hash join compares them as Python does, where None equals None. */
  lemma HashComparesColumns(p: Plan, l: Row, r: Row)
    requires Oriented(p)
    ensures LeftKey(p, l) == RightKey(p, r) <==> Get(l, p.on.left.name) == Get(r, p.on.right.name)
  {
    assert LeftKey(p, l) == [Get(l, p.on.left.name)];
    assert RightKey(p, r) == [Get(r, p.on.right.name)];
  }

  // ----- the planner's choice -----

  ghost predicate Tables(p: Plan, ls: seq<Row>, rs: seq<Row>) {
    && (forall i :: 0 <= i < |ls| ==> Conforms(ls[i], p.left.cols))
    && (forall j :: 0 <= j < |rs| ==> Conforms(rs[j], p.right.cols))
  }

  ghost predicate NullKeyLeft(p: Plan, ls: seq<Row>)
    requires p.on.Equality?
  {
    exists i :: 0 <= i < |ls| && Get(ls[i], p.on.left.name) == Null
  }

  ghost predicate NullKeyRight(p: Plan, rs: seq<Row>)
    requires p.on.Equality?
  {
    exists j :: 0 <= j < |rs| && Get(rs[j], p.on.right.name) == Null
  }

  /** Both joins combine and pad the rows at the same positions, in the same order. */
  ghost predicate SameEvents(p: Plan, ls: seq<Row>, rs: seq<Row>) {
    Join(LoopRelation(p, ls, rs), p.joinType, |ls|, |rs|) == Join(HashRelation(p, ls, rs), p.joinType, |ls|, |rs|)
  }

  /** Both joins put out the same rows in the same order. */
  ghost predicate SameRows(p: Plan, ls: seq<Row>, rs: seq<Row>) {
    Render(p, ls, rs, Join(LoopRelation(p, ls, rs), p.joinType, |ls|, |rs|)) ==
    Render(p, ls, rs, Join(HashRelation(p, ls, rs), p.joinType, |ls|, |rs|))
  }

  /** For every pair of tables and every join type: nested-loop and hash join produce the same
      sequence of combined and padded row positions if and only if NULL join keys occur on at
      most one side. */
  lemma HashAgreesIff(p: Plan, ls: seq<Row>, rs: seq<Row>)
    requires Oriented(p) && Tables(p, ls, rs)
    ensures SameEvents(p, ls, rs)
            <==> !(NullKeyLeft(p, ls) && NullKeyRight(p, rs))
  {
    var a, b := p.on.left.name, p.on.right.name;
    hide Conforms, Oriented, LoopMatch, LeftKey, RightKey;
    var m, m' := LoopRelation(p, ls, rs), HashRelation(p, ls, rs);
    SameJoinIffAgree(m, m', p.joinType, |ls|, |rs|);
    forall i, j | 0 <= i < |ls| && 0 <= j < |rs|
      ensures m(i, j) == m'(i, j) <==> !(Get(ls[i], a) == Null && Get(rs[j], b) == Null)
    {
      LoopComparesColumns(p, ls[i], rs[j]);
      HashComparesColumns(p, ls[i], rs[j]);
    }
    if NullKeyLeft(p, ls) && NullKeyRight(p, rs) {
      var i :| 0 <= i < |ls| && Get(ls[i], a) == Null;
      var j :| 0 <= j < |rs| && Get(rs[j], b) == Null;
      assert m(i, j) != m'(i, j);
    }
  }

  /** So the estimated table sizes never change a two-table result, rows and order included. */
  lemma ChoiceInvisible(p: Plan, ls: seq<Row>, rs: seq<Row>)
    requires Oriented(p) && Tables(p, ls, rs) && !(NullKeyLeft(p, ls) && NullKeyRight(p, rs))
    ensures SameRows(p, ls, rs)
  {
    HashAgreesIff(p, ls, rs);
  }

  // ----- written the other way round, the choice is visible -----

  /** ON names a column of the right table first, one of the left table second, and neither occurs in the other. */
  ghost predicate Swapped(p: Plan) {
    && p.on.Equality? && p.joinKeys == [p.on.left.name] && p.on.right.name != ""
    && p.on.left.name in p.right.cols && p.on.left.name !in p.left.cols
    && p.on.right.name in p.left.cols && p.on.right.name !in p.right.cols
  }

  /** Neither reference is captured by another name. */
  ghost predicate SwappedShown(p: Plan) {
    && Swapped(p)
    && ShowsRight(p, LookupName(p, p.on.left), p.on.left.name)
    && ShowsLeft(p, LookupName(p, p.on.right), p.on.right.name)
  }

  lemma AbsentReadsNull(row: Row, cols: seq<string>, q: string)
    requires Conforms(row, cols) && q !in cols && q != ROWID
    ensures Get(row, q) == Null
  {
    GetData(row, q);
    ConformsHas(row, cols, q);
    GetAbsent(Data(row), q);
  }

  lemma ColumnNotRowId(row: Row, cols: seq<string>, q: string)
    requires Conforms(row, cols) && q in cols
    ensures q != ROWID
  {
  }

  /** Each column is looked up in the table that lacks it, so every key of the hash join reads as NULL. */
  lemma SwappedKeysEqual(p: Plan, l: Row, r: Row)
    requires Swapped(p) && Conforms(l, p.left.cols) && Conforms(r, p.right.cols)
    ensures LeftKey(p, l) == RightKey(p, r)
  {
    hide Conforms, Get;
    ColumnNotRowId(r, p.right.cols, p.on.left.name);
    ColumnNotRowId(l, p.left.cols, p.on.right.name);
    AbsentReadsNull(l, p.left.cols, p.on.left.name);
    AbsentReadsNull(r, p.right.cols, p.on.right.name);
    assert LeftKey(p, l) == [Null] == RightKey(p, r);
  }

  /** The nested loop still compares the two named columns. */
  lemma SwappedLoopComparesColumns(p: Plan, l: Row, r: Row)
    requires SwappedShown(p) && Conforms(l, p.left.cols) && Conforms(r, p.right.cols)
    ensures LoopMatch(p, l, r) <==> CompareEq(Get(r, p.on.left.name), Get(l, p.on.right.name))
  {
    hide Conforms, ShowsLeft, ShowsRight, RawCombined, LookupName;
    EvalRight(p, l, r, p.on.left);
    EvalLeft(p, l, r, p.on.right);
  }

  /** Every row of one table equals every row of the other in the columns that ON names. */
  ghost predicate AllPairsMatch(p: Plan, ls: seq<Row>, rs: seq<Row>)
    requires p.on.Equality?
  {
    forall i, j :: 0 <= i < |ls| && 0 <= j < |rs| ==>
      CompareEq(Get(rs[j], p.on.left.name), Get(ls[i], p.on.right.name))
  }

  /** With the operands of ON swapped the hash join pairs every row with every row, so for every join type it
      agrees with the nested loop exactly when that finds every pair to match, too. */
  lemma SwappedPairsAll(p: Plan, ls: seq<Row>, rs: seq<Row>)
    requires Swapped(p) && Tables(p, ls, rs)
    ensures forall i, j :: 0 <= i < |ls| && 0 <= j < |rs| ==> HashRelation(p, ls, rs)(i, j)
    ensures SameEvents(p, ls, rs)
            <==> forall i, j :: 0 <= i < |ls| && 0 <= j < |rs| ==> LoopMatch(p, ls[i], rs[j])
  {
    hide Conforms, Swapped, LoopMatch, LeftKey, RightKey;
    var m, m' := LoopRelation(p, ls, rs), HashRelation(p, ls, rs);
    SameJoinIffAgree(m, m', p.joinType, |ls|, |rs|);
    forall i, j | 0 <= i < |ls| && 0 <= j < |rs|
      ensures m'(i, j) && (m(i, j) <==> LoopMatch(p, ls[i], rs[j]))
    {
      SwappedKeysEqual(p, ls[i], rs[j]);
    }
  }

  /** In the columns named: exactly when all pairs of rows are equal there, so for one, when a table is empty. */
  lemma SwappedAgreesIff(p: Plan, ls: seq<Row>, rs: seq<Row>)
    requires SwappedShown(p) && Tables(p, ls, rs)
    ensures SameEvents(p, ls, rs)
            <==> AllPairsMatch(p, ls, rs)
  {
    hide Conforms, SwappedShown, LoopMatch, HashRelation;
    SwappedIsEquality(p);
    SwappedPairsAll(p, ls, rs);
    forall i, j | 0 <= i < |ls| && 0 <= j < |rs|
      ensures LoopMatch(p, ls[i], rs[j]) <==> CompareEq(Get(rs[j], p.on.left.name), Get(ls[i], p.on.right.name))
    {
      SwappedLoopComparesColumns(p, ls[i], rs[j]);
    }
  }

  lemma SwappedIsEquality(p: Plan)
    requires SwappedShown(p)
    ensures Swapped(p) && p.on.Equality?
  {
  }

  const Users := Side("u", None, ["id"])
  const Orders := Side("o", None, ["uid"])

  /** ON uid = id for u JOIN o. */
  const Reversed := Plan(INNER, Equality(ColRef(None, "uid"), ColRef(None, "id")), Users, Orders, ["uid"])

  /** For users 1 and 2 and an order of user 1, say, the choice of the algorithm shows. */
  lemma ReversedPairsEverything(ls: seq<Row>, rs: seq<Row>, i: nat, j: nat)
    requires Tables(Reversed, ls, rs) && i < |ls| && j < |rs|
    ensures ExtractJoinKeys([], Reversed.on) == Reversed.joinKeys && SwappedShown(Reversed)
    ensures HashRelation(Reversed, ls, rs)(i, j)
    ensures LoopRelation(Reversed, ls, rs)(i, j) <==> CompareEq(Get(rs[j], "uid"), Get(ls[i], "id"))
  {
    ReversedShown();
    SwappedKeysEqual(Reversed, ls[i], rs[j]);
    SwappedLoopComparesColumns(Reversed, ls[i], rs[j]);
  }

  lemma ReversedShown()
    ensures SwappedShown(Reversed)
  {
    NotQualified("u", "id", "uid");
    NotQualified("u", "id", "id");
    NotQualified("o", "uid", "uid");
    NotQualified("o", "uid", "id");
  }

  lemma NotQualified(prefix: string, c: string, q: string)
    requires '_' !in q
    ensures !IsQualified(prefix, [c], q)
  {
    assert Qualified(prefix, c)[|prefix|] == '_';
  }
}
