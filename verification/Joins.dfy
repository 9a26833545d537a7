/** The nested-loop and hash join operators, each proved to output the rendered join of its own
    match relation, and exactly when the two outputs coincide. */
module Joins {
  import opened Wrappers
  import opened Values
  import opened JoinSpec

  datatype ColRef = ColRef(table: Option<string>, name: string)

  /** No ON, an equality of two column references, or any other expression over the row. */
  datatype OnCond = NoCond | Equality(left: ColRef, right: ColRef) | Other(test: Row -> bool)

  datatype Side = Side(name: string, alias: Option<string>, cols: seq<string>)

  datatype Plan = Plan(joinType: JoinType, on: OnCond, left: Side, right: Side, joinKeys: seq<string>)

  const ROWID := "_rowid"

  function PrefixOf(s: Side): string {
    if s.alias.Some? && s.alias.value != "" then s.alias.value else s.name
  }

  function Qualified(prefix: string, k: string): string {
    prefix + "_" + k
  }

  /** The row without its row id. */
  function Data(row: Row): Row {
    if row == [] then []
    else (if row[0].0 == ROWID then [] else [row[0]]) + Data(row[1..])
  }

  // ----- combined rows -----

  function Renamed(prefix: string, cols: Row, other: Row): (r: Row)
    ensures |r| == |cols|
  {
    seq(|cols|, i requires 0 <= i < |cols| =>
      (if Has(other, cols[i].0) then Qualified(prefix, cols[i].0) else cols[i].0, cols[i].1))
  }

  function Merge(p: Plan, l: Row, r: Row): Row {
    PutAll(PutAll([], Renamed(PrefixOf(p.left), l, r)), Renamed(PrefixOf(p.right), r, l))
  }

  function NullRow(cols: seq<string>): Row {
    if cols == [] then [] else Put(NullRow(cols[..|cols| - 1]), cols[|cols| - 1], Null)
  }

  /** A missing left row contributes no columns, a missing right row contributes NULLs. */
  function RenderOne(p: Plan, ls: seq<Row>, rs: seq<Row>, e: Event): Row {
    match e
    case Pair(i, j) => if i < |ls| && j < |rs| then Merge(p, Data(ls[i]), Data(rs[j])) else []
    case LeftOnly(i) => if i < |ls| then Merge(p, Data(ls[i]), NullRow(p.right.cols)) else []
    case RightOnly(j) => if j < |rs| then Merge(p, [], Data(rs[j])) else []
  }

  function Render(p: Plan, ls: seq<Row>, rs: seq<Row>, es: seq<Event>): (rows: seq<Row>)
    ensures |rows| == |es|
    ensures forall k :: 0 <= k < |es| ==> rows[k] == RenderOne(p, ls, rs, es[k])
  {
    seq(|es|, k requires 0 <= k < |es| => RenderOne(p, ls, rs, es[k]))
  }

  lemma RenderSnoc(p: Plan, ls: seq<Row>, rs: seq<Row>, a: seq<Event>, b: seq<Event>, e: Event)
    ensures Render(p, ls, rs, a + (b + [e])) == Render(p, ls, rs, a + b) + [RenderOne(p, ls, rs, e)]
  {
    hide RenderOne;
    assert a + (b + [e]) == (a + b) + [e];
  }

  // ----- the ON condition of the nested loop -----

  function Prefixed(prefix: string, row: Row): (r: Row)
    ensures |r| == |row|
    ensures forall i :: 0 <= i < |row| ==> r[i] == (Qualified(prefix, row[i].0), row[i].1)
  {
    seq(|row|, i requires 0 <= i < |row| => (Qualified(prefix, row[i].0), row[i].1))
  }

  /** Right names, then left names over them, then both sides under their prefixes. */
  function RawCombined(p: Plan, l: Row, r: Row): Row {
    PutAll(PutAll(PutAll(PutAll([], r), l), Prefixed(PrefixOf(p.left), l)), Prefixed(PrefixOf(p.right), r))
  }

  function EvalRef(c: ColRef, row: Row): Cell {
    if c.table.Some? && c.table.value != "" && Has(row, Qualified(c.table.value, c.name))
    then Get(row, Qualified(c.table.value, c.name))
    else Get(row, c.name)
  }

  /** SQL equality: NULL equals nothing. */
  predicate CompareEq(a: Cell, b: Cell) {
    a.Val? && b.Val? && a == b
  }

  predicate IsNatural(p: Plan) {
    p.on.Equality? && p.on.left.name == p.on.right.name
  }

  predicate NaturalKeysMatch(p: Plan, l: Row, r: Row) {
    forall k :: k in p.joinKeys ==> CompareEq(Get(l, k), Get(r, k))
  }

  predicate LoopMatch(p: Plan, l: Row, r: Row) {
    if IsNatural(p) then NaturalKeysMatch(p, l, r)
    else
      match p.on
      case NoCond => true
      case Equality(a, b) =>
        var raw := RawCombined(p, Data(l), Data(r));
        CompareEq(EvalRef(a, raw), EvalRef(b, raw))
      case Other(test) => test(RawCombined(p, Data(l), Data(r)))
  }

  function LoopRelation(p: Plan, ls: seq<Row>, rs: seq<Row>): Match {
    (i: nat, j: nat) => i < |ls| && j < |rs| && LoopMatch(p, ls[i], rs[j])
  }

  method NestedLoopJoin(p: Plan, ls: seq<Row>, rs: seq<Row>) returns (out: seq<Row>)
    ensures out == Render(p, ls, rs, Join(LoopRelation(p, ls, rs), p.joinType, |ls|, |rs|))
  {
    ghost var m := LoopRelation(p, ls, rs);
    ghost var t := p.joinType;
    hide Merge, RenderOne, LoopMatch, Render, Pairs, LoopRelation, Matched;
    out := [];
    var matchedRight := {};
    var i := 0;
    EmptyOutput(p, ls, rs);
    NoneMatched(m);
    while i < |ls|
      invariant 0 <= i <= |ls|
      invariant out == Render(p, ls, rs, LeftPart(m, t, i, |rs|))
      invariant forall j: nat :: j in matchedRight <==> j < |rs| && Matched(m, i, j)
    {
      ghost var before := LeftPart(m, t, i, |rs|);
      var matched;
      out, matched, matchedRight := ScanRight(p, ls, rs, i, out, before, matchedRight);
      if !matched && KeepsLeft(p.joinType) {
        RenderSnoc(p, ls, rs, before, [], LeftOnly(i));
        NoPairs(i);
        assert before + [] == before && [] + [LeftOnly(i)] == [LeftOnly(i)];
        out := out + [RenderOne(p, ls, rs, LeftOnly(i))];
      }
      MatchedNext(m, i);
      i := i + 1;
    }
    out := AppendUnmatched(p, ls, rs, m, matchedRight, out, LeftPart(m, t, |ls|, |rs|));
  }

  lemma NoneMatched(m: Match)
    ensures forall j: nat :: !Matched(m, 0, j)
  {
  }

  /** The inner loop: one left row against every right row. */
  method ScanRight(p: Plan, ls: seq<Row>, rs: seq<Row>, i: nat, out: seq<Row>, ghost before: seq<Event>,
                   matchedRight: set<nat>) returns (out': seq<Row>, matched: bool, matchedRight': set<nat>)
    requires i < |ls| && out == Render(p, ls, rs, before)
    ensures var js := Partners(LoopRelation(p, ls, rs), i, |rs|);
            && out' == Render(p, ls, rs, before + Pairs(i, js)) && (matched <==> js != [])
            && forall b: nat :: b in matchedRight' <==>
                 b in matchedRight || (b < |rs| && LoopRelation(p, ls, rs)(i, b))
  {
    ghost var m := LoopRelation(p, ls, rs);
    hide Merge, RenderOne, LoopMatch, Render, Pairs;
    out', matched, matchedRight' := out, false, matchedRight;
    var j := 0;
    NoPairs(i);
    assert before + [] == before;
    while j < |rs|
      invariant 0 <= j <= |rs|
      invariant out' == Render(p, ls, rs, before + Pairs(i, Partners(m, i, j)))
      invariant matched <==> Partners(m, i, j) != []
      invariant forall b: nat :: b in matchedRight' <==> b in matchedRight || (b < j && m(i, b))
    {
      if LoopMatch(p, ls[i], rs[j]) {
        PairsSnoc(i, Partners(m, i, j), j);
        RenderSnoc(p, ls, rs, before, Pairs(i, Partners(m, i, j)), Pair(i, j));
        out' := out' + [RenderOne(p, ls, rs, Pair(i, j))];
        matched := true;
        matchedRight' := matchedRight' + {j};
      }
      j := j + 1;
    }
  }

  lemma EmptyOutput(p: Plan, ls: seq<Row>, rs: seq<Row>)
    ensures Render(p, ls, rs, []) == []
  {
  }

  lemma NoPairs(i: nat)
    ensures Pairs(i, []) == []
  {
  }

  lemma PairsSnoc(i: nat, js: seq<nat>, j: nat)
    ensures Pairs(i, js + [j]) == Pairs(i, js) + [Pair(i, j)]
  {
  }

  lemma MatchedNext(m: Match, i: nat)
    ensures forall j: nat :: Matched(m, i + 1, j) <==> Matched(m, i, j) || m(i, j)
  {
    forall j: nat | m(i, j)
      ensures Matched(m, i + 1, j)
    {
      assert 0 <= i < i + 1 && m(i, j);
    }
  }

  /** The last loop of every join operator: unmatched right rows for RIGHT and FULL. */
  method AppendUnmatched(p: Plan, ls: seq<Row>, rs: seq<Row>, ghost m: Match, matchedRight: set<nat>,
                         out: seq<Row>, ghost before: seq<Event>) returns (out': seq<Row>)
    requires MatchedSet(m, |ls|, |rs|, matchedRight)
    requires out == Render(p, ls, rs, before)
    ensures out' == Render(p, ls, rs, before + (if KeepsRight(p.joinType) then RightPart(m, |ls|, |rs|) else []))
  {
    hide RenderOne, Render;
    out' := out;
    assert before + [] == before;
    if KeepsRight(p.joinType) {
      var j := 0;
      while j < |rs|
        invariant 0 <= j <= |rs|
        invariant out' == Render(p, ls, rs, before + RightPart(m, |ls|, j))
      {
        if j !in matchedRight {
          RenderSnoc(p, ls, rs, before, RightPart(m, |ls|, j), RightOnly(j));
          out' := out' + [RenderOne(p, ls, rs, RightOnly(j))];
        }
        j := j + 1;
      }
    }
  }

  // ----- hash join -----

  type HashKey = seq<Cell>

  function LeftKey(p: Plan, row: Row): (key: HashKey)
    ensures |key| == |p.joinKeys|
  {
    seq(|p.joinKeys|, i requires 0 <= i < |p.joinKeys| => Get(row, p.joinKeys[i]))
  }

  /** The right key column: the right operand of an equality ON, else the first join key. */
  function RightKeyColumn(p: Plan): Option<string> {
    if p.on.Equality? then Some(p.on.right.name)
    else if p.joinKeys != [] then Some(p.joinKeys[0]) else None
  }

  function RightKey(p: Plan, row: Row): HashKey {
    var c := RightKeyColumn(p);
    if c.Some? && c.value != "" then [Get(row, c.value)] else []
  }

  function HashRelation(p: Plan, ls: seq<Row>, rs: seq<Row>): Match {
    (i: nat, j: nat) => i < |ls| && j < |rs| && LeftKey(p, ls[i]) == RightKey(p, rs[j])
  }

  function Bucket(p: Plan, rs: seq<Row>, key: HashKey, n: nat): seq<(nat, Row)>
    requires n <= |rs|
  {
    if n == 0 then []
    else Bucket(p, rs, key, n - 1) + (if RightKey(p, rs[n - 1]) == key then [(n - 1, rs[n - 1])] else [])
  }

  method BuildTable(p: Plan, rs: seq<Row>) returns (table: map<HashKey, seq<(nat, Row)>>)
    ensures forall key :: key in table <==> Bucket(p, rs, key, |rs|) != []
    ensures forall key :: key in table ==> table[key] == Bucket(p, rs, key, |rs|)
  {
    hide RightKey;
    table := map[];
    var i := 0;
    while i < |rs|
      invariant 0 <= i <= |rs|
      invariant forall key :: key in table <==> Bucket(p, rs, key, i) != []
      invariant forall key :: key in table ==> table[key] == Bucket(p, rs, key, i)
    {
      var key := RightKey(p, rs[i]);
      if key !in table {
        table := table[key := []];
      }
      table := table[key := table[key] + [(i, rs[i])]];
      i := i + 1;
    }
  }

  lemma {:induction false} BucketPartners(p: Plan, ls: seq<Row>, rs: seq<Row>, i: nat, n: nat)
    requires i < |ls| && n <= |rs|
    ensures var b, js := Bucket(p, rs, LeftKey(p, ls[i]), n), Partners(HashRelation(p, ls, rs), i, n);
            |b| == |js| && forall k :: 0 <= k < |b| ==> b[k].0 == js[k] < n && b[k].1 == rs[js[k]]
  {
    if n > 0 {
      BucketPartners(p, ls, rs, i, n - 1);
    }
  }

  /** The right rows with a partner among the first n left rows. */
  ghost predicate MatchedSet(m: Match, n: nat, nr: nat, matched: set<nat>) {
    forall j: nat :: j in matched <==> j < nr && Matched(m, n, j)
  }

  lemma MatchedSetNext(m: Match, i: nat, nr: nat, matched: set<nat>, matched': set<nat>)
    requires MatchedSet(m, i, nr, matched)
    requires forall b :: b in matched' <==> b in matched || b in Partners(m, i, nr)
    ensures MatchedSet(m, i + 1, nr, matched')
  {
    PartnersExact(m, i, nr);
    MatchedNext(m, i);
    hide Partners, Matched;
  }

  method HashJoin(p: Plan, ls: seq<Row>, rs: seq<Row>) returns (out: seq<Row>)
    ensures out == Render(p, ls, rs, Join(HashRelation(p, ls, rs), p.joinType, |ls|, |rs|))
  {
    ghost var m := HashRelation(p, ls, rs);
    ghost var t := p.joinType;
    var table := BuildTable(p, rs);
    out := [];
    EmptyOutput(p, ls, rs);
    var matchedRight: set<nat> := {};
    var i := 0;
    NoneMatched(m);
    assert MatchedSet(m, 0, |rs|, {});
    hide Merge, RenderOne, Render, Pairs, HashRelation, LeftKey, RightKey, Bucket, Partners, LeftRow, MatchedSet;
    while i < |ls|
      invariant 0 <= i <= |ls|
      invariant out == Render(p, ls, rs, LeftPart(m, t, i, |rs|))
      invariant MatchedSet(m, i, |rs|, matchedRight)
    {
      ghost var matched := matchedRight;
      out, matchedRight := HashLeftRow(p, ls, rs, i, table, out, LeftPart(m, t, i, |rs|), matchedRight);
      MatchedSetNext(m, i, |rs|, matched, matchedRight);
      i := i + 1;
    }
    out := AppendUnmatched(p, ls, rs, m, matchedRight, out, LeftPart(m, t, |ls|, |rs|));
  }

  /** One left row: its bucket, or the row alone. */
  method HashLeftRow(p: Plan, ls: seq<Row>, rs: seq<Row>, i: nat, table: map<HashKey, seq<(nat, Row)>>,
                     out: seq<Row>, ghost before: seq<Event>, matchedRight: set<nat>)
    returns (out': seq<Row>, matchedRight': set<nat>)
    requires i < |ls| && out == Render(p, ls, rs, before)
    requires forall key :: key in table <==> Bucket(p, rs, key, |rs|) != []
    requires forall key :: key in table ==> table[key] == Bucket(p, rs, key, |rs|)
    ensures var m := HashRelation(p, ls, rs);
            && out' == Render(p, ls, rs, before + LeftRow(m, p.joinType, i, |rs|))
            && forall b :: b in matchedRight' <==> b in matchedRight || b in Partners(m, i, |rs|)
  {
    hide RenderOne, Render, Pairs, HashRelation, LeftKey, Bucket, Partners;
    var key := LeftKey(p, ls[i]);
    ghost var js := Partners(HashRelation(p, ls, rs), i, |rs|);
    BucketPartners(p, ls, rs, i, |rs|);
    if key in table {
      out', matchedRight' := Probe(p, ls, rs, i, table[key], js, out, before, matchedRight);
    } else {
      NoPairs(i);
      out' := KeepAlone(p, ls, rs, i, out, before);
      matchedRight' := matchedRight;
    }
  }

  /** A left row without partners: kept alone by an outer join on the left, dropped by others. */
  method KeepAlone(p: Plan, ls: seq<Row>, rs: seq<Row>, i: nat, out: seq<Row>, ghost before: seq<Event>)
    returns (out': seq<Row>)
    requires i < |ls| && out == Render(p, ls, rs, before)
    ensures out' == Render(p, ls, rs, before + if KeepsLeft(p.joinType) then [LeftOnly(i)] else [])
  {
    hide Render, RenderOne;
    out' := out;
    assert before + [] == before && [] + [LeftOnly(i)] == [LeftOnly(i)];
    if KeepsLeft(p.joinType) {
      out' := out + [RenderOne(p, ls, rs, LeftOnly(i))];
      RenderSnoc(p, ls, rs, before, [], LeftOnly(i));
    }
  }

  /** One left row against its bucket. */
  method Probe(p: Plan, ls: seq<Row>, rs: seq<Row>, i: nat, bucket: seq<(nat, Row)>, ghost js: seq<nat>,
               out: seq<Row>, ghost before: seq<Event>, matchedRight: set<nat>)
    returns (out': seq<Row>, matchedRight': set<nat>)
    requires i < |ls| && |bucket| == |js| && out == Render(p, ls, rs, before)
    requires forall k :: 0 <= k < |bucket| ==> bucket[k].0 == js[k] < |rs| && bucket[k].1 == rs[js[k]]
    ensures out' == Render(p, ls, rs, before + Pairs(i, js))
    ensures forall b :: b in matchedRight' <==> b in matchedRight || b in js
  {
    out', matchedRight' := out, matchedRight;
    NoPairs(i);
    assert before + [] == before;
    var k := 0;
    while k < |bucket|
      invariant 0 <= k <= |bucket|
      invariant out' == Render(p, ls, rs, before + Pairs(i, js[..k]))
      invariant forall b :: b in matchedRight' <==> b in matchedRight || b in js[..k]
    {
      hide Merge, Render, Pairs, PutAll, Data;
      var (j, row) := bucket[k];
      matchedRight' := matchedRight' + {j};
      out' := out' + [Merge(p, Data(ls[i]), Data(row))];
      PairsSnoc(i, js[..k], j);
      assert js[..k + 1] == js[..k] + [j];
      RenderSnoc(p, ls, rs, before, Pairs(i, js[..k]), Pair(i, j));
      k := k + 1;
    }
    assert js[..k] == js;
  }
}
