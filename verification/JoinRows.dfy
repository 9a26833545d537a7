/** When two joins of the same tables put out the same rows: a padded row may look like a combined one. */
module JoinRows {
  import opened Values
  import opened JoinSpec
  import opened Joins
  import opened JoinPlanner

  // ----- the columns a row shows -----

  lemma {:induction false} PutAllHas(row: Row, items: Row, q: string)
    ensures Has(PutAll(row, items), q) <==> Has(items, q) || Has(row, q)
    decreases |items|
  {
    if items != [] {
      PutAllHas(Put(row, items[0].0, items[0].1), items[1..], q);
      PutGet(row, items[0].0, items[0].1, q);
      HasTail(items, q);
    }
  }

  lemma {:induction false} NullRowHas(cols: seq<string>, q: string)
    ensures Has(NullRow(cols), q) <==> q in cols
  {
    if cols != [] {
      NullRowHas(cols[..|cols| - 1], q);
      PutGet(NullRow(cols[..|cols| - 1]), cols[|cols| - 1], Null, q);
      assert cols == cols[..|cols| - 1] + [cols[|cols| - 1]];
    }
  }

  /** A column that both sides have shows under its prefixed names only. */
  lemma MergeHas(p: Plan, l: Row, r: Row, q: string)
    ensures Has(Merge(p, l, r), q) <==>
            Has(Renamed(PrefixOf(p.left), l, r), q) || Has(Renamed(PrefixOf(p.right), r, l), q)
  {
    var a, b := Renamed(PrefixOf(p.left), l, r), Renamed(PrefixOf(p.right), r, l);
    hide Has, PutAll, Renamed;
    PutAllHas(PutAll([], a), b, q);
    PutAllHas([], a, q);
    NothingInEmpty(q);
  }

  /** Both rows have column c, and no shorter one. */
  ghost predicate ShortestShared(l: Row, r: Row, c: string) {
    Has(l, c) && Has(r, c) && forall q :: Has(l, q) && Has(r, q) ==> |c| <= |q|
  }

  lemma {:induction false} FindShortest(l: Row, r: Row, c: string, bound: nat) returns (d: string)
    requires Has(l, c) && Has(r, c) && |c| <= bound
    ensures ShortestShared(l, r, d)
    decreases bound
  {
    if q :| Has(l, q) && Has(r, q) && |q| < |c| {
      d := FindShortest(l, r, q, bound - 1);
    } else {
      d := c;
    }
  }

  lemma SharedHidden(prefix: string, l: Row, r: Row, c: string)
    requires ShortestShared(l, r, c)
    ensures !Has(Renamed(prefix, l, r), c)
  {
    forall i | 0 <= i < |l|
      ensures Renamed(prefix, l, r)[i].0 != c
    {
      assert Has(l, l[i].0);
    }
  }

  lemma NothingShared(row: Row, prefix: string, q: string)
    ensures Has(Renamed(prefix, row, []), q) <==> Has(row, q)
    ensures !Has(Renamed(prefix, [], row), q)
  {
    var n := Renamed(prefix, row, []);
    assert forall i :: 0 <= i < |row| ==> !Has([], row[i].0) && n[i].0 == row[i].0;
  }

  lemma FirstShown(prefix: string, l: Row, r: Row)
    requires l != [] && !Has(r, l[0].0)
    ensures Has(Renamed(prefix, l, r), l[0].0)
  {
    assert Renamed(prefix, l, r)[0].0 == l[0].0;
  }

  /** With a left row the result never has the columns of the right side alone. */
  lemma LeftRowShows(p: Plan, l: Row, r: Row, alone: Row)
    requires l != [] && forall q :: Has(r, q) <==> Has(alone, q)
    ensures Merge(p, l, r) != Merge(p, [], alone)
  {
    hide Merge, Renamed;
    if c :| Has(l, c) && Has(r, c) {
      var d := FindShortest(l, r, c, |c|);
      MergeHas(p, l, r, d);
      SharedHidden(PrefixOf(p.left), l, r, d);
      SharedHidden(PrefixOf(p.right), r, l, d);
      MergeHas(p, [], alone, d);
      NothingShared(alone, PrefixOf(p.right), d);
    } else {
      var q := l[0].0;
      assert Has(l, q);
      FirstShown(PrefixOf(p.left), l, r);
      MergeHas(p, l, r, q);
      MergeHas(p, [], alone, q);
      NothingShared(alone, PrefixOf(p.right), q);
      NothingShared(alone, PrefixOf(p.left), q);
    }
  }

  lemma RightAloneDiffers(p: Plan, ls: seq<Row>, rs: seq<Row>, e: Event, j: nat)
    requires Tables(p, ls, rs) && p.left.cols != [] && j < |rs|
    requires !e.RightOnly? && e.i < |ls| && (e.Pair? ==> e.j < |rs|)
    ensures RenderOne(p, ls, rs, e) != RenderOne(p, ls, rs, RightOnly(j))
  {
    hide Merge;
    var l, alone := Data(ls[e.i]), Data(rs[j]);
    var r := if e.Pair? then Data(rs[e.j]) else NullRow(p.right.cols);
    forall q
      ensures Has(r, q) <==> Has(alone, q)
    {
      ConformsHas(rs[j], p.right.cols, q);
      if e.Pair? {
        ConformsHas(rs[e.j], p.right.cols, q);
      } else {
        NullRowHas(p.right.cols, q);
      }
    }
    LeftRowShows(p, l, r, alone);
  }

  // ----- two relations, one finding more matches -----

  ghost predicate Extends(m: Match, m': Match, nl: nat, nr: nat) {
    forall i, j :: 0 <= i < nl && 0 <= j < nr && m(i, j) ==> m'(i, j)
  }

  lemma {:induction false} PartnersGrow(m: Match, m': Match, i: nat, n: nat)
    requires forall j :: 0 <= j < n && m(i, j) ==> m'(i, j)
    ensures |Partners(m, i, n)| <= |Partners(m', i, n)|
    ensures (exists j :: 0 <= j < n && !m(i, j) && m'(i, j)) ==> |Partners(m, i, n)| < |Partners(m', i, n)|
  {
    if n > 0 {
      PartnersGrow(m, m', i, n - 1);
    }
  }

  lemma LeftRowGrows(m: Match, m': Match, t: JoinType, i: nat, nl: nat, nr: nat)
    requires Extends(m, m', nl, nr) && i < nl
    ensures |LeftRow(m, t, i, nr)| <= |LeftRow(m', t, i, nr)|
  {
    PartnersGrow(m, m', i, nr);
  }

  lemma {:induction false} LeftPartGrows(m: Match, m': Match, t: JoinType, k: nat, nr: nat)
    requires Extends(m, m', k, nr)
    ensures |LeftPart(m, t, k, nr)| <= |LeftPart(m', t, k, nr)|
  {
    if k > 0 {
      LeftPartGrows(m, m', t, k - 1, nr);
      LeftRowGrows(m, m', t, k - 1, k, nr);
    }
  }

  lemma {:induction false} RightPartShrinks(m: Match, m': Match, nl: nat, k: nat)
    requires Extends(m, m', nl, k)
    ensures |RightPart(m', nl, k)| <= |RightPart(m, nl, k)|
    ensures |RightPart(m', nl, k)| == |RightPart(m, nl, k)| ==> RightPart(m', nl, k) == RightPart(m, nl, k)
  {
    if k > 0 {
      RightPartShrinks(m, m', nl, k - 1);
      assert Matched(m, nl, k - 1) ==> Matched(m', nl, k - 1);
    }
  }

  lemma RenderConcat(p: Plan, ls: seq<Row>, rs: seq<Row>, a: seq<Event>, b: seq<Event>)
    ensures Render(p, ls, rs, a + b) == Render(p, ls, rs, a) + Render(p, ls, rs, b)
  {
    hide RenderOne;
  }

  /** The rows that left row i gives rise to. */
  function RowsFor(p: Plan, ls: seq<Row>, rs: seq<Row>, m: Match, i: nat): (rows: seq<Row>)
    ensures |rows| == |LeftRow(m, p.joinType, i, |rs|)|
  {
    Render(p, ls, rs, LeftRow(m, p.joinType, i, |rs|))
  }

  ghost predicate SameRowsFor(p: Plan, ls: seq<Row>, rs: seq<Row>, m: Match, m': Match, k: nat) {
    forall i :: 0 <= i < k ==> RowsFor(p, ls, rs, m, i) == RowsFor(p, ls, rs, m', i)
  }

  /** What the first k left rows give rise to. */
  function RowsUpTo(p: Plan, ls: seq<Row>, rs: seq<Row>, m: Match, k: nat): seq<Row> {
    Render(p, ls, rs, LeftPart(m, p.joinType, k, |rs|))
  }

  lemma NextRows(p: Plan, ls: seq<Row>, rs: seq<Row>, m: Match, k: nat)
    ensures RowsUpTo(p, ls, rs, m, k + 1) == RowsUpTo(p, ls, rs, m, k) + RowsFor(p, ls, rs, m, k)
    ensures |RowsUpTo(p, ls, rs, m, k)| == |LeftPart(m, p.joinType, k, |rs|)|
  {
    hide LeftRow, RenderOne;
    RenderConcat(p, ls, rs, LeftPart(m, p.joinType, k, |rs|), LeftRow(m, p.joinType, k, |rs|));
  }

  lemma PieceStep(p: Plan, ls: seq<Row>, rs: seq<Row>, m: Match, m': Match, k: nat)
    requires Extends(m, m', k + 1, |rs|)
    ensures RowsUpTo(p, ls, rs, m, k + 1) == RowsUpTo(p, ls, rs, m', k + 1) <==>
            && RowsUpTo(p, ls, rs, m, k) == RowsUpTo(p, ls, rs, m', k)
            && RowsFor(p, ls, rs, m, k) == RowsFor(p, ls, rs, m', k)
  {
    hide RowsFor, RowsUpTo, LeftPart, LeftRow;
    LeftPartGrows(m, m', p.joinType, k, |rs|);
    LeftRowGrows(m, m', p.joinType, k, k + 1, |rs|);
    NextRows(p, ls, rs, m, k);
    NextRows(p, ls, rs, m', k);
    SplitEqual(RowsUpTo(p, ls, rs, m, k), RowsFor(p, ls, rs, m, k),
               RowsUpTo(p, ls, rs, m', k), RowsFor(p, ls, rs, m', k));
  }

  lemma {:induction false} SamePieces(p: Plan, ls: seq<Row>, rs: seq<Row>, m: Match, m': Match, k: nat)
    requires Extends(m, m', k, |rs|)
    ensures RowsUpTo(p, ls, rs, m, k) == RowsUpTo(p, ls, rs, m', k) <==> SameRowsFor(p, ls, rs, m, m', k)
  {
    hide RowsFor, RowsUpTo, SameRowsFor, Extends;
    if k == 0 {
      NoRows(p, ls, rs, m, m');
    } else {
      ExtendsLess(m, m', k - 1, |rs|);
      SamePieces(p, ls, rs, m, m', k - 1);
      PieceStep(p, ls, rs, m, m', k - 1);
      SameRowsForNext(p, ls, rs, m, m', k - 1);
    }
  }

  lemma NoRows(p: Plan, ls: seq<Row>, rs: seq<Row>, m: Match, m': Match)
    ensures RowsUpTo(p, ls, rs, m, 0) == RowsUpTo(p, ls, rs, m', 0) && SameRowsFor(p, ls, rs, m, m', 0)
  {
  }

  lemma ExtendsLess(m: Match, m': Match, k: nat, nr: nat)
    requires Extends(m, m', k + 1, nr)
    ensures Extends(m, m', k, nr)
  {
  }

  lemma SameRowsForNext(p: Plan, ls: seq<Row>, rs: seq<Row>, m: Match, m': Match, k: nat)
    ensures SameRowsFor(p, ls, rs, m, m', k + 1) <==>
            SameRowsFor(p, ls, rs, m, m', k) && RowsFor(p, ls, rs, m, k) == RowsFor(p, ls, rs, m', k)
  {
    hide RowsFor;
  }

  lemma SplitEqual<T>(a: seq<T>, b: seq<T>, c: seq<T>, d: seq<T>)
    requires |a| <= |c| && |b| <= |d|
    ensures a + b == c + d <==> a == c && b == d
  {
    if a + b == c + d {
      assert |a + b| == |c + d|;
      assert a == (a + b)[..|a|] && b == (a + b)[|a|..];
      assert c == (c + d)[..|c|] && d == (c + d)[|c|..];
    }
  }

  /** Where the left parts differ in length, a right row shown alone stands against one with a left row. */
  lemma LeftPartsOneLength(p: Plan, ls: seq<Row>, rs: seq<Row>, m: Match, m': Match)
    requires Tables(p, ls, rs) && p.left.cols != [] && KeepsRight(p.joinType) && Extends(m, m', |ls|, |rs|)
    requires Render(p, ls, rs, Join(m, p.joinType, |ls|, |rs|)) == Render(p, ls, rs, Join(m', p.joinType, |ls|, |rs|))
    ensures |LeftPart(m, p.joinType, |ls|, |rs|)| == |LeftPart(m', p.joinType, |ls|, |rs|)|
  {
    hide LeftPart, RightPart, RenderOne, Tables, Matched;
    var t, nl, nr := p.joinType, |ls|, |rs|;
    LeftPartGrows(m, m', t, nl, nr);
    var a, b, a' := LeftPart(m, t, nl, nr), RightPart(m, nl, nr), LeftPart(m', t, nl, nr);
    var k := |a|;
    if k < |a'| {
      assert |Join(m, t, nl, nr)| == |Join(m', t, nl, nr)| by { SameLength(p, ls, rs, m, m'); }
      assert b != [] && Join(m, t, nl, nr)[k] == b[0] && Join(m', t, nl, nr)[k] == a'[k];
      RightPartExact(m, t, nl, nr);
      LeftPartExact(m', t, nl, nr);
      assert b[0] in b && a'[k] in a';
      assert RenderOne(p, ls, rs, b[0]) == RenderOne(p, ls, rs, a'[k]) by {
        SameAt(p, ls, rs, Join(m, t, nl, nr), Join(m', t, nl, nr), k);
      }
      RightAloneDiffers(p, ls, rs, a'[k], b[0].j);
    }
  }

  lemma SameLength(p: Plan, ls: seq<Row>, rs: seq<Row>, m: Match, m': Match)
    requires Render(p, ls, rs, Join(m, p.joinType, |ls|, |rs|)) == Render(p, ls, rs, Join(m', p.joinType, |ls|, |rs|))
    ensures |Join(m, p.joinType, |ls|, |rs|)| == |Join(m', p.joinType, |ls|, |rs|)|
  {
    hide Join, RenderOne;
    assert |Render(p, ls, rs, Join(m, p.joinType, |ls|, |rs|))| == |Join(m, p.joinType, |ls|, |rs|)|;
  }

  lemma SameAt(p: Plan, ls: seq<Row>, rs: seq<Row>, es: seq<Event>, fs: seq<Event>, k: nat)
    requires Render(p, ls, rs, es) == Render(p, ls, rs, fs) && k < |es| && k < |fs|
    ensures RenderOne(p, ls, rs, es[k]) == RenderOne(p, ls, rs, fs[k])
  {
    hide RenderOne;
    assert Render(p, ls, rs, es)[k] == Render(p, ls, rs, fs)[k];
  }

  ghost predicate SameRightPart(p: Plan, m: Match, m': Match, nl: nat, nr: nat) {
    KeepsRight(p.joinType) ==> RightPart(m, nl, nr) == RightPart(m', nl, nr)
  }

  /** Two joins, one finding more matches, put out the same rows exactly if they do for each left row and leave
      the same right rows over. */
  lemma SameOutputIff(p: Plan, ls: seq<Row>, rs: seq<Row>, m: Match, m': Match)
    requires Tables(p, ls, rs) && p.left.cols != [] && Extends(m, m', |ls|, |rs|)
    ensures Render(p, ls, rs, Join(m, p.joinType, |ls|, |rs|)) == Render(p, ls, rs, Join(m', p.joinType, |ls|, |rs|))
            <==> SameRowsFor(p, ls, rs, m, m', |ls|) && SameRightPart(p, m, m', |ls|, |rs|)
  {
    var t, nl, nr := p.joinType, |ls|, |rs|;
    var a, a' := LeftPart(m, t, nl, nr), LeftPart(m', t, nl, nr);
    var b, b' := Kept(m, t, nl, nr), Kept(m', t, nl, nr);
    assert Join(m, t, nl, nr) == a + b && Join(m', t, nl, nr) == a' + b';
    SamePieces(p, ls, rs, m, m', nl);
    RightPartShrinks(m, m', nl, nr);
    assert |b'| <= |b| && (|b| == |b'| ==> b == b');
    hide LeftPart, RightPart, RenderOne, Render, SameRowsFor, Tables, Extends;
    if SameRowsFor(p, ls, rs, m, m', nl) && b == b' {
      RenderConcat(p, ls, rs, a, b);
      RenderConcat(p, ls, rs, a', b);
    }
    if Render(p, ls, rs, a + b) == Render(p, ls, rs, a' + b') {
      if KeepsRight(t) {
        LeftPartsOneLength(p, ls, rs, m, m');
      }
      SameLength(p, ls, rs, m, m');
      RenderConcat(p, ls, rs, a, b);
      RenderConcat(p, ls, rs, a', b');
      LeftPartGrows(m, m', t, nl, nr);
      SplitEqual(Render(p, ls, rs, a), Render(p, ls, rs, b), Render(p, ls, rs, a'), Render(p, ls, rs, b'));
    }
  }

  function Kept(m: Match, t: JoinType, nl: nat, nr: nat): seq<Event> {
    if KeepsRight(t) then RightPart(m, nl, nr) else []
  }

  // ----- NULL keys on both sides -----

  predicate NullAtLeft(p: Plan, l: Row)
    requires p.on.Equality?
  {
    Get(l, p.on.left.name) == Null
  }

  predicate NullAtRight(p: Plan, r: Row)
    requires p.on.Equality?
  {
    Get(r, p.on.right.name) == Null
  }

  /** Row j is the only right row with a NULL key. */
  ghost predicate Lone(p: Plan, rs: seq<Row>, j: nat)
    requires p.on.Equality?
  {
    j < |rs| && forall k :: 0 <= k < |rs| ==> (NullAtRight(p, rs[k]) <==> k == j)
  }

  /** Combined with r, the left row looks as if it were padded with NULLs. */
  ghost predicate LooksPadded(p: Plan, l: Row, r: Row) {
    Merge(p, Data(l), Data(r)) == Merge(p, Data(l), NullRow(p.right.cols))
  }

  /** Left rows with a NULL key meet a single right row, and it does not show. */
  ghost predicate OnePaddingRow(p: Plan, ls: seq<Row>, rs: seq<Row>)
    requires p.on.Equality?
  {
    exists j: nat ::
      Lone(p, rs, j) && forall i :: 0 <= i < |ls| && NullAtLeft(p, ls[i]) ==> LooksPadded(p, ls[i], rs[j])
  }

  /** The loop matches no NULL key; the hash join also matches NULL with NULL. */
  lemma Relations(p: Plan, ls: seq<Row>, rs: seq<Row>, i: nat, j: nat)
    requires Oriented(p) && p.on.Equality? && Tables(p, ls, rs) && i < |ls| && j < |rs|
    ensures HashRelation(p, ls, rs)(i, j) <==>
            LoopRelation(p, ls, rs)(i, j) || (NullAtLeft(p, ls[i]) && NullAtRight(p, rs[j]))
    ensures NullAtLeft(p, ls[i]) || NullAtRight(p, rs[j]) ==> !LoopRelation(p, ls, rs)(i, j)
    ensures NullAtLeft(p, ls[i]) ==> (HashRelation(p, ls, rs)(i, j) <==> NullAtRight(p, rs[j]))
  {
    hide Conforms, Oriented, LoopMatch, LeftKey, RightKey;
    LoopComparesColumns(p, ls[i], rs[j]);
    HashComparesColumns(p, ls[i], rs[j]);
  }

  /** The partners of a left row with a NULL key. */
  lemma NullPartners(p: Plan, ls: seq<Row>, rs: seq<Row>, i: nat, j: nat)
    requires Oriented(p) && p.on.Equality? && Tables(p, ls, rs) && i < |ls| && NullAtLeft(p, ls[i])
    requires j < |rs| && NullAtRight(p, rs[j])
    ensures Partners(LoopRelation(p, ls, rs), i, |rs|) == []
    ensures |Partners(HashRelation(p, ls, rs), i, |rs|)| >= 1
    ensures |Partners(HashRelation(p, ls, rs), i, |rs|)| == 1 <==> Lone(p, rs, j)
    ensures Lone(p, rs, j) ==> Partners(HashRelation(p, ls, rs), i, |rs|) == [j]
  {
    var m, m', nr := LoopRelation(p, ls, rs), HashRelation(p, ls, rs), |rs|;
    hide Oriented, Tables, Partners, HashRelation, LoopRelation, NullAtLeft, NullAtRight;
    forall k | 0 <= k < nr
      ensures !m(i, k) && (m'(i, k) <==> NullAtRight(p, rs[k]))
    {
      Relations(p, ls, rs, i, k);
    }
    var none, js := Partners(m, i, nr), Partners(m', i, nr);
    assert none == [] || none[0] in none;
    PartnersExact(m, i, nr);
    PartnersExact(m', i, nr);
    assert none == [] && j in js;
    if k: nat :| k < nr && k != j && NullAtRight(p, rs[k]) {
      assert k in js;
      assert |js| != 1;
    } else {
      OnlyMember(js, j);
    }
  }

  ghost predicate Increasing(js: seq<nat>) {
    forall a, b :: 0 <= a < b < |js| ==> js[a] < js[b]
  }

  lemma FirstTwo(js: seq<nat>)
    requires Increasing(js)
    ensures |js| >= 2 ==> js[0] < js[1] && js[0] in js && js[1] in js
    ensures |js| >= 1 ==> js[0] in js
  {
  }

  lemma OnlyMember(js: seq<nat>, j: nat)
    requires j in js && Increasing(js) && forall k :: k in js ==> k == j
    ensures js == [j]
  {
    hide Increasing;
    FirstTwo(js);
  }

  lemma SameWithoutNull(p: Plan, ls: seq<Row>, rs: seq<Row>, i: nat)
    requires Oriented(p) && p.on.Equality? && Tables(p, ls, rs) && i < |ls| && !NullAtLeft(p, ls[i])
    ensures RowsFor(p, ls, rs, LoopRelation(p, ls, rs), i) == RowsFor(p, ls, rs, HashRelation(p, ls, rs), i)
  {
    hide Oriented, Tables, HashRelation, LoopRelation, Render;
    forall j | 0 <= j < |rs|
      ensures LoopRelation(p, ls, rs)(i, j) == HashRelation(p, ls, rs)(i, j)
    {
      Relations(p, ls, rs, i, j);
    }
    AgreePartners(LoopRelation(p, ls, rs), HashRelation(p, ls, rs), i, |rs|);
  }

  lemma RowsWithNull(p: Plan, ls: seq<Row>, rs: seq<Row>, i: nat, j: nat)
    requires Oriented(p) && p.on.Equality? && Tables(p, ls, rs) && i < |ls| && NullAtLeft(p, ls[i])
    requires j < |rs| && NullAtRight(p, rs[j])
    ensures RowsFor(p, ls, rs, LoopRelation(p, ls, rs), i) == RowsFor(p, ls, rs, HashRelation(p, ls, rs), i)
            <==> KeepsLeft(p.joinType) && Lone(p, rs, j) && LooksPadded(p, ls[i], rs[j])
  {
    NullPartners(p, ls, rs, i, j);
    hide Oriented, Tables, HashRelation, LoopRelation, Partners, Lone, Merge, NullAtLeft, NullAtRight;
    var u, v := RowsFor(p, ls, rs, LoopRelation(p, ls, rs), i), RowsFor(p, ls, rs, HashRelation(p, ls, rs), i);
    if KeepsLeft(p.joinType) && Lone(p, rs, j) {
      assert u == [RenderOne(p, ls, rs, LeftOnly(i))] && v == [RenderOne(p, ls, rs, Pair(i, j))];
    } else {
      assert |u| != |v|;
    }
  }

  lemma RightRowsLost(p: Plan, ls: seq<Row>, rs: seq<Row>, i: nat, j: nat)
    requires Oriented(p) && p.on.Equality? && Tables(p, ls, rs) && i < |ls| && NullAtLeft(p, ls[i])
    requires j < |rs| && NullAtRight(p, rs[j]) && KeepsRight(p.joinType)
    ensures RightPart(LoopRelation(p, ls, rs), |ls|, |rs|) != RightPart(HashRelation(p, ls, rs), |ls|, |rs|)
  {
    var m, m' := LoopRelation(p, ls, rs), HashRelation(p, ls, rs);
    hide Oriented, Tables, HashRelation, LoopRelation, RightPart, NullAtLeft, NullAtRight;
    forall k | 0 <= k < |ls|
      ensures !m(k, j)
    {
      Relations(p, ls, rs, k, j);
    }
    Relations(p, ls, rs, i, j);
    RightPartExact(m, p.joinType, |ls|, |rs|);
    RightPartExact(m', p.joinType, |ls|, |rs|);
    assert RightOnly(j) in RightPart(m, |ls|, |rs|) && RightOnly(j) !in RightPart(m', |ls|, |rs|);
  }

  /** The rows of every join type: nested-loop and hash join put out the same rows in the same order exactly when
      NULL keys occur on at most one side, or else, for a LEFT join, when the left rows with a NULL key meet a
      single right row and look padded with it. */
  lemma RowsAgreeIff(p: Plan, ls: seq<Row>, rs: seq<Row>)
    requires Oriented(p) && Tables(p, ls, rs)
    ensures SameRows(p, ls, rs) <==>
            !(NullKeyLeft(p, ls) && NullKeyRight(p, rs)) || (p.joinType == LEFT && OnePaddingRow(p, ls, rs))
  {
    assert p.on.Equality? && p.left.cols != [];
    hide Oriented, Tables, HashRelation, LoopRelation, Render, RowsFor, RightPart;
    if NullKeyLeft(p, ls) && NullKeyRight(p, rs) {
      var i: nat :| i < |ls| && NullAtLeft(p, ls[i]);
      var j: nat :| j < |rs| && NullAtRight(p, rs[j]);
      var m, m' := LoopRelation(p, ls, rs), HashRelation(p, ls, rs);
      assert Extends(m, m', |ls|, |rs|) by {
        forall a, b | 0 <= a < |ls| && 0 <= b < |rs| && m(a, b)
          ensures m'(a, b)
        {
          Relations(p, ls, rs, a, b);
        }
      }
      SameOutputIff(p, ls, rs, m, m');
      if KeepsRight(p.joinType) {
        RightRowsLost(p, ls, rs, i, j);
      } else {
        NullRowsDecide(p, ls, rs, i, j);
      }
    } else {
      ChoiceInvisible(p, ls, rs);
    }
  }

  lemma NullRowsDecide(p: Plan, ls: seq<Row>, rs: seq<Row>, i: nat, j: nat)
    requires Oriented(p) && p.on.Equality? && Tables(p, ls, rs) && i < |ls| && NullAtLeft(p, ls[i])
    requires j < |rs| && NullAtRight(p, rs[j]) && !KeepsRight(p.joinType)
    ensures SameRowsFor(p, ls, rs, LoopRelation(p, ls, rs), HashRelation(p, ls, rs), |ls|)
            <==> p.joinType == LEFT && OnePaddingRow(p, ls, rs)
  {
    hide Oriented, Tables, HashRelation, LoopRelation, RowsFor, LooksPadded, NullAtLeft;
    forall a: nat | a < |ls|
      ensures RowsFor(p, ls, rs, LoopRelation(p, ls, rs), a) == RowsFor(p, ls, rs, HashRelation(p, ls, rs), a)
              <==> (NullAtLeft(p, ls[a]) ==> p.joinType == LEFT && Lone(p, rs, j) && LooksPadded(p, ls[a], rs[j]))
    {
      if NullAtLeft(p, ls[a]) {
        RowsWithNull(p, ls, rs, a, j);
      } else {
        SameWithoutNull(p, ls, rs, a);
      }
    }
  }

  // ----- rows that look padded -----

  /** No column of the right table has the name that a shared one shows under. */
  ghost predicate NoCapture(p: Plan) {
    forall c, d :: c in p.left.cols && c in p.right.cols && d in p.right.cols && d !in p.left.cols ==>
      d != Qualified(PrefixOf(p.right), c)
  }

  lemma {:induction false} NullRowAt(cols: seq<string>)
    requires forall i, j :: 0 <= i < j < |cols| ==> cols[i] != cols[j]
    ensures |NullRow(cols)| == |cols| && forall i :: 0 <= i < |cols| ==> NullRow(cols)[i] == (cols[i], Null)
  {
    if cols != [] {
      var n := |cols| - 1;
      NullRowAt(cols[..n]);
      assert !Has(NullRow(cols[..n]), cols[n]);
      PutAppends(NullRow(cols[..n]), cols[n], Null);
    }
  }

  lemma {:induction false} PutAppends(row: Row, k: string, c: Cell)
    requires !Has(row, k)
    ensures Put(row, k, c) == row + [(k, c)]
  {
    if row != [] {
      HasTail(row, k);
      PutAppends(row[1..], k, c);
      assert row == [row[0]] + row[1..];
    }
  }

  predicate AllNull(row: Row) {
    forall i :: 0 <= i < |row| ==> row[i].1 == Null
  }

  /** The columns of the right row keep distinct names. */
  lemma RenamedDistinct(p: Plan, l: Row, r: Row)
    requires NoCapture(p) && Conforms(l, p.left.cols) && Conforms(r, p.right.cols)
    ensures Distinct(Renamed(PrefixOf(p.right), Data(r), Data(l)))
  {
    var dl, dr, n := Data(l), Data(r), Renamed(PrefixOf(p.right), Data(r), Data(l));
    hide Qualified, Data;
    forall i, j | 0 <= i < j < |n|
      ensures n[i].0 != n[j].0
    {
      ConformsHas(l, p.left.cols, dr[i].0);
      ConformsHas(l, p.left.cols, dr[j].0);
      assert dr[i].0 in p.right.cols && dr[j].0 in p.right.cols && dr[i].0 != dr[j].0;
      if n[i].0 == n[j].0 && Has(dl, dr[i].0) && Has(dl, dr[j].0) {
        QualifiedInjective(PrefixOf(p.right), dr[i].0, dr[j].0);
      }
    }
  }

  /** Unless a name is captured, a row looks padded exactly when all its columns are NULL. */
  lemma LooksPaddedIff(p: Plan, l: Row, r: Row)
    requires NoCapture(p) && Conforms(l, p.left.cols) && Conforms(r, p.right.cols)
    ensures LooksPadded(p, l, r) <==> AllNull(Data(r))
  {
    var dl, dr, none := Data(l), Data(r), NullRow(p.right.cols);
    RenamedDistinct(p, l, r);
    assert forall i :: 0 <= i < |p.right.cols| ==> dr[i].0 == p.right.cols[i];
    NullRowAt(p.right.cols);
    var a, b := Renamed(PrefixOf(p.right), dr, dl), Renamed(PrefixOf(p.right), none, dl);
    if AllNull(dr) {
      assert dr == none;
    } else {
      var i :| 0 <= i < |dr| && dr[i].1 != Null;
      hide Conforms, Data, Has, Qualified;
      assert a[i].0 == b[i].0;
      assert Distinct(b) by { assert forall k :: 0 <= k < |b| ==> b[k].0 == a[k].0; }
      MergeShows(p, dl, dr, i);
      MergeShows(p, dl, none, i);
    }
  }

  lemma MergeShows(p: Plan, l: Row, r: Row, i: nat)
    requires Distinct(Renamed(PrefixOf(p.right), r, l)) && i < |r|
    ensures Get(Merge(p, l, r), Renamed(PrefixOf(p.right), r, l)[i].0) == r[i].1
  {
    var a := Renamed(PrefixOf(p.right), r, l);
    hide Has, Qualified, Get;
    PutAllGet(PutAll([], Renamed(PrefixOf(p.left), l, r)), a, a[i].0);
    GetAt(a, i);
  }

  /** So a LEFT join of a table whose single NULL-keyed row is all NULL hides the difference, and any other shows it. */
  lemma LeftRowsAgreeIff(p: Plan, ls: seq<Row>, rs: seq<Row>)
    requires Oriented(p) && Tables(p, ls, rs) && NoCapture(p) && p.joinType == LEFT
    ensures SameRows(p, ls, rs) <==>
            !(NullKeyLeft(p, ls) && NullKeyRight(p, rs)) || exists j: nat :: Lone(p, rs, j) && AllNull(Data(rs[j]))
  {
    hide Oriented, Conforms, LooksPadded, AllNull, NoCapture, SameRows;
    assert p.on.Equality? by { OrientedIsEquality(p); }
    RowsAgreeIff(p, ls, rs);
    forall i: nat, j: nat | i < |ls| && j < |rs|
      ensures LooksPadded(p, ls[i], rs[j]) <==> AllNull(Data(rs[j]))
    {
      LooksPaddedIff(p, ls[i], rs[j]);
    }
    if NullKeyLeft(p, ls) {
      var i: nat :| i < |ls| && NullAtLeft(p, ls[i]);
      assert forall j: nat :: Lone(p, rs, j) ==> (LooksPadded(p, ls[i], rs[j]) <==> AllNull(Data(rs[j])));
    }
  }

  lemma OrientedIsEquality(p: Plan)
    requires Oriented(p)
    ensures p.on.Equality?
  {
  }

  // ----- the operands of ON swapped -----

  lemma {:induction false} AllPartners(m: Match, i: nat, n: nat)
    ensures |Partners(m, i, n)| <= n
    ensures |Partners(m, i, n)| == n <==> forall j :: 0 <= j < n ==> m(i, j)
  {
    if n > 0 {
      AllPartners(m, i, n - 1);
    }
  }

  /** One left row against a hash join that pairs it with every right row. */
  lemma RowsAgainstAll(p: Plan, ls: seq<Row>, rs: seq<Row>, m: Match, m': Match, i: nat)
    requires i < |ls| && forall j :: 0 <= j < |rs| ==> m'(i, j)
    ensures RowsFor(p, ls, rs, m, i) == RowsFor(p, ls, rs, m', i) <==>
            (forall j :: 0 <= j < |rs| ==> m(i, j))
            || (KeepsLeft(p.joinType) && |rs| == 1 && LooksPadded(p, ls[i], rs[0]))
  {
    var nr := |rs|;
    AllPartners(m, i, nr);
    AllPartners(m', i, nr);
    if forall j :: 0 <= j < nr ==> m(i, j) {
      AgreePartners(m, m', i, nr);
    } else if nr == 1 {
      assert Partners(m, i, 1) == [] && Partners(m', i, 1) == [0];
      hide Merge;
      assert KeepsLeft(p.joinType) ==> RowsFor(p, ls, rs, m, i) == [RenderOne(p, ls, rs, LeftOnly(i))];
      assert RowsFor(p, ls, rs, m', i) == [RenderOne(p, ls, rs, Pair(i, 0))];
    } else {
      assert |RowsFor(p, ls, rs, m, i)| < |RowsFor(p, ls, rs, m', i)|;
    }
  }

  lemma AllNullReadsNull(row: Row, q: string)
    requires AllNull(Data(row)) && q != ROWID
    ensures Get(row, q) == Null
  {
    GetData(row, q);
    GetAbsent(Data(row), q);
  }

  /** A right row all NULL is left over by the loop and by no join that pairs it. */
  lemma NullRowLeftOver(p: Plan, ls: seq<Row>, rs: seq<Row>, i: nat)
    requires SwappedShown(p) && p.on.Equality? && Tables(p, ls, rs) && i < |ls| && |rs| == 1 && AllNull(Data(rs[0]))
    requires KeepsRight(p.joinType)
    ensures RightPart(LoopRelation(p, ls, rs), |ls|, 1) != RightPart(HashRelation(p, ls, rs), |ls|, 1)
  {
    var m, m' := LoopRelation(p, ls, rs), HashRelation(p, ls, rs);
    hide SwappedShown, LoopMatch, LeftKey, RightKey, AllNull, Conforms, RightPart;
    SwappedIsEquality(p);
    ColumnNotRowId(rs[0], p.right.cols, p.on.left.name);
    AllNullReadsNull(rs[0], p.on.left.name);
    forall k | 0 <= k < |ls|
      ensures !m(k, 0)
    {
      SwappedLoopComparesColumns(p, ls[k], rs[0]);
    }
    SwappedKeysEqual(p, ls[i], rs[0]);
    assert m'(i, 0);
    RightPartExact(m, p.joinType, |ls|, 1);
    RightPartExact(m', p.joinType, |ls|, 1);
    assert RightOnly(0) in RightPart(m, |ls|, 1) && RightOnly(0) !in RightPart(m', |ls|, 1);
  }

  /** On rows: with the operands of ON swapped, both joins put out the same rows exactly when all pairs match, or
      when a LEFT join meets a single right row that is all NULL. */
  lemma SwappedRowsAgreeIff(p: Plan, ls: seq<Row>, rs: seq<Row>)
    requires SwappedShown(p) && Tables(p, ls, rs) && NoCapture(p)
    ensures SameRows(p, ls, rs) <==>
            AllPairsMatch(p, ls, rs) || (p.joinType == LEFT && |rs| == 1 && AllNull(Data(rs[0])))
  {
    SwappedIsEquality(p);
    assert p.left.cols != [];
    hide SwappedShown, Conforms, Tables, LoopMatch, LeftKey, RightKey, NoCapture, AllNull, Render, RowsFor, RightPart;
    SwappedAgreesIff(p, ls, rs);
    if !AllPairsMatch(p, ls, rs) {
      var m, m' := LoopRelation(p, ls, rs), HashRelation(p, ls, rs);
      SwappedPairsAll(p, ls, rs);
      SameOutputIff(p, ls, rs, m, m');
      var i: nat, j: nat :| i < |ls| && j < |rs| && !CompareEq(Get(rs[j], p.on.left.name), Get(ls[i], p.on.right.name));
      SwappedRowsDecide(p, ls, rs, i, j);
      if |rs| == 1 && AllNull(Data(rs[0])) && KeepsRight(p.joinType) {
        NullRowLeftOver(p, ls, rs, i);
      }
    }
  }

  lemma SwappedRowsDecide(p: Plan, ls: seq<Row>, rs: seq<Row>, i: nat, j: nat)
    requires SwappedShown(p) && p.on.Equality? && Tables(p, ls, rs) && NoCapture(p) && i < |ls| && j < |rs|
    requires !CompareEq(Get(rs[j], p.on.left.name), Get(ls[i], p.on.right.name))
    ensures SameRowsFor(p, ls, rs, LoopRelation(p, ls, rs), HashRelation(p, ls, rs), |ls|)
            <==> KeepsLeft(p.joinType) && |rs| == 1 && AllNull(Data(rs[0]))
  {
    var m, m' := LoopRelation(p, ls, rs), HashRelation(p, ls, rs);
    hide SwappedShown, Conforms, LoopMatch, LeftKey, RightKey, NoCapture, AllNull, RowsFor, LooksPadded;
    SwappedIsEquality(p);
    SwappedPairsAll(p, ls, rs);
    SwappedLoopComparesColumns(p, ls[i], rs[j]);
    assert !m(i, j);
    forall a: nat | a < |ls|
      ensures RowsFor(p, ls, rs, m, a) == RowsFor(p, ls, rs, m', a) <==>
              (forall b :: 0 <= b < |rs| ==> m(a, b)) || (KeepsLeft(p.joinType) && |rs| == 1 && AllNull(Data(rs[0])))
    {
      RowsAgainstAll(p, ls, rs, m, m', a);
      if |rs| == 1 {
        LooksPaddedIff(p, ls[a], rs[0]);
      }
    }
    if SameRowsFor(p, ls, rs, m, m', |ls|) {
      assert RowsFor(p, ls, rs, m, i) == RowsFor(p, ls, rs, m', i);
    }
  }
}
