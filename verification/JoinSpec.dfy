/** The meaning of a join over row positions: which pairs of rows are combined, which rows are
    padded with NULLs, and in what order, for any match relation. */
module JoinSpec {
  datatype JoinType = INNER | LEFT | RIGHT | FULL | CROSS

  datatype Event = Pair(i: nat, j: nat) | LeftOnly(i: nat) | RightOnly(j: nat)

  type Match = (nat, nat) -> bool

  predicate KeepsLeft(t: JoinType) {
    t == LEFT || t == FULL
  }

  predicate KeepsRight(t: JoinType) {
    t == RIGHT || t == FULL
  }

  /** The first n right rows that match left row i, in order. */
  function Partners(m: Match, i: nat, n: nat): seq<nat> {
    if n == 0 then [] else Partners(m, i, n - 1) + (if m(i, n - 1) then [n - 1] else [])
  }

  function Pairs(i: nat, js: seq<nat>): (es: seq<Event>)
    ensures |es| == |js|
    ensures forall k :: 0 <= k < |js| ==> es[k] == Pair(i, js[k])
  {
    seq(|js|, k requires 0 <= k < |js| => Pair(i, js[k]))
  }

  function LeftRow(m: Match, t: JoinType, i: nat, nr: nat): seq<Event> {
    var js := Partners(m, i, nr);
    if js == [] && KeepsLeft(t) then [LeftOnly(i)] else Pairs(i, js)
  }

  /** What the first k left rows give rise to. */
  function LeftPart(m: Match, t: JoinType, k: nat, nr: nat): seq<Event> {
    if k == 0 then [] else LeftPart(m, t, k - 1, nr) + LeftRow(m, t, k - 1, nr)
  }

  predicate Matched(m: Match, nl: nat, j: nat) {
    exists i :: 0 <= i < nl && m(i, j)
  }

  /** Those of the first k right rows that no left row matches. */
  function RightPart(m: Match, nl: nat, k: nat): seq<Event> {
    if k == 0 then []
    else RightPart(m, nl, k - 1) + (if Matched(m, nl, k - 1) then [] else [RightOnly(k - 1)])
  }

  function Join(m: Match, t: JoinType, nl: nat, nr: nat): seq<Event> {
    LeftPart(m, t, nl, nr) + (if KeepsRight(t) then RightPart(m, nl, nr) else [])
  }

  // ----- the relational meaning -----

  /** Every matching pair; unmatched rows of the sides the join type keeps; nothing else. */
  ghost predicate Belongs(m: Match, t: JoinType, nl: nat, nr: nat, e: Event) {
    match e
    case Pair(i, j) => i < nl && j < nr && m(i, j)
    case LeftOnly(i) => KeepsLeft(t) && i < nl && forall j :: 0 <= j < nr ==> !m(i, j)
    case RightOnly(j) => KeepsRight(t) && j < nr && !Matched(m, nl, j)
  }

  ghost predicate NoRepeats(es: seq<Event>) {
    forall a, b :: 0 <= a < b < |es| ==> es[a] != es[b]
  }

  /** The output is exactly the relational meaning, each event once. */
  ghost predicate Exact(m: Match, t: JoinType, nl: nat, nr: nat, es: seq<Event>) {
    NoRepeats(es) && forall e :: e in es <==> Belongs(m, t, nl, nr, e)
  }

  lemma {:induction false} PartnersExact(m: Match, i: nat, n: nat)
    ensures forall j :: j in Partners(m, i, n) <==> 0 <= j < n && m(i, j)
    ensures forall a, b :: 0 <= a < b < |Partners(m, i, n)| ==> Partners(m, i, n)[a] < Partners(m, i, n)[b]
  {
    if n > 0 {
      PartnersExact(m, i, n - 1);
      var js := Partners(m, i, n - 1);
      forall a | 0 <= a < |js|
        ensures js[a] < n - 1
      {
        assert js[a] in js;
      }
    }
  }

  lemma LeftRowExact(m: Match, t: JoinType, i: nat, nr: nat)
    ensures NoRepeats(LeftRow(m, t, i, nr))
    ensures forall e :: e in LeftRow(m, t, i, nr) <==> Belongs(m, t, i + 1, nr, e) && !e.RightOnly? && e.i == i
  {
    PartnersExact(m, i, nr);
    var js, es := Partners(m, i, nr), LeftRow(m, t, i, nr);
    if js != [] {
      assert js[0] in js;
    }
    assert js == [] <==> forall j :: 0 <= j < nr ==> !m(i, j);
    forall e
      ensures e in es <==> Belongs(m, t, i + 1, nr, e) && !e.RightOnly? && e.i == i
    {
      if e in es {
        var k :| 0 <= k < |es| && es[k] == e;
        assert e.Pair? ==> js[k] in js;
      }
      if Belongs(m, t, i + 1, nr, e) && e.Pair? && e.i == i {
        assert e.j in js;
        var k :| 0 <= k < |js| && js[k] == e.j;
        assert es[k] == e;
      }
    }
  }

  lemma BelongsNextRow(m: Match, t: JoinType, k: nat, nr: nat, e: Event)
    requires !e.RightOnly?
    ensures Belongs(m, t, k + 1, nr, e) <==> Belongs(m, t, k, nr, e) || (Belongs(m, t, k + 1, nr, e) && e.i == k)
    ensures Belongs(m, t, k, nr, e) ==> e.i < k
  {
  }

  lemma {:induction false} LeftPartExact(m: Match, t: JoinType, k: nat, nr: nat)
    ensures NoRepeats(LeftPart(m, t, k, nr))
    ensures forall e :: e in LeftPart(m, t, k, nr) <==> Belongs(m, t, k, nr, e) && !e.RightOnly?
  {
    hide LeftRow, Partners, Matched;
    if k > 0 {
      LeftPartExact(m, t, k - 1, nr);
      LeftRowExact(m, t, k - 1, nr);
      var a, b := LeftPart(m, t, k - 1, nr), LeftRow(m, t, k - 1, nr);
      hide LeftRow, Belongs, Partners;
      forall e
        ensures e in a + b <==> Belongs(m, t, k, nr, e) && !e.RightOnly?
      {
        if !e.RightOnly? {
          BelongsNextRow(m, t, k - 1, nr, e);
        }
      }
      forall x, y | 0 <= x < |a| && 0 <= y < |b|
        ensures a[x] != b[y]
      {
        assert a[x] in a && b[y] in b;
      }
    }
  }

  lemma {:induction false} RightPartExact(m: Match, t: JoinType, nl: nat, k: nat)
    requires KeepsRight(t)
    ensures NoRepeats(RightPart(m, nl, k))
    ensures forall e :: e in RightPart(m, nl, k) <==> Belongs(m, t, nl, k, e) && e.RightOnly?
  {
    if k > 0 {
      RightPartExact(m, t, nl, k - 1);
      var a := RightPart(m, nl, k - 1);
      forall x | 0 <= x < |a|
        ensures a[x] != RightOnly(k - 1)
      {
        assert a[x] in a;
      }
    }
  }

  lemma JoinExact(m: Match, t: JoinType, nl: nat, nr: nat)
    ensures Exact(m, t, nl, nr, Join(m, t, nl, nr))
  {
    LeftPartExact(m, t, nl, nr);
    if KeepsRight(t) {
      RightPartExact(m, t, nl, nr);
      var a, b := LeftPart(m, t, nl, nr), RightPart(m, nl, nr);
      assert forall e :: e in a + b <==> e in a || e in b;
      forall x, y | 0 <= x < |a| && 0 <= y < |b|
        ensures a[x] != b[y]
      {
        assert a[x] in a && b[y] in b;
      }
    }
  }

  // ----- the order of the output -----

  /** Left rows in order, for one left row its partners in order, and right rows without partners last. */
  predicate Before(e: Event, f: Event) {
    match (e, f)
    case (RightOnly(j), RightOnly(k)) => j < k
    case (RightOnly(_), _) => false
    case (_, RightOnly(_)) => true
    case (Pair(i, j), Pair(k, l)) => i < k || (i == k && j < l)
    case (Pair(i, _), LeftOnly(k)) => i < k
    case (LeftOnly(i), Pair(k, _)) => i < k
    case (LeftOnly(i), LeftOnly(k)) => i < k
  }

  ghost predicate InOrder(es: seq<Event>) {
    forall a, b :: 0 <= a < b < |es| ==> Before(es[a], es[b])
  }

  lemma LeftRowOrdered(m: Match, t: JoinType, i: nat, nr: nat)
    ensures InOrder(LeftRow(m, t, i, nr))
    ensures forall e :: e in LeftRow(m, t, i, nr) ==> !e.RightOnly? && e.i == i
  {
    PartnersExact(m, i, nr);
    hide Partners;
  }

  lemma OrderedConcat(a: seq<Event>, b: seq<Event>)
    requires InOrder(a) && InOrder(b) && forall e, f :: e in a && f in b ==> Before(e, f)
    ensures InOrder(a + b)
  {
    hide Before;
    forall x, y | 0 <= x < |a| && 0 <= y < |b|
      ensures Before(a[x], b[y])
    {
      assert a[x] in a && b[y] in b;
    }
  }

  lemma NextRowOrdered(a: seq<Event>, b: seq<Event>, i: nat)
    requires InOrder(a) && InOrder(b)
    requires (forall e :: e in a ==> !e.RightOnly? && e.i < i) && forall f :: f in b ==> !f.RightOnly? && f.i == i
    ensures InOrder(a + b)
    ensures forall e :: e in a + b ==> !e.RightOnly? && e.i < i + 1
  {
    hide InOrder;
    OrderedConcat(a, b);
    assert forall e :: e in a + b <==> e in a || e in b;
  }

  lemma NothingOrdered()
    ensures InOrder([])
  {
  }

  lemma {:induction false} LeftPartOrdered(m: Match, t: JoinType, k: nat, nr: nat)
    ensures InOrder(LeftPart(m, t, k, nr))
    ensures forall e :: e in LeftPart(m, t, k, nr) ==> !e.RightOnly? && e.i < k
  {
    hide LeftRow, InOrder, Before;
    if k == 0 {
      NothingOrdered();
    } else {
      LeftPartOrdered(m, t, k - 1, nr);
      LeftRowOrdered(m, t, k - 1, nr);
      NextRowOrdered(LeftPart(m, t, k - 1, nr), LeftRow(m, t, k - 1, nr), k - 1);
    }
  }

  lemma {:induction false} RightPartOrdered(m: Match, nl: nat, k: nat)
    ensures InOrder(RightPart(m, nl, k))
    ensures forall e :: e in RightPart(m, nl, k) ==> e.RightOnly? && e.j < k
  {
    if k > 0 {
      RightPartOrdered(m, nl, k - 1);
      var a := RightPart(m, nl, k - 1);
      assert forall x :: 0 <= x < |a| ==> a[x] in a;
    }
  }

  lemma JoinOrdered(m: Match, t: JoinType, nl: nat, nr: nat)
    ensures InOrder(Join(m, t, nl, nr))
  {
    LeftPartOrdered(m, t, nl, nr);
    RightPartOrdered(m, nl, nr);
    OrderedConcat(LeftPart(m, t, nl, nr), RightPart(m, nl, nr));
    assert LeftPart(m, t, nl, nr) + [] == LeftPart(m, t, nl, nr);
  }

  // ----- when every pair matches -----

  /** All pairs of positions, left row by left row. */
  function AllPairs(nl: nat, nr: nat): seq<Event> {
    if nl == 0 then [] else AllPairs(nl - 1, nr) + seq(nr, j requires 0 <= j < nr => Pair(nl - 1, j))
  }

  lemma {:induction false} EachPartner(m: Match, i: nat, n: nat)
    requires forall j :: 0 <= j < n ==> m(i, j)
    ensures |Partners(m, i, n)| == n && forall j :: 0 <= j < n ==> Partners(m, i, n)[j] == j
  {
    if n > 0 {
      EachPartner(m, i, n - 1);
    }
  }

  lemma {:induction false} AllLeftPart(m: Match, t: JoinType, k: nat, nr: nat)
    requires nr > 0 && forall i, j :: 0 <= i < k && 0 <= j < nr ==> m(i, j)
    ensures LeftPart(m, t, k, nr) == AllPairs(k, nr)
  {
    if k > 0 {
      AllLeftPart(m, t, k - 1, nr);
      EachPartner(m, k - 1, nr);
      assert Pairs(k - 1, Partners(m, k - 1, nr)) == seq(nr, j requires 0 <= j < nr => Pair(k - 1, j));
    }
  }

  lemma {:induction false} NoneLeftOver(m: Match, nl: nat, k: nat)
    requires nl > 0 && forall j :: 0 <= j < k ==> m(0, j)
    ensures RightPart(m, nl, k) == []
  {
    if k > 0 {
      NoneLeftOver(m, nl, k - 1);
      assert m(0, k - 1);
    }
  }

  /** When every pair matches, the join of any type is all pairs, left row by left row. */
  lemma JoinAll(m: Match, t: JoinType, nl: nat, nr: nat)
    requires nl > 0 && nr > 0 && forall i, j :: 0 <= i < nl && 0 <= j < nr ==> m(i, j)
    ensures Join(m, t, nl, nr) == AllPairs(nl, nr)
  {
    AllLeftPart(m, t, nl, nr);
    NoneLeftOver(m, nl, nr);
  }

  /** Which unmatched rows each join type keeps. */
  lemma JoinKeeps(m: Match, t: JoinType, nl: nat, nr: nat)
    ensures forall i: nat :: LeftOnly(i) in Join(m, t, nl, nr) <==>
                          (t == LEFT || t == FULL) && i < nl && forall j :: 0 <= j < nr ==> !m(i, j)
    ensures forall j: nat :: RightOnly(j) in Join(m, t, nl, nr) <==>
                          (t == RIGHT || t == FULL) && j < nr && forall i :: 0 <= i < nl ==> !m(i, j)
    ensures forall i: nat, j: nat :: Pair(i, j) in Join(m, t, nl, nr) <==> i < nl && j < nr && m(i, j)
  {
    JoinExact(m, t, nl, nr);
    hide Join;
  }

  /** Two exact outputs for the same relation are the same bag. */
  lemma ExactSameBag(m: Match, t: JoinType, nl: nat, nr: nat, es: seq<Event>, fs: seq<Event>)
    requires Exact(m, t, nl, nr, es) && Exact(m, t, nl, nr, fs)
    ensures multiset(es) == multiset(fs)
  {
    OncePerMember(es);
    OncePerMember(fs);
  }

  lemma {:induction false} OncePerMember(es: seq<Event>)
    requires NoRepeats(es)
    ensures forall e :: multiset(es)[e] == if e in es then 1 else 0
  {
    if es != [] {
      var n := |es| - 1;
      OncePerMember(es[..n]);
      assert es == es[..n] + [es[n]];
    }
  }

  // ----- when two match relations give the same join -----

  ghost predicate Agree(m: Match, m': Match, nl: nat, nr: nat) {
    forall i, j :: 0 <= i < nl && 0 <= j < nr ==> m(i, j) == m'(i, j)
  }

  lemma {:induction false} AgreePartners(m: Match, m': Match, i: nat, n: nat)
    requires forall j :: 0 <= j < n ==> m(i, j) == m'(i, j)
    ensures Partners(m, i, n) == Partners(m', i, n)
  {
    if n > 0 {
      AgreePartners(m, m', i, n - 1);
    }
  }

  lemma {:induction false} AgreeLeftPart(m: Match, m': Match, t: JoinType, k: nat, nr: nat)
    requires Agree(m, m', k, nr)
    ensures LeftPart(m, t, k, nr) == LeftPart(m', t, k, nr)
  {
    if k > 0 {
      AgreeLeftPart(m, m', t, k - 1, nr);
      AgreePartners(m, m', k - 1, nr);
    }
  }

  lemma {:induction false} AgreeRightPart(m: Match, m': Match, nl: nat, k: nat)
    requires Agree(m, m', nl, k)
    ensures RightPart(m, nl, k) == RightPart(m', nl, k)
  {
    if k > 0 {
      AgreeRightPart(m, m', nl, k - 1);
      assert Matched(m, nl, k - 1) <==> Matched(m', nl, k - 1);
    }
  }

  /** The join determines the match relation and is determined by it. */
  lemma SameJoinIffAgree(m: Match, m': Match, t: JoinType, nl: nat, nr: nat)
    ensures Join(m, t, nl, nr) == Join(m', t, nl, nr) <==> Agree(m, m', nl, nr)
  {
    if Agree(m, m', nl, nr) {
      AgreeLeftPart(m, m', t, nl, nr);
      AgreeRightPart(m, m', nl, nr);
    } else {
      JoinExact(m, t, nl, nr);
      JoinExact(m', t, nl, nr);
      var i, j :| 0 <= i < nl && 0 <= j < nr && m(i, j) != m'(i, j);
      assert Pair(i, j) in Join(m, t, nl, nr) <==> m(i, j);
      assert Pair(i, j) in Join(m', t, nl, nr) <==> m'(i, j);
    }
  }
}
