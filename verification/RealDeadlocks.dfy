/** When the deadlocks that acquire reports are the real ones: recorded edges against blocked calls. */
module RealDeadlocks {
  import opened WaitForGraph
  import opened LockProtocol
  import opened Wrappers
  import opened RowIds

  /** The waits that are there, as a graph: each blocked call waits for the other holders of its page. */
  ghost function RealWaits(s: LockState): Graph {
    map t | t in (set c | c in s.pending :: c.txn) :: WaitsOf(s, t)
  }

  ghost function WaitsOf(s: LockState, t: Txn): set<Txn> {
    set c, h | c in s.pending && h in Others(s, c) && c.txn == t && !Grantable(s, c) :: h
  }

  lemma RealWaitsAreWaits(s: LockState, t: Txn, h: Txn)
    ensures Edge(RealWaits(s), t, h) <==> ReallyWaits(s, t, h)
  {
    hide Grantable;
  }

  /** Every recorded edge is a wait: nothing stale. */
  ghost predicate NothingStale(s: LockState) {
    forall t, h :: Edge(s.edges, t, h) ==> ReallyWaits(s, t, h)
  }

  /** Every wait has its recorded edge: nothing hidden. */
  ghost predicate NothingHidden(s: LockState) {
    forall t, h :: ReallyWaits(s, t, h) ==> Edge(s.edges, t, h)
  }

  /** s with the call blocked as well. */
  function Blocked(s: LockState, c: Call): LockState {
    s.(pending := s.pending + {c})
  }

  /** The call closes a cycle of waits. */
  ghost predicate RealDeadlock(s: LockState, c: Call) {
    !Acyclic(RealWaits(Blocked(s, c)))
  }

  /** Blocking one more call adds its waits and changes no other. */
  lemma BlockedWaits(s: LockState, c: Call, t: Txn, h: Txn)
    ensures ReallyWaits(Blocked(s, c), t, h) <==>
            ReallyWaits(s, t, h) || (t == c.txn && h in Others(s, c) && !Grantable(s, c))
  {
    hide Compatible, Wanted;
    var b := Blocked(s, c);
    assert forall d :: Grantable(b, d) == Grantable(s, d) && Others(b, d) == Others(s, d);
    if t == c.txn && h in Others(s, c) && !Grantable(s, c) {
      assert c in b.pending;
    }
    if ReallyWaits(s, t, h) {
      var d :| d in s.pending && d.txn == t && h in Others(s, d) && !Grantable(s, d);
      assert d in b.pending;
    }
  }

  /** A refusal says that the request is blocked and that its edges close a cycle. */
  lemma RefusalMeans(s: LockState, c: Call)
    ensures EnterStep(s, c).1 == Deadlock <==>
            !Grantable(s, c) && !Acyclic(AddEdges(s.edges, c.txn, Others(s, c)))
  {
    hide Grantable, Acyclic, Others;
  }

  /** Unless something stale is recorded, a refusal is a deadlock. */
  lemma RefusalIsDeadlock(s: LockState, c: Call)
    requires Inv(s) && NothingStale(s) && EnterStep(s, c).1 == Deadlock
    ensures RealDeadlock(s, c)
  {
    hide Grantable, Acyclic, ReallyWaits, RealWaits, EnterStep, Inv, Others;
    RefusalMeans(s, c);
    var edges, waits := AddEdges(s.edges, c.txn, Others(s, c)), RealWaits(Blocked(s, c));
    forall t, h | Edge(edges, t, h)
      ensures Edge(waits, t, h)
    {
      assert Edge(s.edges, t, h) || (t == c.txn && h in Others(s, c));
      BlockedWaits(s, c, t, h);
      RealWaitsAreWaits(Blocked(s, c), t, h);
    }
    if Acyclic(waits) {
      SubgraphOfAcyclic(edges, waits);
    }
  }

  /** Unless something is hidden, a deadlock is refused. */
  lemma DeadlockIsRefused(s: LockState, c: Call)
    requires Inv(s) && NothingHidden(s) && RealDeadlock(s, c)
    ensures EnterStep(s, c).1 == Deadlock
  {
    hide Grantable, Acyclic, ReallyWaits, RealWaits, EnterStep, Others;
    RefusalMeans(s, c);
    var edges, waits := AddEdges(s.edges, c.txn, Others(s, c)), RealWaits(Blocked(s, c));
    var recorded := if Grantable(s, c) then s.edges else edges;
    forall t, h | Edge(waits, t, h)
      ensures Edge(recorded, t, h)
    {
      RealWaitsAreWaits(Blocked(s, c), t, h);
      BlockedWaits(s, c, t, h);
    }
    if Acyclic(recorded) {
      SubgraphOfAcyclic(waits, recorded);
    }
  }

  /** In a reachable state whose edges are exactly the waits, acquire refuses exactly the deadlocks. */
  lemma RefusedIffDeadlock(states: seq<LockState>, steps: seq<Step>, k: nat, c: Call)
    requires Run(states, steps) && k < |states|
    requires NothingStale(states[k]) && NothingHidden(states[k])
    ensures EnterStep(states[k], c).1 == Deadlock <==> RealDeadlock(states[k], c)
  {
    hide Run, NothingStale, NothingHidden, EnterStep, RealDeadlock;
    RunKeepsInv(states, steps, k);
    if EnterStep(states[k], c).1 == Deadlock {
      RefusalIsDeadlock(states[k], c);
    }
    if RealDeadlock(states[k], c) {
      DeadlockIsRefused(states[k], c);
    }
  }

  // ----- what hides a wait -----

  /** A transaction blocks in one call at a time. */
  ghost predicate OneCallEach(s: LockState) {
    forall c, d :: c in s.pending && d in s.pending && c.txn == d.txn ==> c == d
  }

  predicate Blocking(s: LockState, t: Txn) {
    exists c :: c in s.pending && c.txn == t
  }

  /** Whoever waits on p for t, which holds it, has recorded the edge. */
  ghost predicate Watched(s: LockState, t: Txn, p: PageId) {
    forall c :: c in s.pending && c.page == p && t in Others(s, c) && !Grantable(s, c) ==> Edge(s.edges, c.txn, t)
  }

  /** A transaction blocks in one call at a time; a grant or an upgrade makes nobody wait without an edge; and no
      edge is removed that is a wait. */
  ghost predicate Orderly(s: LockState, step: Step) {
    match step
    case Enter(c) => !Blocking(s, c.txn) && (Grantable(s, c) ==> Watched(Grant(s, c), c.txn, c.page))
    case Retry(c) => Grantable(s, c) ==> Watched(Grant(s, c), c.txn, c.page)
    case TimeOut(_) => true
    case DropEdges(t, hs) => forall h :: h in hs ==> !ReallyWaits(s, t, h)
    case Release(_, _) => true
    case Upgrade(t, p) => Watched(UpgradeStep(s, t, p).0, t, p)
    case ClearTxn(t) => forall u :: !ReallyWaits(s, t, u) && !ReallyWaits(s, u, t)
  }

  ghost predicate Tracked(s: LockState) {
    NothingHidden(s) && OneCallEach(s)
  }

  /** A grant makes nobody wait for an earlier holder. */
  lemma GrantAddsOneHolder(hs: Holders, c: Call, d: Call, h: Txn)
    requires Compatible(Wanted(hs, c)) && h in hs && h != c.txn && h != d.txn
    requires Compatible(Wanted(hs, d))
    ensures Compatible(Wanted(Wanted(hs, c), d))
  {
    AllShared(hs, c, h);
    AllShared(hs, d, h);
  }

  lemma AllShared(hs: Holders, c: Call, h: Txn)
    requires Compatible(Wanted(hs, c)) && h in hs && h != c.txn
    ensures c.mode == Shared && forall t :: t in hs ==> hs[t] == Shared
  {
    var w := Wanted(hs, c);
    SubsetSize({h, c.txn}, w.Keys);
    assert w[c.txn] == Shared;
    assert forall t :: t in hs && t != c.txn ==> w[t] == hs[t];
  }

  /** A wait after a step is a wait on the new holder, or was one before. */
  lemma TrackedIffWatched(s: LockState, n: LockState, t: Txn, p: PageId)
    requires Tracked(s) && n.edges == s.edges && n.pending <= s.pending
    requires forall d, h :: d in n.pending && h in Others(n, d) && !Grantable(n, d) && (h != t || d.page != p) ==>
               ReallyWaits(s, d.txn, h)
    ensures Tracked(n) <==> Watched(n, t, p)
  {
    hide Compatible, Wanted, Edge, Grantable, Others;
    if Watched(n, t, p) {
      forall u, h | ReallyWaits(n, u, h)
        ensures Edge(n.edges, u, h)
      {
        var d :| d in n.pending && d.txn == u && h in Others(n, d) && !Grantable(n, d);
        assert h != t || d.page != p ==> ReallyWaits(s, u, h);
      }
    }
    if Tracked(n) {
      forall c | c in n.pending && c.page == p && t in Others(n, c) && !Grantable(n, c)
        ensures Edge(n.edges, c.txn, t)
      {
        assert ReallyWaits(n, c.txn, t);
      }
    }
  }

  /** A grant leaves every wait recorded exactly when it makes nobody wait without an edge. */
  lemma GrantTracked(s: LockState, c: Call)
    requires Tracked(s) && Grantable(s, c) && (c in s.pending || !Blocking(s, c.txn))
    ensures Tracked(Grant(s, c)) <==> Watched(Grant(s, c), c.txn, c.page)
  {
    var g := Grant(s, c);
    hide Compatible, Wanted, Edge, Watched;
    forall d, h | d in g.pending && h in Others(g, d) && !Grantable(g, d) && (h != c.txn || d.page != c.page)
      ensures ReallyWaits(s, d.txn, h)
    {
      assert d.txn != c.txn;
      assert h in Others(s, d) by { WantedKeys(HoldersOf(s.holders, c.page), c); }
      if Grantable(s, d) && d.page == c.page {
        GrantAddsOneHolder(HoldersOf(s.holders, c.page), c, d, h);
      }
    }
    TrackedIffWatched(s, g, c.txn, c.page);
  }

  lemma WantedKeys(hs: Holders, c: Call)
    ensures Wanted(hs, c).Keys == hs.Keys + {c.txn}
  {
  }

  /** With a holder gone, what could be granted still can. */
  lemma ReleaseGrants(hs: Holders, t: Txn, d: Call)
    requires Compatible(Wanted(hs, d))
    ensures Compatible(Wanted(hs - {t}, d))
  {
    var less := hs - {t};
    if h :| h in less && h != d.txn {
      AllShared(hs, d, h);
      assert forall u :: u in less ==> less[u] == Shared;
    } else {
      hide Compatible, Wanted;
      WantedKeys(less, d);
      assert forall u :: u in less.Keys ==> u == d.txn;
      OneHolder(Wanted(less, d), d.txn);
    }
  }

  lemma OneHolder(hs: Holders, t: Txn)
    requires hs.Keys <= {t}
    ensures Compatible(hs)
  {
    SubsetSize(hs.Keys, {t});
    assert |hs| == |hs.Keys|;
  }

  lemma ReleaseTracked(s: LockState, t: Txn, p: PageId)
    requires Inv(s) && Tracked(s)
    ensures Tracked(Next(s, Release(t, p)).0)
  {
    var n := Next(s, Release(t, p)).0;
    hide Compatible, Wanted, Edge, Next;
    DropHolders(s, t, p, p);
    forall u, h | ReallyWaits(n, u, h)
      ensures Edge(n.edges, u, h)
    {
      var d :| d in n.pending && d.txn == u && h in Others(n, d) && !Grantable(n, d);
      DropHolders(s, t, p, d.page);
      if Grantable(s, d) && d.page == p {
        if p in s.holders {
          ReleaseGrants(s.holders[p], t, d);
        }
      }
      assert ReallyWaits(s, u, h);
    }
  }

  lemma DropHolders(s: LockState, t: Txn, p: PageId, q: PageId)
    ensures Next(s, Release(t, p)).0.edges == s.edges && Next(s, Release(t, p)).0.pending == s.pending
    ensures HoldersOf(Next(s, Release(t, p)).0.holders, q) ==
            if q == p then HoldersOf(s.holders, q) - {t} else HoldersOf(s.holders, q)
  {
  }

  lemma UpgradeTracked(s: LockState, t: Txn, p: PageId)
    requires Inv(s) && Tracked(s)
    ensures Tracked(UpgradeStep(s, t, p).0) <==> Watched(UpgradeStep(s, t, p).0, t, p)
  {
    var n, hs := UpgradeStep(s, t, p).0, HoldersOf(s.holders, p);
    if n == s {
      assert forall d, h :: d in s.pending && h in Others(s, d) && !Grantable(s, d) ==> ReallyWaits(s, d.txn, h);
    } else {
      assert n.edges == s.edges && n.pending == s.pending && n.holders == s.holders[p := hs[t := Exclusive]];
      assert hs.Keys == {t} by { SubsetSize({t}, hs.Keys); }
      hide Compatible, Wanted, Edge, UpgradeStep, Watched;
      forall d, h | d in n.pending && h in Others(n, d) && !Grantable(n, d) && (h != t || d.page != p)
        ensures ReallyWaits(s, d.txn, h)
      {
        assert d.page != p;
      }
    }
    TrackedIffWatched(s, n, t, p);
  }

  lemma BlockedTracked(s: LockState, c: Call)
    requires Inv(s) && Tracked(s) && !Blocking(s, c.txn) && !Grantable(s, c)
    ensures Tracked(EnterStep(s, c).0)
  {
    var n := EnterStep(s, c).0;
    hide Compatible, Wanted, Acyclic;
    forall u, h | ReallyWaits(n, u, h)
      ensures Edge(n.edges, u, h)
    {
      var d :| d in n.pending && d.txn == u && h in Others(n, d) && !Grantable(n, d);
      assert Others(n, d) == Others(s, d) && (Grantable(n, d) <==> Grantable(s, d));
      if d in s.pending {
        assert ReallyWaits(s, u, h);
        assert d.txn != c.txn;
      }
    }
  }

  lemma TimeOutTracked(s: LockState, c: Call)
    requires Tracked(s)
    ensures Tracked(Next(s, TimeOut(c)).0)
  {
    var n := Next(s, TimeOut(c)).0;
    hide Compatible, Wanted;
    forall u, h | ReallyWaits(n, u, h)
      ensures Edge(n.edges, u, h)
    {
      var d :| d in n.pending && d.txn == u && h in Others(n, d) && !Grantable(n, d);
      assert ReallyWaits(s, u, h);
    }
  }

  /** Removing edges leaves every wait recorded exactly when none of them is a wait. */
  lemma EdgeLossTracked(s: LockState, edges: Graph)
    requires Tracked(s)
    ensures Tracked(s.(edges := edges)) <==> forall u, h :: ReallyWaits(s, u, h) ==> Edge(edges, u, h)
  {
    var n := s.(edges := edges);
    hide Compatible, Wanted, Edge;
    forall u, h
      ensures ReallyWaits(n, u, h) <==> ReallyWaits(s, u, h)
    {
      SameWaits(s, n, u, h);
    }
  }

  lemma SameWaits(s: LockState, n: LockState, u: Txn, h: Txn)
    requires n.holders == s.holders && n.pending == s.pending
    ensures ReallyWaits(n, u, h) <==> ReallyWaits(s, u, h)
  {
    hide Compatible, Wanted;
    assert forall d :: (Others(n, d) == Others(s, d)) && (Grantable(n, d) <==> Grantable(s, d));
  }

  /** A step leaves every wait recorded exactly when it is orderly. */
  lemma TrackedIffOrderly(s: LockState, step: Step)
    requires Inv(s) && Tracked(s) && Enabled(s, step) && (step.Enter? ==> !Blocking(s, step.call.txn))
    ensures Tracked(Next(s, step).0) <==> Orderly(s, step)
  {
    hide Tracked, Inv, Compatible, Wanted, Edge, Acyclic, Watched, Blocking, ReallyWaits, UpgradeStep;
    match step
    case Enter(c) =>
      if Grantable(s, c) {
        GrantTracked(s, c);
      } else {
        BlockedTracked(s, c);
      }
    case Retry(c) =>
      if Grantable(s, c) {
        GrantTracked(s, c);
      }
    case TimeOut(c) => TimeOutTracked(s, c);
    case DropEdges(t, hs) => DroppedTracked(s, t, hs);
    case Release(t, p) => ReleaseTracked(s, t, p);
    case Upgrade(t, p) => UpgradeTracked(s, t, p);
    case ClearTxn(t) => ClearedTracked(s, t);
  }

  lemma DroppedTracked(s: LockState, t: Txn, hs: set<Txn>)
    requires Tracked(s)
    ensures Tracked(s.(edges := RemoveEdges(s.edges, t, hs))) <==> forall h :: h in hs ==> !ReallyWaits(s, t, h)
  {
    hide ReallyWaits;
    EdgeLossTracked(s, RemoveEdges(s.edges, t, hs));
    RemovedExactly(s.edges, t, hs);
  }

  lemma RemovedExactly(g: Graph, t: Txn, hs: set<Txn>)
    ensures forall u, v :: Edge(RemoveEdges(g, t, hs), u, v) <==> Edge(g, u, v) && !(u == t && v in hs)
  {
  }

  lemma ClearedTracked(s: LockState, t: Txn)
    requires Tracked(s)
    ensures Tracked(s.(edges := ClearEdges(s.edges, t))) <==>
            forall u :: !ReallyWaits(s, t, u) && !ReallyWaits(s, u, t)
  {
    hide ReallyWaits;
    ClearEdgesIsSubgraph(s.edges, t);
    EdgeLossTracked(s, ClearEdges(s.edges, t));
  }

  ghost predicate OrderlyRun(states: seq<LockState>, steps: seq<Step>) {
    Run(states, steps) && forall i :: 0 <= i < |steps| ==> Orderly(states[i], steps[i])
  }

  lemma InitTracked()
    ensures Tracked(Init)
  {
  }

  lemma StepTracked(states: seq<LockState>, steps: seq<Step>, i: nat)
    requires OrderlyRun(states, steps) && i < |steps| && Tracked(states[i])
    ensures Tracked(states[i + 1])
  {
    hide Tracked, Inv, Next, Enabled;
    RunKeepsInv(states, steps, i);
    assert StepAt(states, steps, i) && Orderly(states[i], steps[i]);
    hide Orderly;
    TrackedIffOrderly(states[i], steps[i]);
  }

  lemma {:induction false} OrderlyRunTracked(states: seq<LockState>, steps: seq<Step>, k: nat)
    requires OrderlyRun(states, steps) && k < |states|
    ensures Tracked(states[k])
  {
    hide Tracked, Orderly;
    if k == 0 {
      InitTracked();
    } else {
      OrderlyRunTracked(states, steps, k - 1);
      StepTracked(states, steps, k - 1);
    }
  }

  /** Deadlock prevention over whole runs: while nobody overtakes a blocked call, the waits never form a cycle. */
  lemma NeverDeadlocked(states: seq<LockState>, steps: seq<Step>, k: nat)
    requires OrderlyRun(states, steps) && k < |states|
    ensures Acyclic(RealWaits(states[k]))
  {
    OrderlyRunTracked(states, steps, k);
    RunKeepsInv(states, steps, k);
    var s := states[k];
    hide OrderlyRun, ReallyWaits, RealWaits, Acyclic;
    forall t, h | Edge(RealWaits(s), t, h)
      ensures Edge(s.edges, t, h)
    {
      RealWaitsAreWaits(s, t, h);
    }
    SubgraphOfAcyclic(RealWaits(s), s.edges);
  }

  /** The run of LateHolderHidesDeadlock ends in a deadlock that is not recorded, and is not orderly: 3 overtook 2. */
  lemma LateHolderOvertakes() returns (states: seq<LockState>, steps: seq<Step>)
    ensures Run(states, steps) && |states| == 6
    ensures !Acyclic(RealWaits(states[5])) && Acyclic(states[5].edges)
    ensures !NothingHidden(states[5]) && !OrderlyRun(states, steps)
  {
    hide Run, ReallyWaits, RealWaits, OrderlyRun;
    states, steps := LateHolderHidesDeadlock();
    assert |states| == 6 by { RunLength(states, steps); }
    var w := RealWaits(states[5]);
    RealWaitsAreWaits(states[5], 2, 3);
    RealWaitsAreWaits(states[5], 3, 2);
    assert HasStep(w, [2, 3], 0) && IsCycle(w, [2, 3]);
    if OrderlyRun(states, steps) {
      NeverDeadlocked(states, steps, 5);
    }
    if NothingHidden(states[5]) {
      forall t, h | Edge(w, t, h)
        ensures Edge(states[5].edges, t, h)
      {
        RealWaitsAreWaits(states[5], t, h);
      }
      SubgraphOfAcyclic(w, states[5].edges);
    }
  }

  lemma RunLength(states: seq<LockState>, steps: seq<Step>)
    requires Run(states, steps)
    ensures |states| == |steps| + 1
  {
  }

  /** The refusal that follows StaleEdge is no deadlock, and the stale edge no wait. */
  lemma StaleRefusalIsNoDeadlock(s: LockState)
    requires s.holders == map[7 := map[1 := Exclusive]] && s.edges == map[1 := {2}] && s.pending == {}
    ensures EnterStep(s, Call(2, 7, Shared)).1 == Deadlock && !RealDeadlock(s, Call(2, 7, Shared))
    ensures !NothingStale(s)
  {
    var c := Call(2, 7, Shared);
    StaleEdgeRefusesWithoutAnyWait(s);
    hide EnterStep, Acyclic, Grantable, RealWaits;
    forall t, h | Edge(RealWaits(Blocked(s, c)), t, h)
      ensures t == 2 && h == 1
    {
      RealWaitsAreWaits(Blocked(s, c), t, h);
      BlockedWaits(s, c, t, h);
    }
    RankedIsAcyclic(RealWaits(Blocked(s, c)), map[2 := 1, 1 := 0]);
    assert Edge(s.edges, 1, 2) && !ReallyWaits(s, 1, 2);
  }
}
