/** The lock manager object. Each method below is one critical section, proved to take the
    matching step of LockProtocol; the blocking call `acquire` is AcquireEnter followed by any
    number of AcquireRetry, then AfterGrant, or AcquireTimeOut and an AfterTimeOut for each holder. */
module LockManager {
  import opened Wrappers
  import opened WaitForGraph
  import opened LockProtocol
  import DD = DeadlockDetector
  import opened RowIds

  lemma AddOneMore(g: Graph, t: Txn, hs: set<Txn>, h: Txn)
    ensures AddEdges(AddEdges(g, t, hs), t, {h}) == AddEdges(g, t, hs + {h})
  {
    assert Succ(AddEdges(g, t, hs), t) == Succ(g, t) + hs;
    assert Succ(g, t) + hs + {h} == Succ(g, t) + (hs + {h});
  }

  lemma RemoveOneMore(g: Graph, t: Txn, hs: set<Txn>, h: Txn)
    requires forall u :: u in g ==> g[u] != {}
    ensures RemoveEdges(RemoveEdges(g, t, hs), t, {h}) == RemoveEdges(g, t, hs + {h})
  {
    if t in g {
      assert g[t] - hs - {h} == g[t] - (hs + {h});
      assert hs == {} ==> hs + {h} == {h};
    }
  }

  method Filter(calls: seq<Call>, t: Txn) returns (kept: seq<Call>)
    ensures kept == WithoutTxn(calls, t)
  {
    kept := [];
    var i := 0;
    while i < |calls|
      invariant 0 <= i <= |calls|
      invariant kept + WithoutTxn(calls[i..], t) == WithoutTxn(calls, t)
    {
      if calls[i].txn != t {
        kept := kept + [calls[i]];
      }
      i := i + 1;
    }
  }

  /** The holder's own request: granted unless it needs an upgrade that others block. */
  lemma OwnRequest(hs: Holders, c: Call)
    requires c.txn in hs && Compatible(hs)
    ensures Compatible(Wanted(hs, c)) <==> c.mode == Shared || hs[c.txn] == Exclusive || |hs| == 1
    ensures c.mode == Shared || hs[c.txn] == Exclusive ==> Wanted(hs, c) == hs
  {
    var w := Wanted(hs, c);
    assert w.Keys == hs.Keys;
    assert |w| == |hs|;
    if hs[c.txn] == Shared && c.mode == Shared {
      assert w == hs;
    } else if hs[c.txn] == Shared && |hs| == 1 {
      CompatibleAfterUpgrade(hs, c.txn);
    } else if hs[c.txn] == Shared {
      assert hs != map[];
      assert w[c.txn] == Exclusive;
    }
  }

  /** A foreign holder that conflicts with the request rules the grant out, whether or not the
      requester holds the page too. */
  lemma ForeignConflict(hs: Holders, c: Call, h: Txn)
    requires Compatible(hs) && h in hs && h != c.txn
    requires hs[h] == Exclusive || c.mode == Exclusive
    ensures !Compatible(Wanted(hs, c))
  {
    if c.txn !in hs {
      Conflict(hs, c, h);
    } else {
      SubsetSize({h, c.txn}, hs.Keys);
      OwnRequest(hs, c);
    }
  }

  /** A request is granted exactly if its transaction holds enough already, or everybody reads. */
  lemma GrantableIff(hs: Holders, c: Call)
    requires Compatible(hs)
    ensures Compatible(Wanted(hs, c)) <==>
              HoldsAtLeast(hs, c.txn, c.mode)
              || forall h :: h in hs && h != c.txn ==> hs[h] == Shared == c.mode
  {
    if h :| h in hs && h != c.txn && !(hs[h] == Shared == c.mode) {
      ForeignConflictOr(hs, c, h);
    } else if c.txn in hs {
      OwnRequest(hs, c);
      OnlyHolder(hs, c.txn);
      assert forall h :: h in hs && h != c.txn ==> c.mode == Shared;
    } else if hs.Keys == {} {
      assert Wanted(hs, c).Keys == {c.txn};
    }
  }

  lemma ForeignConflictOr(hs: Holders, c: Call, h: Txn)
    requires Compatible(hs) && h in hs && h != c.txn && !(hs[h] == Shared == c.mode)
    ensures Compatible(Wanted(hs, c)) <==> HoldsAtLeast(hs, c.txn, c.mode)
  {
    if HoldsAtLeast(hs, c.txn, c.mode) {
      OwnRequest(hs, c);
    } else {
      ForeignConflict(hs, c, h);
    }
  }

  class LockManager {
    var holders: map<PageId, Holders>
    var waitQueue: map<PageId, seq<Call>>
    const detector: DD.DeadlockDetector
    ghost var pending: set<Call>

    ghost function State(): LockState
      reads this, detector
    {
      LockState(holders, waitQueue, detector.waitFor, pending)
    }

    ghost predicate Valid()
      reads this, detector
    {
      Inv(State())
    }

    constructor ()
      ensures Valid() && fresh(detector) && State() == Init
    {
      holders, waitQueue, pending := map[], map[], {};
      detector := new DD.DeadlockDetector();
      new;
      RankedIsAcyclic(map[], map[]);
    }

    /** Decides a request by walking the holders of the page in no particular order. */
    method Decide(c: Call) returns (ok: bool)
      requires Valid()
      ensures ok <==> Grantable(State(), c)
    {
      hide Acyclic, Wanted, Compatible;
      var hs := HoldersOf(holders, c.page);
      if hs == map[] {
        GrantsAlone(State(), c);
        return true;
      }
      var todo := hs.Keys;
      while todo != {}
        invariant todo <= hs.Keys
        invariant forall h :: h in hs && h !in todo ==> h != c.txn && hs[h] == Shared == c.mode
        decreases todo
      {
        var h := Pick(todo);
        todo := todo - {h};
        if h == c.txn {
          OwnRequest(hs, c);
          if c.mode == Exclusive && hs[h] == Shared {
            return |hs| == 1;
          }
          return true;
        }
        if hs[h] == Exclusive || c.mode == Exclusive {
          ForeignConflict(hs, c, h);
          return false;
        }
      }
      var some: Txn :| some in hs;
      GrantsShared(State(), c);
      ok := true;
    }

    /** Grants the request if every holder allows it, upgrading in place. */
    method TryAcquire(c: Call) returns (ok: bool)
      requires Valid()
      modifies this
      ensures ok <==> old(Grantable(State(), c))
      ensures State() == if ok then Grant(old(State()), c) else old(State())
      ensures Valid()
    {
      hide Acyclic, Compatible, Grantable;
      ok := Decide(c);
      if ok {
        GrantKeepsInv(State(), c);
        if c.page in holders && c.txn in holders[c.page] {
          OwnRequest(holders[c.page], c);
        }
        if c.page !in holders {
          holders := holders[c.page := map[c.txn := c.mode]];
        } else if c.txn !in holders[c.page] {
          holders := holders[c.page := holders[c.page][c.txn := c.mode]];
        } else if c.mode == Exclusive {
          holders := holders[c.page := holders[c.page][c.txn := Exclusive]];
        }
        assert holders[c.page] == Wanted(old(HoldersOf(holders, c.page)), c);
        assert holders == old(holders)[c.page := holders[c.page]];
        pending := pending - {c};
      }
    }

    /** First critical section of acquire: grant, refuse as a deadlock, or queue the call. A
        refusal names a genuine cycle of the wait-for graph with the request added. */
    method AcquireEnter(c: Call) returns (outcome: Outcome, cycle: Option<seq<Txn>>)
      requires Valid()
      modifies this, detector
      ensures Valid()
      ensures (State(), outcome) == old(Next(State(), Enter(c)))
      ensures outcome == Deadlock <==>
              old(!Grantable(State(), c) &&
                  exists h :: h in Others(State(), c) && Reaches(State().edges, h, c.txn))
      ensures outcome == Deadlock ==>
                cycle.Some? && IsCycle(old(AddEdges(State().edges, c.txn, Others(State(), c))), cycle.value)
    {
      hide Acyclic, Compatible, Grantable;
      cycle := None;
      ghost var before := State();
      EnterKeepsInv(before, c);
      DeadlockIffHolderReaches(before, c);
      var ok := TryAcquire(c);
      if ok {
        return Granted, None;
      }
      var others := HoldersOf(holders, c.page).Keys - {c.txn};
      AddEdgesTo(c.txn, others);
      cycle := detector.DetectCycle();
      if cycle.Some? {
        EnlargedHasNoSelfEdges(before.edges, c.txn, others);
        RemoveEdgesTo(c.txn, others);
        return Deadlock, cycle;
      }
      waitQueue := Enqueue(waitQueue, c);
      pending := pending + {c};
      outcome := Waiting;
    }

    method AddEdgesTo(t: Txn, others: set<Txn>)
      requires detector.Valid()
      modifies detector
      ensures detector.Valid() && detector.waitFor == old(AddEdges(detector.waitFor, t, others))
    {
      var todo := others;
      while todo != {}
        invariant todo <= others && detector.Valid()
        invariant detector.waitFor == old(AddEdges(detector.waitFor, t, others - todo))
        decreases todo
      {
        var h := Pick(todo);
        AddOneMore(old(detector.waitFor), t, others - todo, h);
        assert others - (todo - {h}) == (others - todo) + {h};
        todo := todo - {h};
        detector.AddWaitEdge(t, h);
      }
      assert others - todo == others;
    }

    method RemoveEdgesTo(t: Txn, others: set<Txn>)
      requires detector.Valid()
      modifies detector
      ensures detector.Valid() && detector.waitFor == old(RemoveEdges(detector.waitFor, t, others))
    {
      var todo := others;
      while todo != {}
        invariant todo <= others && detector.Valid()
        invariant detector.waitFor == old(RemoveEdges(detector.waitFor, t, others - todo))
        decreases todo
      {
        var h := Pick(todo);
        RemoveOneMore(old(detector.waitFor), t, others - todo, h);
        assert others - (todo - {h}) == (others - todo) + {h};
        todo := todo - {h};
        detector.RemoveWaitEdge(t, h);
      }
      assert others - todo == others;
    }

    /** One evaluation of the wait_for predicate of a blocked call. */
    method AcquireRetry(c: Call) returns (outcome: Outcome)
      requires Valid() && c in pending
      modifies this
      ensures Valid()
      ensures (State(), outcome) == old(Next(State(), Retry(c)))
    {
      hide Acyclic, Compatible, Grantable;
      var ok := TryAcquire(c);
      outcome := if ok then Granted else Waiting;
    }

    /** After a successful wait the edges to the current holders are removed, and no others. */
    method AfterGrant(c: Call)
      requires Valid()
      modifies this, detector
      ensures Valid()
      ensures State() == old(Next(State(), DropEdges(c.txn, Others(State(), c)))).0
    {
      hide Acyclic, Compatible, Grantable;
      NextKeepsInv(State(), DropEdges(c.txn, Others(State(), c)));
      RemoveEdgesTo(c.txn, HoldersOf(holders, c.page).Keys - {c.txn});
    }

    /** A wait that ran out leaves the queue. */
    method AcquireTimeOut(c: Call)
      requires Valid() && c in pending
      modifies this
      ensures Valid()
      ensures State() == old(Next(State(), TimeOut(c))).0
    {
      hide Acyclic, Compatible, Grantable;
      LeaveQueue(c.txn, c.page);
      pending := pending - {c};
    }

    /** Afterwards, outside the mutex, its edge to one holder after the other is removed; between two of them
        other threads may act. */
    method AfterTimeOut(t: Txn, h: Txn)
      requires Valid()
      modifies detector
      ensures Valid()
      ensures State() == old(Next(State(), DropEdges(t, {h}))).0
      ensures !Edge(State().edges, t, h)
      ensures forall u, v :: (u, v) != (t, h) ==> (Edge(State().edges, u, v) <==> old(Edge(State().edges, u, v)))
    {
      hide Acyclic, Compatible, Grantable;
      NextKeepsInv(State(), DropEdges(t, {h}));
      detector.RemoveWaitEdge(t, h);
    }

    method LeaveQueue(t: Txn, p: PageId)
      modifies this`waitQueue
      ensures waitQueue == Dequeue(old(waitQueue), t, p)
    {
      if p in waitQueue {
        var kept := Filter(waitQueue[p], t);
        waitQueue := waitQueue[p := kept];
      }
    }

    method Release(t: Txn, p: PageId)
      requires Valid()
      modifies this
      ensures Valid()
      ensures State() == old(Next(State(), Step.Release(t, p))).0
    {
      hide Acyclic, Compatible, Grantable;
      ReleaseKeepsInv(State(), t, p);
      if p in holders && t in holders[p] {
        holders := holders[p := holders[p] - {t}];
        if holders[p] == map[] {
          holders := holders - {p};
        }
      }
      LeaveQueue(t, p);
    }

    /** Releases page by page; afterwards t holds nothing and every other lock is as before. */
    method ReleaseAll(t: Txn)
      requires Valid()
      modifies this
      ensures Valid()
      ensures forall p, u :: u in HoldersOf(holders, p) <==> u in HoldersOf(old(holders), p) && u != t
      ensures forall p, u :: u in HoldersOf(holders, p) ==> HoldersOf(holders, p)[u] == HoldersOf(old(holders), p)[u]
      ensures detector.waitFor == old(detector.waitFor)
    {
      hide Acyclic, Compatible, Grantable;
      var pages := set p | p in holders && t in holders[p];
      var todo := pages;
      while todo != {}
        invariant Valid() && todo <= pages
        invariant forall p :: HoldersOf(holders, p) ==
                    if p in pages && p !in todo then HoldersOf(old(holders), p) - {t} else HoldersOf(old(holders), p)
        decreases todo
      {
        var p := Pick(todo);
        todo := todo - {p};
        Release(t, p);
      }
    }

    /** In-place S to X upgrade: succeeds exactly for the only holder. */
    method Upgrade(t: Txn, p: PageId) returns (outcome: Outcome)
      requires Valid()
      modifies this
      ensures Valid()
      ensures (State(), outcome) == old(Next(State(), Step.Upgrade(t, p)))
      ensures outcome == Granted <==> t in old(HoldersOf(holders, p)) && old(HoldersOf(holders, p)).Keys == {t}
      ensures outcome == Granted ==> holders == old(holders)[p := map[t := Exclusive]]
      ensures outcome != Granted ==> outcome == Refused && holders == old(holders)
    {
      hide Acyclic, Compatible;
      UpgradeKeepsInv(State(), t, p);
      if p !in holders || t !in holders[p] {
        return Refused;
      }
      OnlyHolder(holders[p], t);
      if holders[p][t] == Exclusive {
        assert holders[p] == map[t := Exclusive];
        return Granted;
      }
      if |holders[p]| == 1 {
        assert holders[p][t := Exclusive] == map[t := Exclusive];
        holders := holders[p := holders[p][t := Exclusive]];
        return Granted;
      }
      outcome := Refused;
    }
  }

  lemma EnlargedHasNoSelfEdges(g: Graph, t: Txn, others: set<Txn>)
    requires Acyclic(g) && t !in others
    ensures NoSelfEdges(AddEdges(g, t, others))
  {
    AcyclicHasNoSelfEdges(g);
  }

  lemma OnlyHolder(hs: Holders, t: Txn)
    requires t in hs && Compatible(hs)
    ensures hs.Keys == {t} <==> |hs| == 1
    ensures hs[t] == Exclusive ==> hs.Keys == {t}
  {
    SubsetSize({t}, hs.Keys);
  }
}
