/** The lock manager's critical sections as atomic steps of a state machine, and what every
    interleaving of them keeps. Each step is what one thread does while it holds the lock
    manager's mutex (or the detector's); a blocked acquire is a pending call that may retry
    or time out at any moment. */
module LockProtocol {
  import opened Wrappers
  import opened WaitForGraph
  import opened RowIds

  datatype LockMode = Shared | Exclusive

  type Holders = map<Txn, LockMode>

  datatype Call = Call(txn: Txn, page: PageId, mode: LockMode)

  datatype LockState = LockState(
    holders: map<PageId, Holders>,
    queue: map<PageId, seq<Call>>,
    edges: Graph,
    pending: set<Call>)

  datatype Outcome = Granted | Refused | Waiting | Deadlock

  datatype Step =
    | Enter(call: Call)                      // first critical section of acquire
    | Retry(call: Call)                      // predicate of wait_for re-evaluated
    | TimeOut(call: Call)                    // wait_for gave up: leave the queue
    | DropEdges(txn: Txn, others: set<Txn>)  // wait-for edges removed after a grant or timeout
    | Release(txn: Txn, page: PageId)
    | Upgrade(txn: Txn, page: PageId)
    | ClearTxn(txn: Txn)                     // the detector forgets a finished transaction

  function HoldersOf(h: map<PageId, Holders>, p: PageId): Holders {
    if p in h then h[p] else map[]
  }

  /** Many readers or a single writer. */
  ghost predicate Compatible(hs: Holders) {
    |hs| <= 1 || forall t :: t in hs ==> hs[t] == Shared
  }

  /** The holders if the request were granted: a lock never weakens. */
  function Wanted(hs: Holders, c: Call): Holders {
    if c.txn in hs && hs[c.txn] == Exclusive then hs else hs[c.txn := c.mode]
  }

  predicate HoldsAtLeast(hs: Holders, t: Txn, m: LockMode) {
    t in hs && (m == Shared || hs[t] == Exclusive)
  }

  ghost predicate Grantable(s: LockState, c: Call) {
    Compatible(Wanted(HoldersOf(s.holders, c.page), c))
  }

  function Grant(s: LockState, c: Call): LockState {
    s.(holders := s.holders[c.page := Wanted(HoldersOf(s.holders, c.page), c)], pending := s.pending - {c})
  }

  function Others(s: LockState, c: Call): set<Txn> {
    HoldersOf(s.holders, c.page).Keys - {c.txn}
  }

  function Enqueue(q: map<PageId, seq<Call>>, c: Call): map<PageId, seq<Call>> {
    q[c.page := (if c.page in q then q[c.page] else []) + [c]]
  }

  function WithoutTxn(calls: seq<Call>, t: Txn): seq<Call> {
    if calls == [] then []
    else (if calls[0].txn == t then [] else [calls[0]]) + WithoutTxn(calls[1..], t)
  }

  function Dequeue(q: map<PageId, seq<Call>>, t: Txn, p: PageId): map<PageId, seq<Call>> {
    if p in q then q[p := WithoutTxn(q[p], t)] else q
  }

  function Drop(h: map<PageId, Holders>, t: Txn, p: PageId): map<PageId, Holders> {
    if p !in h || t !in h[p] then h
    else if h[p] - {t} == map[] then h - {p}
    else h[p := h[p] - {t}]
  }

  ghost function EnterStep(s: LockState, c: Call): (LockState, Outcome) {
    if Grantable(s, c) then (Grant(s, c), Granted)
    else
      var edges := AddEdges(s.edges, c.txn, Others(s, c));
      if !Acyclic(edges) then
        (s.(edges := RemoveEdges(edges, c.txn, Others(s, c))), Deadlock)
      else
        (s.(edges := edges, queue := Enqueue(s.queue, c), pending := s.pending + {c}), Waiting)
  }

  ghost function RetryStep(s: LockState, c: Call): (LockState, Outcome) {
    if Grantable(s, c) then (Grant(s, c), Granted) else (s, Waiting)
  }

  function UpgradeStep(s: LockState, t: Txn, p: PageId): (LockState, Outcome) {
    var hs := HoldersOf(s.holders, p);
    if t !in hs then (s, Refused)
    else if hs[t] == Exclusive then (s, Granted)
    else if |hs| == 1 then (s.(holders := s.holders[p := hs[t := Exclusive]]), Granted)
    else (s, Refused)
  }

  ghost function Next(s: LockState, step: Step): (LockState, Outcome) {
    match step
    case Enter(c) => EnterStep(s, c)
    case Retry(c) => RetryStep(s, c)
    case TimeOut(c) => (s.(queue := Dequeue(s.queue, c.txn, c.page), pending := s.pending - {c}), Refused)
    case DropEdges(t, hs) => (s.(edges := RemoveEdges(s.edges, t, hs)), Granted)
    case Release(t, p) =>
      (s.(holders := Drop(s.holders, t, p), queue := Dequeue(s.queue, t, p)), Granted)
    case Upgrade(t, p) => UpgradeStep(s, t, p)
    case ClearTxn(t) => (s.(edges := ClearEdges(s.edges, t)), Granted)
  }

  /** A retry or a timeout belongs to a call that is blocked. */
  predicate Enabled(s: LockState, step: Step) {
    (step.Retry? || step.TimeOut?) ==> step.call in s.pending
  }

  const Init := LockState(map[], map[], map[], {})

  ghost predicate Inv(s: LockState) {
    && (forall p :: p in s.holders ==> s.holders[p] != map[] && Compatible(s.holders[p]))
    && (forall t :: t in s.edges ==> s.edges[t] != {})
    && Acyclic(s.edges)
  }

  // ----- one step -----

  lemma CompatibleAfterUpgrade(hs: Holders, t: Txn)
    requires |hs| == 1 && t in hs
    ensures Compatible(hs[t := Exclusive])
  {
    assert hs[t := Exclusive].Keys == hs.Keys;
  }

  lemma FewerHoldersCompatible(hs: Holders, t: Txn)
    requires Compatible(hs)
    ensures Compatible(hs - {t})
  {
    if |hs| <= 1 {
      var rest := hs.Keys - {t};
      assert (hs - {t}).Keys == rest && rest <= hs.Keys;
      if t in hs {
        assert |rest| == |hs.Keys| - 1;
      } else {
        assert rest == hs.Keys;
      }
    }
  }

  lemma GrantKeepsInv(s: LockState, c: Call)
    requires Inv(s) && Grantable(s, c)
    ensures Inv(Grant(s, c))
  {
    hide Acyclic, Compatible;
    assert c.txn in Wanted(HoldersOf(s.holders, c.page), c);
  }

  lemma EnterKeepsInv(s: LockState, c: Call)
    requires Inv(s)
    ensures Inv(EnterStep(s, c).0)
  {
    hide Acyclic, Grantable, Compatible;
    if Grantable(s, c) {
      GrantKeepsInv(s, c);
    } else {
      var added := AddEdges(s.edges, c.txn, Others(s, c));
      RemovedAgainIsSubgraph(s.edges, c.txn, Others(s, c));
      SubgraphOfAcyclic(RemoveEdges(added, c.txn, Others(s, c)), s.edges);
    }
  }

  lemma ReleaseKeepsInv(s: LockState, t: Txn, p: PageId)
    requires Inv(s)
    ensures Inv(Next(s, Release(t, p)).0)
  {
    hide Acyclic, Compatible;
    if p in s.holders {
      FewerHoldersCompatible(s.holders[p], t);
    }
  }

  lemma UpgradeKeepsInv(s: LockState, t: Txn, p: PageId)
    requires Inv(s)
    ensures Inv(UpgradeStep(s, t, p).0)
  {
    hide Acyclic, Compatible;
    var hs := HoldersOf(s.holders, p);
    if t in hs && |hs| == 1 {
      CompatibleAfterUpgrade(hs, t);
    }
  }

  lemma EdgeLossKeepsInv(s: LockState, edges: Graph)
    requires Inv(s) && Subgraph(edges, s.edges)
    requires forall t :: t in edges ==> edges[t] != {}
    ensures Inv(s.(edges := edges))
  {
    SubgraphOfAcyclic(edges, s.edges);
  }

  lemma NextKeepsInv(s: LockState, step: Step)
    requires Inv(s)
    ensures Inv(Next(s, step).0)
  {
    hide Acyclic, Compatible, EnterStep, UpgradeStep, Wanted, Grantable;
    match step
    case Enter(c) => EnterKeepsInv(s, c);
    case Retry(c) =>
      if Grantable(s, c) {
        GrantKeepsInv(s, c);
      }
    case TimeOut(c) =>
    case DropEdges(t, hs) =>
      RemoveEdgesIsSubgraph(s.edges, t, hs);
      EdgeLossKeepsInv(s, RemoveEdges(s.edges, t, hs));
    case Release(t, p) => ReleaseKeepsInv(s, t, p);
    case Upgrade(t, p) => UpgradeKeepsInv(s, t, p);
    case ClearTxn(t) =>
      ClearEdgesIsSubgraph(s.edges, t);
      EdgeLossKeepsInv(s, ClearEdges(s.edges, t));
  }

  lemma RemovedAgainIsSubgraph(g: Graph, t: Txn, hs: set<Txn>)
    ensures Subgraph(RemoveEdges(AddEdges(g, t, hs), t, hs), g)
  {
  }

  /** A blocked acquire is refused as a deadlock exactly when some current holder of the page
      already reaches the requester along recorded edges. */
  lemma DeadlockIffHolderReaches(s: LockState, c: Call)
    requires Inv(s)
    ensures EnterStep(s, c).1 == Deadlock <==>
            !Grantable(s, c) && exists h :: h in Others(s, c) && Reaches(s.edges, h, c.txn)
  {
    NewCycleIffReaches(s.edges, c.txn, Others(s, c));
  }

  /** Granted means the caller now holds at least what it asked for. */
  lemma GrantGivesMode(s: LockState, step: Step)
    requires Next(s, step).1 == Granted
    ensures step.Enter? || step.Retry? ==>
              HoldsAtLeast(HoldersOf(Next(s, step).0.holders, step.call.page), step.call.txn, step.call.mode)
    ensures step.Upgrade? ==>
              HoldsAtLeast(HoldersOf(Next(s, step).0.holders, step.page), step.txn, Exclusive)
  {
  }

  function Actor(step: Step): Txn {
    match step
    case Enter(c) => c.txn
    case Retry(c) => c.txn
    case TimeOut(c) => c.txn
    case DropEdges(t, _) => t
    case Release(t, _) => t
    case Upgrade(t, _) => t
    case ClearTxn(t) => t
  }

  /** A step that does not succeed leaves every lock as it was, the caller's own among them. */
  lemma NoSuccessNoChange(s: LockState, step: Step)
    requires Next(s, step).1 != Granted
    ensures Next(s, step).0.holders == s.holders
  {
    hide Grantable, Acyclic;
  }

  /** No step takes a lock away or weakens it, except that its own transaction releases it. */
  lemma OnlyReleaseTakes(s: LockState, step: Step, t: Txn, p: PageId, m: LockMode)
    requires HoldsAtLeast(HoldersOf(s.holders, p), t, m) && step != Release(t, p)
    ensures HoldsAtLeast(HoldersOf(Next(s, step).0.holders, p), t, m)
  {
    hide Grantable, Acyclic;
  }

  /** In particular no step of another transaction does. */
  lemma OthersKeepMyLock(s: LockState, step: Step, t: Txn, p: PageId, m: LockMode)
    requires HoldsAtLeast(HoldersOf(s.holders, p), t, m) && Actor(step) != t
    ensures HoldsAtLeast(HoldersOf(Next(s, step).0.holders, p), t, m)
  {
    OnlyReleaseTakes(s, step, t, p, m);
  }

  /** A lock appears only by a grant to its transaction. */
  lemma OnlyGrantsGive(s: LockState, step: Step, t: Txn, p: PageId, m: LockMode)
    requires !HoldsAtLeast(HoldersOf(s.holders, p), t, m) && HoldsAtLeast(HoldersOf(Next(s, step).0.holders, p), t, m)
    ensures Next(s, step).1 == Granted
    ensures ((step.Enter? || step.Retry?) && step.call.txn == t && step.call.page == p
             && (m == Exclusive ==> step.call.mode == Exclusive))
            || step == Upgrade(t, p)
  {
    hide Grantable, Acyclic;
  }

  /** The calls queued for a page, the longest waiting first. */
  function Queued(s: LockState, p: PageId): seq<Call> {
    if p in s.queue then s.queue[p] else []
  }

  lemma WaitingQueued(s: LockState, c: Call, p: PageId)
    ensures Queued(EnterStep(s, c).0, p)
            == Queued(s, p) + if EnterStep(s, c).1 == Waiting && p == c.page then [c] else []
  {
    hide Grantable, Acyclic, Wanted, AddEdges, RemoveEdges, Others;
    assert Queued(s, p) + [] == Queued(s, p);
  }

  lemma Dequeued(s: LockState, t: Txn, page: PageId, p: PageId, c: Call)
    ensures multiset(Queued(s.(queue := Dequeue(s.queue, t, page)), p))[c]
            == if p == page && c.txn == t then 0 else multiset(Queued(s, p))[c]
  {
    WithoutTxnExact(Queued(s, p), t, c);
  }

  /** A call that has to wait goes to the end of its page's queue; a call that gives up, and a release, take
      the calls of their transaction out of it; and no other step changes any queue. */
  lemma QueueSteps(s: LockState, step: Step, p: PageId, c: Call)
    ensures step.Enter? ==>
              Queued(Next(s, step).0, p)
              == Queued(s, p) + if Next(s, step).1 == Waiting && p == step.call.page then [step.call] else []
    ensures step.TimeOut? || step.Release? ==>
              var page := if step.TimeOut? then step.call.page else step.page;
              multiset(Queued(Next(s, step).0, p))[c]
              == if p == page && c.txn == Actor(step) then 0 else multiset(Queued(s, p))[c]
    ensures step.Retry? || step.DropEdges? || step.Upgrade? || step.ClearTxn? ==>
              Queued(Next(s, step).0, p) == Queued(s, p)
  {
    hide Grantable, EnterStep, Drop, RemoveEdges, ClearEdges, Dequeue;
    match step
    case Enter(d) => WaitingQueued(s, d, p);
    case TimeOut(d) => Dequeued(s, d.txn, d.page, p, c);
    case Release(t, page) => Dequeued(s, t, page, p, c);
    case _ =>
  }

  lemma {:induction false} WithoutTxnExact(calls: seq<Call>, t: Txn, c: Call)
    ensures multiset(WithoutTxn(calls, t))[c] == if c.txn == t then 0 else multiset(calls)[c]
  {
    if calls != [] {
      WithoutTxnExact(calls[1..], t, c);
      assert calls == [calls[0]] + calls[1..];
    }
  }

  // ----- whole runs -----

  ghost predicate StepAt(states: seq<LockState>, steps: seq<Step>, i: int)
    requires 0 <= i < |steps| && |states| == |steps| + 1
  {
    Enabled(states[i], steps[i]) && states[i + 1] == Next(states[i], steps[i]).0
  }

  ghost predicate Run(states: seq<LockState>, steps: seq<Step>) {
    && |states| == |steps| + 1
    && states[0] == Init
    && forall i :: 0 <= i < |steps| ==> StepAt(states, steps, i)
  }

  lemma {:induction false} RunKeepsInv(states: seq<LockState>, steps: seq<Step>, k: nat)
    requires Run(states, steps) && k < |states|
    ensures Inv(states[k])
  {
    if k == 0 {
      RankedIsAcyclic(map[], map[]);
    } else {
      RunKeepsInv(states, steps, k - 1);
      assert StepAt(states, steps, k - 1);
      NextKeepsInv(states[k - 1], steps[k - 1]);
    }
  }

  /** Safety of the protocol: in every state of every run the recorded wait-for graph is
      acyclic, and two transactions that hold the same page both hold it SHARED. */
  lemma MutualExclusion(states: seq<LockState>, steps: seq<Step>, k: nat, p: PageId, t: Txn, u: Txn)
    requires Run(states, steps) && k < |states|
    requires t != u && t in HoldersOf(states[k].holders, p) && u in HoldersOf(states[k].holders, p)
    ensures HoldersOf(states[k].holders, p)[t] == Shared == HoldersOf(states[k].holders, p)[u]
    ensures Acyclic(states[k].edges)
  {
    RunKeepsInv(states, steps, k);
    var hs := HoldersOf(states[k].holders, p);
    if |hs| <= 1 {
      assert {t, u} <= hs.Keys;
      SubsetSize({t, u}, hs.Keys);
      assert false;
    }
  }

  /** Once granted, a lock is held in every later state of the run until its owner releases it. */
  lemma {:induction false} GrantedUntilReleased(states: seq<LockState>, steps: seq<Step>, i: nat, k: nat)
    requires Run(states, steps) && i < k < |states|
    requires steps[i].Enter? || steps[i].Retry?
    requires Next(states[i], steps[i]).1 == Granted
    requires forall j :: i < j < k ==> steps[j] != Release(steps[i].call.txn, steps[i].call.page)
    ensures HoldsAtLeast(HoldersOf(states[k].holders, steps[i].call.page), steps[i].call.txn, steps[i].call.mode)
  {
    hide Next, Enabled;
    if k == i + 1 {
      assert StepAt(states, steps, i);
      GrantGivesMode(states[i], steps[i]);
    } else {
      GrantedUntilReleased(states, steps, i, k - 1);
      assert StepAt(states, steps, k - 1);
      OnlyReleaseTakes(states[k - 1], steps[k - 1], steps[i].call.txn, steps[i].call.page, steps[i].call.mode);
    }
  }

  // ----- where recorded edges and real waits part -----

  /** t has a blocked call on a page that h holds. */
  ghost predicate ReallyWaits(s: LockState, t: Txn, h: Txn) {
    exists c :: c in s.pending && c.txn == t && h in Others(s, c) && !Grantable(s, c)
  }

  /** A request of a transaction that holds nothing on the page conflicts with any present
      holder as soon as one side wants exclusive access. */
  lemma Conflict(hs: Holders, c: Call, t: Txn)
    requires c.txn !in hs && t in hs && (c.mode == Exclusive || hs[t] == Exclusive)
    ensures !Compatible(Wanted(hs, c))
  {
    var w := Wanted(hs, c);
    SubsetSize({t, c.txn}, w.Keys);
    assert w[t] == Exclusive || w[c.txn] == Exclusive;
  }

  /** A conflicting request blocks when the enlarged graph has a rank, i.e. is acyclic. */
  lemma Blocks(s: LockState, c: Call, t: Txn, rank: map<Txn, nat>)
    requires c.txn !in HoldersOf(s.holders, c.page) && t in HoldersOf(s.holders, c.page)
    requires c.mode == Exclusive || HoldersOf(s.holders, c.page)[t] == Exclusive
    requires forall u, v :: Edge(AddEdges(s.edges, c.txn, Others(s, c)), u, v) ==>
               u in rank && v in rank && rank[v] < rank[u]
    ensures Next(s, Enter(c)) ==
            (s.(edges := AddEdges(s.edges, c.txn, Others(s, c)), queue := Enqueue(s.queue, c),
                pending := s.pending + {c}), Waiting)
  {
    hide Compatible, Acyclic;
    Conflict(HoldersOf(s.holders, c.page), c, t);
    RankedIsAcyclic(AddEdges(s.edges, c.txn, Others(s, c)), rank);
  }

  lemma EmptyRun()
    ensures Run([Init], [])
  {
  }

  lemma ExtendRun(states: seq<LockState>, steps: seq<Step>, step: Step)
    returns (states': seq<LockState>, steps': seq<Step>)
    requires Run(states, steps) && Enabled(states[|steps|], step)
    ensures states' == states + [Next(states[|steps|], step).0] && steps' == steps + [step]
    ensures Run(states', steps')
  {
    hide Next;
    states', steps' := states + [Next(states[|steps|], step).0], steps + [step];
    forall i | 0 <= i < |steps'|
      ensures StepAt(states', steps', i)
    {
      assert i < |steps| ==> StepAt(states, steps, i);
    }
  }

  lemma GrantsAlone(s: LockState, c: Call)
    requires c.page !in s.holders
    ensures Grantable(s, c) && Grant(s, c).holders == s.holders[c.page := map[c.txn := c.mode]]
  {
    var hs: Holders := map[];
    assert Wanted(hs, c) == map[c.txn := c.mode];
    assert Wanted(hs, c).Keys == {c.txn};
  }

  lemma GrantsShared(s: LockState, c: Call)
    requires c.mode == Shared && c.page in s.holders
    requires forall t :: t in s.holders[c.page] ==> s.holders[c.page][t] == Shared
    ensures Grantable(s, c) && Grant(s, c).holders == s.holders[c.page := s.holders[c.page][c.txn := Shared]]
  {
  }

  /** 1 blocks on page 7 behind 2, 2 releases, 1 is granted: its edge to 2 is still recorded,
      because the cleanup after a grant looks only at the current holders (1 alone). */
  lemma StaleEdge() returns (states: seq<LockState>, steps: seq<Step>)
    ensures steps == [Enter(Call(2, 7, Exclusive)), Enter(Call(1, 7, Exclusive)), Release(2, 7),
                      Retry(Call(1, 7, Exclusive)), DropEdges(1, {})]
    ensures Run(states, steps) && Others(states[4], Call(1, 7, Exclusive)) == {}
    ensures states[5].holders == map[7 := map[1 := Exclusive]]
    ensures states[5].edges == map[1 := {2}] && states[5].pending == {}
  {
    hide Compatible, Acyclic, Grantable, Run;
    var b, c := Call(2, 7, Exclusive), Call(1, 7, Exclusive);
    EmptyRun();
    states, steps := ExtendRun([Init], [], Enter(b));
    GrantsAlone(Init, b);
    assert Others(states[1], c) == {2};
    states, steps := ExtendRun(states, steps, Enter(c));
    Blocks(states[1], c, 2, map[1 := 1, 2 := 0]);
    assert states[2].edges[1] == {2};
    assert states[2].pending == {c} && states[2].edges == map[1 := {2}];
    states, steps := ExtendRun(states, steps, Release(2, 7));
    states, steps := ExtendRun(states, steps, Retry(c));
    GrantsAlone(states[3], c);
    states, steps := ExtendRun(states, steps, DropEdges(1, {}));
  }

  /** A deadlock reported although nobody waits: with the stale edge 1 -> 2 recorded and no call
      blocked, 2 asks for the page that 1 now holds and is refused. */
  lemma StaleEdgeRefusesWithoutAnyWait(s: LockState)
    requires s.holders == map[7 := map[1 := Exclusive]] && s.edges == map[1 := {2}] && s.pending == {}
    ensures EnterStep(s, Call(2, 7, Shared)).1 == Deadlock
  {
    var d := Call(2, 7, Shared);
    Conflict(s.holders[7], d, 1);
    RankedIsAcyclic(s.edges, map[1 := 1, 2 := 0]);
    assert HasStep(s.edges, [1, 2], 0);
    assert PathFromTo(s.edges, [1, 2], 1, 2);
    assert 1 in Others(s, d);
    NewCycleIffReaches(s.edges, 2, Others(s, d));
  }

  /** A deadlock that is not reported. 2 holds page 8 and blocks on page 7, held SHARED by 1.
      Then 3 is granted page 7 SHARED, for which 2 records no edge, and blocks on page 8. Now 2
      and 3 wait for each other, yet the recorded graph is acyclic. */
  lemma LateHolderHidesDeadlock() returns (states: seq<LockState>, steps: seq<Step>)
    ensures Run(states, steps) && |steps| == 5
    ensures ReallyWaits(states[5], 2, 3) && ReallyWaits(states[5], 3, 2)
    ensures Acyclic(states[5].edges)
  {
    hide Compatible, Acyclic, Grantable, Run;
    var c, d := Call(2, 7, Exclusive), Call(3, 8, Exclusive);
    var b8, a7, c7 := Call(2, 8, Exclusive), Call(1, 7, Shared), Call(3, 7, Shared);
    EmptyRun();
    states, steps := ExtendRun([Init], [], Enter(b8));
    GrantsAlone(Init, b8);
    states, steps := ExtendRun(states, steps, Enter(a7));
    GrantsAlone(states[1], a7);
    states, steps := ExtendRun(states, steps, Enter(c));
    assert Others(states[2], c) == {1};
    Blocks(states[2], c, 1, map[2 := 1, 1 := 0]);
    assert states[3].edges[2] == {1};
    states, steps := ExtendRun(states, steps, Enter(c7));
    GrantsShared(states[3], c7);
    states, steps := ExtendRun(states, steps, Enter(d));
    assert Others(states[4], d) == {2};
    Blocks(states[4], d, 2, map[3 := 2, 2 := 1, 1 := 0]);
    assert states[5].edges[3] == {2};
    RankedIsAcyclic(states[5].edges, map[3 := 2, 2 := 1, 1 := 0]);
    WaitsFor(states[5], c, 3);
    WaitsFor(states[5], d, 2);
  }

  lemma WaitsFor(s: LockState, c: Call, h: Txn)
    requires c in s.pending && c.txn !in HoldersOf(s.holders, c.page) && h in HoldersOf(s.holders, c.page)
    requires c.mode == Exclusive
    ensures ReallyWaits(s, c.txn, h)
  {
    Conflict(HoldersOf(s.holders, c.page), c, h);
    assert h in Others(s, c);
  }
}
