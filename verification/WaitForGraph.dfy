/** Directed graphs over transaction ids, as stored by the deadlock detector:
    each waiter maps to the set of transactions it waits for. */
module WaitForGraph {
  type Txn = int
  type Graph = map<Txn, set<Txn>>

  function Succ(g: Graph, u: Txn): set<Txn> {
    if u in g then g[u] else {}
  }

  predicate Edge(g: Graph, u: Txn, v: Txn) {
    v in Succ(g, u)
  }

  /** Every transaction that occurs in g. */
  ghost function Nodes(g: Graph): set<Txn> {
    g.Keys + set u, v | u in g && v in g[u] :: v
  }

  ghost predicate HasStep(g: Graph, p: seq<Txn>, i: int)
    requires 0 <= i < |p| - 1
  {
    Edge(g, p[i], p[i + 1])
  }

  /** p is a nonempty walk along edges of g. */
  ghost predicate Path(g: Graph, p: seq<Txn>) {
    && |p| >= 1
    && forall i :: 0 <= i < |p| - 1 ==> HasStep(g, p, i)
  }

  /** Consecutive members of c, and its last and first member, are joined by edges. */
  ghost predicate IsCycle(g: Graph, c: seq<Txn>) {
    Path(g, c) && Edge(g, c[|c| - 1], c[0])
  }

  ghost predicate Acyclic(g: Graph) {
    forall c: seq<Txn> :: !IsCycle(g, c)
  }

  ghost predicate NoSelfEdges(g: Graph) {
    forall u :: u in g ==> u !in g[u]
  }

  ghost predicate PathFromTo(g: Graph, p: seq<Txn>, u: Txn, v: Txn) {
    Path(g, p) && p[0] == u && p[|p| - 1] == v
  }

  /** v can be reached from u along zero or more edges. */
  ghost predicate Reaches(g: Graph, u: Txn, v: Txn) {
    exists p: seq<Txn> :: PathFromTo(g, p, u, v)
  }

  ghost predicate Subgraph(g: Graph, h: Graph) {
    forall u, v :: Edge(g, u, v) ==> Edge(h, u, v)
  }

  lemma PathInSupergraph(g: Graph, h: Graph, p: seq<Txn>)
    requires Subgraph(g, h) && Path(g, p)
    ensures Path(h, p)
  {
    forall i | 0 <= i < |p| - 1
      ensures HasStep(h, p, i)
    {
      assert HasStep(g, p, i);
    }
  }

  lemma SubgraphOfAcyclic(g: Graph, h: Graph)
    requires Subgraph(g, h) && Acyclic(h)
    ensures Acyclic(g)
  {
    forall c: seq<Txn> | IsCycle(g, c)
      ensures false
    {
      PathInSupergraph(g, h, c);
      assert IsCycle(h, c);
    }
  }

  lemma AcyclicHasNoSelfEdges(g: Graph)
    requires Acyclic(g)
    ensures NoSelfEdges(g)
  {
    forall u | u in g && u in g[u]
      ensures false
    {
      assert IsCycle(g, [u]);
    }
  }

  /** A slice of a path is a path. */
  lemma SubPath(g: Graph, p: seq<Txn>, lo: nat, hi: nat)
    requires Path(g, p) && lo < hi <= |p|
    ensures Path(g, p[lo..hi])
  {
    forall i | 0 <= i < hi - lo - 1
      ensures HasStep(g, p[lo..hi], i)
    {
      assert HasStep(g, p, lo + i);
    }
  }

  lemma JoinPaths(g: Graph, p: seq<Txn>, q: seq<Txn>)
    requires Path(g, p) && Path(g, q) && Edge(g, p[|p| - 1], q[0])
    ensures Path(g, p + q)
  {
    var r := p + q;
    forall i | 0 <= i < |r| - 1
      ensures HasStep(g, r, i)
    {
      if i < |p| - 1 {
        assert HasStep(g, p, i);
      } else if i > |p| - 1 {
        assert HasStep(g, q, i - |p|);
      }
    }
  }

  /** A cycle may be read off starting at any of its members. */
  lemma RotateCycle(g: Graph, c: seq<Txn>, k: nat) returns (r: seq<Txn>)
    requires IsCycle(g, c) && k < |c|
    ensures IsCycle(g, r) && r[0] == c[k]
    ensures |r| == |c|
  {
    if k == 0 {
      r := c;
    } else {
      SubPath(g, c, k, |c|);
      SubPath(g, c, 0, k);
      JoinPaths(g, c[k..|c|], c[0..k]);
      r := c[k..|c|] + c[0..k];
      assert HasStep(g, c, k - 1);
    }
  }

  /** Ranks that strictly fall along every edge rule out cycles. */
  lemma RankedIsAcyclic(g: Graph, rank: map<Txn, nat>)
    requires forall u, v :: Edge(g, u, v) ==> u in rank && v in rank && rank[v] < rank[u]
    ensures Acyclic(g)
  {
    forall c: seq<Txn> | IsCycle(g, c)
      ensures false
    {
      RankFallsAlong(g, rank, c);
    }
  }

  lemma {:induction false} RankFallsAlong(g: Graph, rank: map<Txn, nat>, p: seq<Txn>)
    requires forall u, v :: Edge(g, u, v) ==> u in rank && v in rank && rank[v] < rank[u]
    requires Path(g, p)
    ensures |p| == 1 || (p[0] in rank && p[|p| - 1] in rank && rank[p[|p| - 1]] < rank[p[0]])
  {
    if |p| > 1 {
      assert HasStep(g, p, |p| - 2);
      SubPath(g, p, 0, |p| - 1);
      RankFallsAlong(g, rank, p[0..|p| - 1]);
    }
  }

  // ----- adding and removing the edges of one waiter -----

  function AddEdges(g: Graph, t: Txn, hs: set<Txn>): Graph {
    if hs == {} then g else g[t := Succ(g, t) + hs]
  }

  function RemoveEdges(g: Graph, t: Txn, hs: set<Txn>): Graph {
    if t !in g then g
    else if hs == {} then g
    else if g[t] - hs == {} then g - {t}
    else g[t := g[t] - hs]
  }

  /** g without the edges from or to t. */
  function ClearEdges(g: Graph, t: Txn): Graph {
    map u | u in g && u != t && g[u] - {t} != {} :: g[u] - {t}
  }

  lemma ClearEdgesIsSubgraph(g: Graph, t: Txn)
    ensures Subgraph(ClearEdges(g, t), g)
    ensures forall u, v :: Edge(ClearEdges(g, t), u, v) <==> Edge(g, u, v) && u != t && v != t
  {
  }

  lemma RemoveEdgesIsSubgraph(g: Graph, t: Txn, hs: set<Txn>)
    ensures Subgraph(RemoveEdges(g, t, hs), g)
  {
  }

  /** The heart of deadlock prevention: adding edges t -> hs to an acyclic graph closes a
      cycle exactly when some member of hs already reached t. */
  lemma NewCycleIffReaches(g: Graph, t: Txn, hs: set<Txn>)
    requires Acyclic(g) && t !in hs
    ensures !Acyclic(AddEdges(g, t, hs)) <==> exists h :: h in hs && Reaches(g, h, t)
  {
    var g' := AddEdges(g, t, hs);
    if h :| h in hs && Reaches(g, h, t) {
      var p :| PathFromTo(g, p, h, t);
      PathInSupergraph(g, g', p);
      assert IsCycle(g', p);
    }
    if !Acyclic(g') {
      var c :| IsCycle(g', c);
      var h := CycleUsesNewEdge(g, t, hs, c);
    }
  }

  lemma CycleUsesNewEdge(g: Graph, t: Txn, hs: set<Txn>, c: seq<Txn>) returns (h: Txn)
    requires Acyclic(g) && t !in hs
    requires IsCycle(AddEdges(g, t, hs), c)
    ensures h in hs && Reaches(g, h, t)
  {
    var g' := AddEdges(g, t, hs);
    if t !in c {
      forall i | 0 <= i < |c| - 1
        ensures HasStep(g, c, i)
      {
        assert HasStep(g', c, i);
      }
      assert IsCycle(g, c);
      assert false;
    }
    var k :| 0 <= k < |c| && c[k] == t;
    var r := RotateCycle(g', c, k);
    // s: what follows the last visit to t
    var m := LastVisit(r, t);
    if m == |r| - 1 {
      assert Edge(g', t, t);
      assert IsCycle(g, [t]);
      assert false;
    }
    var s := r[m + 1..|r|];
    SubPath(g', r, m + 1, |r|);
    forall i | 0 <= i < |s| - 1
      ensures HasStep(g, s, i)
    {
      assert HasStep(g', s, i);
      assert s[i] == r[m + 1 + i];
    }
    assert Edge(g, s[|s| - 1], t);
    JoinPaths(g, s, [t]);
    h := s[0];
    assert PathFromTo(g, s + [t], h, t);
    assert HasStep(g', r, m);
    assert !IsCycle(g, s + [t]);
  }

  lemma LastVisit(r: seq<Txn>, t: Txn) returns (m: nat)
    requires |r| > 0 && r[0] == t
    ensures m < |r| && r[m] == t
    ensures forall i :: m < i < |r| ==> r[i] != t
  {
    m := |r| - 1;
    while r[m] != t
      invariant m < |r|
      invariant forall i :: m < i < |r| ==> r[i] != t
      decreases m
    {
      m := m - 1;
    }
  }
}
