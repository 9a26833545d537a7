/** Cycle detection in the wait-for graph by three-colour depth-first search. */
module DeadlockDetector {
  import opened Wrappers
  import opened WaitForGraph

  datatype Color = White | Gray | Black

  function Reverse(s: seq<Txn>): (r: seq<Txn>)
    ensures |r| == |s|
    ensures forall i {:trigger r[i]} :: 0 <= i < |s| ==> r[i] == s[|s| - 1 - i]
  {
    if s == [] then [] else Reverse(s[1..]) + [s[0]]
  }

  ghost predicate Distinct(p: seq<Txn>) {
    forall i, j :: 0 <= i < j < |p| ==> p[i] != p[j]
  }

  /** What the search reports when the last member of the active path p has an edge back to
      p[k]: the path after p[k], then p[k]. When that edge is a self-edge the walk up the
      parents never meets p[k] again, and the whole path is reported. */
  function Report(p: seq<Txn>, k: nat): seq<Txn>
    requires k < |p|
  {
    if k == |p| - 1 then p + [p[k]] else p[k + 1..] + [p[k]]
  }

  ghost predicate BackEdge(g: Graph, p: seq<Txn>, k: nat) {
    Path(g, p) && Distinct(p) && k < |p| && Edge(g, p[|p| - 1], p[k])
  }

  /** A report is a genuine cycle unless the back edge is a self-edge; then it is one only if
      the self-waiting transaction also waits for the root of the search. */
  lemma ReportIsCycleIff(g: Graph, p: seq<Txn>, k: nat)
    requires BackEdge(g, p, k)
    ensures IsCycle(g, Report(p, k)) <==> k < |p| - 1 || Edge(g, p[|p| - 1], p[0])
    ensures !Acyclic(g)
  {
    SubPath(g, p, k, |p|);
    assert IsCycle(g, p[k..|p|]);
    if k < |p| - 1 {
      SubPath(g, p, k + 1, |p|);
      JoinPaths(g, p[k + 1..|p|], [p[k]]);
      assert p[k + 1..] == p[k + 1..|p|];
      assert HasStep(g, p, k);
    } else {
      JoinPaths(g, p, [p[k]]);
    }
  }

  /** With a self-edge the report can fail to be a cycle: 1 waits for 2, 2 for itself. */
  lemma SelfEdgeReportNotACycle()
    ensures var g := map[1 := {2}, 2 := {2}];
            BackEdge(g, [1, 2], 1) && Report([1, 2], 1) == [1, 2, 2] && !IsCycle(g, [1, 2, 2])
  {
    var g: Graph := map[1 := {2}, 2 := {2}];
    assert HasStep(g, [1, 2], 0);
    assert !Edge(g, 2, 1);
  }

  /** What the search keeps: the active (gray) transactions form the path `stack`, linked by
      `parent`; finished (black) ones have a ghost rank that falls along every edge. */
  ghost predicate SearchInv(g: Graph, color: map<Txn, Color>, parent: map<Txn, Txn>,
                            rank: map<Txn, nat>, stack: seq<Txn>)
  {
    && ColorsAgree(g, color, rank, stack)
    && Distinct(stack)
    && (stack != [] ==> Path(g, stack))
    && ParentsFollow(parent, stack)
    && RankFalls(g, rank)
  }

  ghost predicate ColorsAgree(g: Graph, color: map<Txn, Color>, rank: map<Txn, nat>, stack: seq<Txn>) {
    && (forall u :: u in color ==> color[u] != White && u in Nodes(g))
    && (forall u :: u in stack <==> u in color && color[u] == Gray)
    && (forall u :: u in rank <==> u in color && color[u] == Black)
  }

  ghost predicate RankFalls(g: Graph, rank: map<Txn, nat>) {
    && (forall u, v :: u in rank && Edge(g, u, v) ==> v in rank && rank[v] < rank[u])
    && (forall u :: u in rank ==> rank[u] < |rank|)
  }

  ghost predicate ParentLink(parent: map<Txn, Txn>, stack: seq<Txn>, i: int)
    requires 0 < i < |stack|
  {
    stack[i] in parent && parent[stack[i]] == stack[i - 1]
  }

  ghost predicate ParentsFollow(parent: map<Txn, Txn>, stack: seq<Txn>) {
    && (stack != [] ==> stack[0] !in parent)
    && forall i :: 0 < i < |stack| ==> ParentLink(parent, stack, i)
  }

  /** u may be visited next: it is unvisited and hangs off the end of the active path. */
  ghost predicate MayEnter(g: Graph, color: map<Txn, Color>, parent: map<Txn, Txn>, stack: seq<Txn>, u: Txn) {
    && u !in color && u in Nodes(g)
    && if stack == [] then u !in parent
       else Edge(g, stack[|stack| - 1], u) && u in parent && parent[u] == stack[|stack| - 1]
  }

  lemma EnterKeepsInv(g: Graph, color: map<Txn, Color>, parent: map<Txn, Txn>,
                      rank: map<Txn, nat>, stack: seq<Txn>, u: Txn)
    requires SearchInv(g, color, parent, rank, stack) && MayEnter(g, color, parent, stack, u)
    ensures SearchInv(g, color[u := Gray], parent, rank, stack + [u])
  {
    var stack' := stack + [u];
    if stack != [] {
      JoinPaths(g, stack, [u]);
    }
    forall i | 0 < i < |stack'|
      ensures ParentLink(parent, stack', i)
    {
      assert i < |stack| ==> ParentLink(parent, stack, i);
    }
    assert u in stack';
    assert forall w :: w in stack' <==> w in stack || w == u;
  }

  lemma ParentKeepsInv(g: Graph, color: map<Txn, Color>, parent: map<Txn, Txn>,
                       rank: map<Txn, nat>, stack: seq<Txn>, u: Txn, v: Txn)
    requires SearchInv(g, color, parent, rank, stack) && v !in color
    ensures SearchInv(g, color, parent[v := u], rank, stack)
  {
    assert v !in stack;
    var parent' := parent[v := u];
    forall i | 0 < i < |stack|
      ensures ParentLink(parent', stack, i)
    {
      assert ParentLink(parent, stack, i);
      assert stack[i] in stack;
    }
  }

  lemma LeaveKeepsInv(g: Graph, color: map<Txn, Color>, parent: map<Txn, Txn>,
                      rank: map<Txn, nat>, outer: seq<Txn>, u: Txn)
    requires SearchInv(g, color, parent, rank, outer + [u])
    requires forall v :: Edge(g, u, v) ==> v in rank
    ensures SearchInv(g, color[u := Black], parent, rank[u := |rank|], outer)
  {
    var stack := outer + [u];
    assert stack[|stack| - 1] == u && u in stack;
    if outer != [] {
      SubPath(g, stack, 0, |outer|);
      assert stack[0..|outer|] == outer;
    }
    forall i | 0 < i < |outer|
      ensures ParentLink(parent, outer, i)
    {
      assert ParentLink(parent, stack, i);
    }
    assert forall w :: w in stack <==> w in outer || w == u;
    assert u !in outer;
    assert outer != [] ==> outer[0] == stack[0];
  }

  lemma GrayIsOnPath(g: Graph, color: map<Txn, Color>, rank: map<Txn, nat>, stack: seq<Txn>, v: Txn)
    requires ColorsAgree(g, color, rank, stack) && v in color
    ensures color[v] == Gray ==> v in stack
    ensures color[v] != Gray ==> color[v] == Black && v in rank
  {
  }

  lemma SuccessorIsNode(g: Graph, u: Txn, v: Txn)
    requires Edge(g, u, v)
    ensures v in Nodes(g)
  {
  }

  lemma FinishedIsAcyclic(g: Graph, rank: map<Txn, nat>)
    requires RankFalls(g, rank) && g.Keys <= rank.Keys
    ensures Acyclic(g)
  {
    RankedIsAcyclic(g, rank);
  }

  /** The locals shared by one run of the search. */
  class CycleSearch {
    const graph: Graph
    var color: map<Txn, Color>
    var parent: map<Txn, Txn>
    ghost var rank: map<Txn, nat>
    ghost var stack: seq<Txn>

    ghost predicate Valid()
      reads this
    {
      SearchInv(graph, color, parent, rank, stack)
    }

    constructor (graph: Graph)
      ensures Valid() && this.graph == graph
      ensures color == map[] && stack == [] && parent == map[]
    {
      this.graph := graph;
      color, parent := map[], map[];
      rank, stack := map[], [];
    }

    predicate HasColor(u: Txn, c: Color)
      reads this
    {
      if u in color then color[u] == c else c == White
    }

    /** Follows the parents from u up to v and returns the reported list. */
    method Reconstruct(u: Txn, v: Txn) returns (cycle: seq<Txn>)
      requires Valid() && stack != [] && u == stack[|stack| - 1] && v in stack
      requires Edge(graph, u, v)
      ensures exists k :: BackEdge(graph, stack, k) && cycle == Report(stack, k)
    {
      ghost var j :| 0 <= j < |stack| && stack[j] == v;
      ghost var k := |stack| - 1;
      cycle := [v, u];
      var node := u;
      while node in parent && parent[node] != v
        invariant 0 <= k < |stack| && node == stack[k]
        invariant j == |stack| - 1 || j < k
        invariant |cycle| == |stack| - k + 1
        invariant cycle[0] == v
        invariant forall i {:trigger cycle[i]} :: 0 < i < |cycle| ==> cycle[i] == stack[|stack| - i]
        decreases k
      {
        assert k > 0;
        assert ParentLink(parent, stack, k);
        node := parent[node];
        k := k - 1;
        cycle := cycle + [node];
      }
      if k > 0 {
        assert ParentLink(parent, stack, k);
      }
      assert k == if j == |stack| - 1 then 0 else j + 1;
      cycle := Reverse(cycle);
      assert BackEdge(graph, stack, j) && cycle == Report(stack, j);
    }

    method Dfs(u: Txn) returns (result: Option<seq<Txn>>)
      requires Valid() && MayEnter(graph, color, parent, stack, u)
      modifies this
      ensures old(color).Keys <= color.Keys
      ensures result.None? ==> Valid() && stack == old(stack) && u in rank && u in color && old(rank).Keys <= rank.Keys
      ensures result.None? ==> forall w :: w in parent && w !in color ==> w in old(parent)
      ensures result.Some? ==> exists p, k :: BackEdge(graph, p, k) && result.value == Report(p, k)
      decreases Nodes(graph) - color.Keys
    {
      hide ColorsAgree, RankFalls, ParentsFollow, Path, Nodes, Report, BackEdge;
      ghost var outer := stack;
      EnterKeepsInv(graph, color, parent, rank, stack, u);
      color := color[u := Gray];
      stack := stack + [u];
      var todo := Succ(graph, u);
      while todo != {}
        invariant Valid() && stack == outer + [u] && todo <= Succ(graph, u)
        invariant old(color).Keys + {u} <= color.Keys && old(rank).Keys <= rank.Keys
        invariant forall v :: v in Succ(graph, u) - todo ==> v in rank
        invariant forall w :: w in parent && w !in color ==> w in old(parent)
        decreases todo
      {
        var v := Pick(todo);
        todo := todo - {v};
        if v in color {
          GrayIsOnPath(graph, color, rank, stack, v);
        }
        SuccessorIsNode(graph, u, v);
        if HasColor(v, Gray) {
          var cycle := Reconstruct(u, v);
          return Some(cycle);
        }
        if HasColor(v, White) {
          ParentKeepsInv(graph, color, parent, rank, stack, u, v);
          parent := parent[v := u];
          result := Dfs(v);
          if result.Some? {
            return;
          }
        }
      }
      LeaveKeepsInv(graph, color, parent, rank, outer, u);
      color := color[u := Black];
      rank := rank[u := |rank|];
      stack := outer;
      result := None;
    }
  }

  class DeadlockDetector {
    var waitFor: Graph

    /** No waiter is kept with an empty set. */
    ghost predicate Valid()
      reads this
    {
      forall u :: u in waitFor ==> waitFor[u] != {}
    }

    constructor ()
      ensures Valid() && waitFor == map[]
    {
      waitFor := map[];
    }

    method AddWaitEdge(waiter: Txn, holder: Txn)
      requires Valid()
      modifies this
      ensures Valid() && waitFor == AddEdges(old(waitFor), waiter, {holder})
    {
      waitFor := waitFor[waiter := Succ(waitFor, waiter) + {holder}];
    }

    method RemoveWaitEdge(waiter: Txn, holder: Txn)
      requires Valid()
      modifies this
      ensures Valid() && waitFor == RemoveEdges(old(waitFor), waiter, {holder})
    {
      if waiter in waitFor {
        waitFor := waitFor[waiter := waitFor[waiter] - {holder}];
        if waitFor[waiter] == {} {
          waitFor := waitFor - {waiter};
        }
      }
    }

    lemma ReportGenuine(g: Graph, p: seq<Txn>, k: nat)
      requires BackEdge(g, p, k)
      ensures !Acyclic(g) && (NoSelfEdges(g) ==> IsCycle(g, Report(p, k)))
    {
      hide Path, Report, IsCycle, Acyclic;
      ReportIsCycleIff(g, p, k);
    }

    /** Returns None exactly when no cycle exists. Without self-edges a returned list is a
        genuine cycle. */
    method DetectCycle() returns (result: Option<seq<Txn>>)
      ensures result.None? <==> Acyclic(waitFor)
      ensures result.Some? && NoSelfEdges(waitFor) ==> IsCycle(waitFor, result.value)
      ensures result.Some? ==> exists p, k :: BackEdge(waitFor, p, k) && result.value == Report(p, k)
    {
      hide Path, Report, IsCycle, Acyclic, NoSelfEdges, RankFalls, Edge;
      var search := new CycleSearch(waitFor);
      var todo := waitFor.Keys;
      while todo != {}
        invariant search.Valid() && search.graph == waitFor && search.stack == [] && fresh(search)
        invariant todo <= waitFor.Keys
        invariant waitFor.Keys - todo <= search.rank.Keys
        invariant forall w :: w in search.parent ==> w in search.color
        decreases todo
      {
        var node := Pick(todo);
        todo := todo - {node};
        if search.HasColor(node, White) {
          result := search.Dfs(node);
          if result.Some? {
            ghost var p, k :| BackEdge(waitFor, p, k) && result.value == Report(p, k);
            ReportGenuine(waitFor, p, k);
            return;
          }
        }
      }
      FinishedIsAcyclic(waitFor, search.rank);
      result := None;
    }

    /** Removes every edge from or to txn. */
    method ClearTxn(txn: Txn)
      requires Valid()
      modifies this
      ensures Valid() && waitFor == ClearEdges(old(waitFor), txn)
    {
      waitFor := waitFor - {txn};
      var todo := waitFor.Keys;
      while todo != {}
        invariant todo <= waitFor.Keys <= old(waitFor).Keys - {txn}
        invariant forall u :: u in todo ==> waitFor[u] == old(waitFor)[u]
        invariant forall u :: u in waitFor && u !in todo ==>
                    waitFor[u] == old(waitFor)[u] - {txn} && waitFor[u] != {}
        invariant forall u :: u in old(waitFor) && u != txn && u !in waitFor ==> old(waitFor)[u] - {txn} == {}
        decreases todo
      {
        var waiter := Pick(todo);
        todo := todo - {waiter};
        waitFor := waitFor[waiter := waitFor[waiter] - {txn}];
        if waitFor[waiter] == {} {
          waitFor := waitFor - {waiter};
        }
      }
      ghost var cleared := ClearEdges(old(waitFor), txn);
      assert forall u :: u in waitFor <==> u in cleared;
    }
  }
}
