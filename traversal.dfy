/**
 The two depth-first searches of the validator, `findCycle` and
 `traverseNodes`. In the source they are recursive closures that update sets
 declared around them; here each is a recursive method that receives those
 sets and hands back their new values. The ghost parameter `universe` (the
 start id and every edge target) bounds the ids a search can visit, which
 is what makes the recursion terminate.
 */
module Traversal {
  import opened FlowGraph

  // ---------------------------------------------------------------------
  // findCycle
  // ---------------------------------------------------------------------

  /** A ranking of the finished nodes: every edge that leaves a finished
      node enters a finished node of lower rank. */
  ghost predicate Ranked(edges: seq<Edge>, rank: map<Id, nat>)
  {
    forall i :: 0 <= i < |edges| && edges[i].source in rank ==>
      edges[i].target in rank && rank[edges[i].target] < rank[edges[i].source]
  }

  /** Ranks are finishing times: each is below the current time. */
  ghost predicate Clocked(rank: map<Id, nat>, time: nat)
  {
    forall v :: v in rank ==> rank[v] < time
  }

  /** Ranks strictly fall along a chain that starts at a ranked node. */
  lemma {:induction false} RankFallsAlongChain(edges: seq<Edge>, rank: map<Id, nat>, q: seq<Edge>)
    requires Ranked(edges, rank) && IsChain(edges, q) && q != [] && q[0].source in rank
    ensures q[|q| - 1].target in rank && rank[q[|q| - 1].target] < rank[q[0].source]
  {
    var e := q[|q| - 1];
    assert e in edges;
    var k :| 0 <= k < |edges| && edges[k] == e;
    if |q| > 1 {
      var init := q[..|q| - 1];
      assert IsChain(edges, init);
      RankFallsAlongChain(edges, rank, init);
      assert e.source == init[|init| - 1].target;
    }
  }

  /** No cycle can be entered from a ranked root. */
  lemma RankedForbidsCycle(edges: seq<Edge>, root: Id, rank: map<Id, nat>)
    requires root in rank && Ranked(edges, rank)
    ensures !ReachableCycle(edges, root)
  {
    if ReachableCycle(edges, root) {
      var v :| Reaches(edges, root, v) && OnCycle(edges, v);
      assert ClosedFrom(edges, rank.Keys, rank.Keys);
      ReachableIsLeast(edges, root, rank.Keys, v);
      var q: seq<Edge> :| IsChain(edges, q) && q != [] && q[0].source == v && q[|q| - 1].target == v;
      RankFallsAlongChain(edges, rank, q);
      assert false;
    }
  }

  /** Finishing a node whose every outgoing edge enters a finished node
      gives it the next rank and keeps the ranking. */
  lemma FinishNode(edges: seq<Edge>, rank: map<Id, nat>, time: nat, nodeId: Id)
    requires Ranked(edges, rank) && Clocked(rank, time) && nodeId !in rank
    requires forall j :: 0 <= j < |Outgoing(edges, nodeId)| ==> Outgoing(edges, nodeId)[j].target in rank
    ensures Ranked(edges, rank[nodeId := time]) && Clocked(rank[nodeId := time], time + 1)
  {
    var rank' := rank[nodeId := time];
    forall i | 0 <= i < |edges| && edges[i].source in rank'
      ensures edges[i].target in rank' && rank'[edges[i].target] < rank'[edges[i].source]
    {
      if edges[i].source == nodeId {
        assert edges[i] in Outgoing(edges, nodeId);
        var j :| 0 <= j < |Outgoing(edges, nodeId)| && Outgoing(edges, nodeId)[j] == edges[i];
      }
    }
  }

  /**
   findCycle(nodeId, path): `visited` holds every node the search has
   entered, `recursionStack` the nodes on the current path, and `cycleEdges`
   receives the ids of the whole path from the start when a back edge is
   found. `rank` and `cyclePath` are proof-only.
   */
  method FindCycle(edges: seq<Edge>, nodeId: Id, path: seq<Edge>,
                   visited: set<Id>, recursionStack: set<Id>, cycleEdges: seq<Id>,
                   ghost root: Id, ghost universe: set<Id>, ghost rank: map<Id, nat>, ghost time: nat)
    returns (found: bool, visited': set<Id>, recursionStack': set<Id>, cycleEdges': seq<Id>,
             ghost rank': map<Id, nat>, ghost time': nat, ghost cyclePath: seq<Edge>)
    requires nodeId in universe && Targets(edges) <= universe
    requires recursionStack <= visited && nodeId !in recursionStack
    requires IsPathFrom(edges, root, path) && EndOf(root, path) == nodeId
    requires recursionStack == Sources(path)
    requires rank.Keys == visited - recursionStack && Ranked(edges, rank) && Clocked(rank, time)
    ensures recursionStack' <= visited' && visited <= visited'
    ensures found ==> IsCycleWitness(edges, root, cyclePath) && cycleEdges' == cycleEdges + EdgeIds(cyclePath)
    ensures !found ==> recursionStack' == recursionStack && cycleEdges' == cycleEdges && nodeId in rank'
    ensures !found ==> rank'.Keys == visited' - recursionStack' && Ranked(edges, rank') && Clocked(rank', time')
    decreases universe - visited
  {
    visited', recursionStack', cycleEdges', rank', time', cyclePath :=
      visited, recursionStack, cycleEdges, rank, time, [];
    found := false;
    if nodeId !in visited' {
      visited' := visited' + {nodeId};
      recursionStack' := recursionStack' + {nodeId};
      var outgoingEdges := Outgoing(edges, nodeId);
      for i := 0 to |outgoingEdges|
        invariant visited + {nodeId} <= visited'
        invariant recursionStack' == recursionStack + {nodeId} && recursionStack' <= visited'
        invariant cycleEdges' == cycleEdges
        invariant rank'.Keys == visited' - recursionStack' && Ranked(edges, rank') && Clocked(rank', time')
        invariant forall j :: 0 <= j < i ==> outgoingEdges[j].target in rank'
      {
        var edge := outgoingEdges[i];
        var currentPath := path + [edge];
        assert edge in outgoingEdges;
        assert edge in edges && edge.source == nodeId;
        ExtendPath(edges, root, path, edge);
        if edge.target !in visited' {
          assert edge.target in universe by {
            var k :| 0 <= k < |edges| && edges[k] == edge;
          }
          assert nodeId in (universe - visited) && nodeId !in (universe - visited');
          found, visited', recursionStack', cycleEdges', rank', time', cyclePath :=
            FindCycle(edges, edge.target, currentPath, visited', recursionStack', cycleEdges',
                      root, universe, rank', time');
          if found {
            return;
          }
        }
        if edge.target in recursionStack' {
          cycleEdges' := cycleEdges' + EdgeIds(currentPath);
          cyclePath := currentPath;
          found := true;
          return;
        }
      }
      FinishNode(edges, rank', time', nodeId);
      rank', time' := rank'[nodeId := time'], time' + 1;
    }
    recursionStack' := recursionStack' - {nodeId};
  }

  /**
   The cycle check for a flowchart with exactly one start node: run
   findCycle from the start with empty sets. It reports a cycle exactly when
   one can be entered from the start, and the edge ids it records are those
   of a walk from the start whose last edge closes a cycle.
   */
  method DetectCycle(edges: seq<Edge>, startId: Id) returns (found: bool, cycleEdges: seq<Id>)
    ensures found <==> ReachableCycle(edges, startId)
    ensures found ==> exists p :: IsCycleWitness(edges, startId, p) && cycleEdges == EdgeIds(p)
    ensures !found ==> cycleEdges == []
  {
    ghost var rank: map<Id, nat>, time: nat, cyclePath: seq<Edge>;
    var visited: set<Id>, recursionStack: set<Id>;
    assert IsPathFrom(edges, startId, []);
    assert Sources([]) == {};
    found, visited, recursionStack, cycleEdges, rank, time, cyclePath :=
      FindCycle(edges, startId, [], {}, {}, [], startId, Targets(edges) + {startId}, map[], 0);
    if found {
      WitnessHasCycle(edges, startId, cyclePath);
      assert cycleEdges == EdgeIds(cyclePath);
    } else {
      RankedForbidsCycle(edges, startId, rank);
    }
  }

  // ---------------------------------------------------------------------
  // traverseNodes
  // ---------------------------------------------------------------------

  /**
   traverseNodes(nodeId): adds `nodeId` to `reachable`, then enters every
   not yet reached target of an edge leaving it. Every node it adds is
   reachable from `root`, and every edge leaving a node it adds ends in the
   final set.
   */
  method TraverseNodes(edges: seq<Edge>, nodeId: Id, reachable: set<Id>,
                       ghost root: Id, ghost universe: set<Id>)
    returns (reachable': set<Id>)
    requires nodeId in universe && Targets(edges) <= universe
    requires nodeId !in reachable
    requires Reaches(edges, root, nodeId)
    requires forall v :: v in reachable ==> Reaches(edges, root, v)
    ensures reachable + {nodeId} <= reachable'
    ensures forall v :: v in reachable' ==> Reaches(edges, root, v)
    ensures ClosedFrom(edges, reachable' - reachable, reachable')
    decreases universe - reachable
  {
    reachable' := reachable + {nodeId};
    var outgoingEdges := Outgoing(edges, nodeId);
    for i := 0 to |outgoingEdges|
      invariant reachable + {nodeId} <= reachable'
      invariant forall v :: v in reachable' ==> Reaches(edges, root, v)
      invariant ClosedFrom(edges, reachable' - reachable - {nodeId}, reachable')
      invariant forall j :: 0 <= j < i ==> outgoingEdges[j].target in reachable'
    {
      var edge := outgoingEdges[i];
      assert edge in outgoingEdges;
      assert edge in edges && edge.source == nodeId;
      if edge.target !in reachable' {
        ReachesStep(edges, root, edge);
        assert edge.target in universe by {
          var k :| 0 <= k < |edges| && edges[k] == edge;
        }
        assert nodeId in (universe - reachable) && nodeId !in (universe - reachable');
        ghost var before := reachable';
        reachable' := TraverseNodes(edges, edge.target, reachable', root, universe);
        assert reachable' - reachable - {nodeId} <= (before - reachable - {nodeId}) + (reachable' - before);
      }
    }
    forall k | 0 <= k < |edges| && edges[k].source == nodeId
      ensures edges[k].target in reachable'
    {
      assert edges[k] in outgoingEdges;
      var j :| 0 <= j < |outgoingEdges| && outgoingEdges[j] == edges[k];
    }
  }

  /**
   The reachability sweep for a flowchart with exactly one start node: the
   set traverseNodes builds from the start is exactly the set of ids
   reachable from it, so it holds the start and is closed under following
   edges (and by ReachableIsLeast it is the least such set).
   */
  method ReachableFrom(edges: seq<Edge>, startId: Id) returns (reachable: set<Id>)
    ensures startId in reachable
    ensures ClosedFrom(edges, reachable, reachable)
    ensures forall v :: v in reachable <==> Reaches(edges, startId, v)
  {
    ReachesRoot(edges, startId);
    reachable := TraverseNodes(edges, startId, {}, startId, Targets(edges) + {startId});
    forall v | Reaches(edges, startId, v)
      ensures v in reachable
    {
      ReachableIsLeast(edges, startId, reachable, v);
    }
  }
}
