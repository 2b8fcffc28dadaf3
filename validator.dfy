/**
 validateFlowchart: the ordered sequence of structural checks over a
 flowchart snapshot, the issues each check emits, and the verdict.

 `ValidateFlowchart` builds the issue list push by push, as the source does.
 The functions below it say, check by check, which issues each push adds;
 `IsReport` joins them in emission order, and the lemmas at the end state
 what the whole report says about the graph.
 */
module Validator {
  import opened FlowGraph
  import opened Issues
  import opened Traversal

  // ---------------------------------------------------------------------
  // Node and edge predicates the checks filter by
  // ---------------------------------------------------------------------

  /** Some edge leaves or enters `id`. */
  predicate Touches(edges: seq<Edge>, id: Id)
  {
    exists i :: 0 <= i < |edges| && (edges[i].source == id || edges[i].target == id)
  }

  function Untouched(edges: seq<Edge>): Node -> bool
  {
    (n: Node) => !Touches(edges, n.id)
  }

  function HasOutgoing(edges: seq<Edge>): Node -> bool
  {
    (n: Node) => |Outgoing(edges, n.id)| > 0
  }

  function LacksOutgoing(edges: seq<Edge>): Node -> bool
  {
    (n: Node) => |Outgoing(edges, n.id)| == 0
  }

  ghost function Unreached(edges: seq<Edge>, root: Id): Node -> bool
  {
    (n: Node) => !Reaches(edges, root, n.id)
  }

  // ---------------------------------------------------------------------
  // The issues each check emits
  // ---------------------------------------------------------------------

  /** Start-node cardinality. */
  function StartIssues(nodes: seq<Node>): seq<Issue>
  {
    var startNodes := Filter(nodes, IsStart);
    if |startNodes| == 0 then [Issue(Error, MissingStart, None, None)]
    else if |startNodes| > 1 then [Issue(Error, MultipleStarts, Some(NodeIds(startNodes)), None)]
    else []
  }

  /** End-node existence. */
  function EndIssues(nodes: seq<Node>): seq<Issue>
  {
    if |Filter(nodes, IsEnd)| == 0 then [Issue(Error, MissingEnd, None, None)] else []
  }

  /** Nodes that no edge touches. */
  function UnconnectedIssues(nodes: seq<Node>, edges: seq<Edge>): seq<Issue>
  {
    var unconnected := Filter(nodes, Untouched(edges));
    if |unconnected| > 0 then
      [Issue(Error, UnconnectedNodes(|unconnected|), Some(NodeIds(unconnected)), None)]
    else []
  }

  /** Edges into the start node (looked at only with exactly one start node). */
  function StartIncomingIssues(nodes: seq<Node>, edges: seq<Edge>): seq<Issue>
  {
    var startNodes := Filter(nodes, IsStart);
    if |startNodes| == 1 then
      var incoming := Incoming(edges, startNodes[0].id);
      if |incoming| > 0 then
        [Issue(Error, StartHasIncoming, Some([startNodes[0].id]), Some(EdgeIds(incoming)))]
      else []
    else []
  }

  /** The error for an end node `n` with outgoing edges. */
  function EndOutgoingError(n: Node, edges: seq<Edge>): Issue
  {
    Issue(Error, EndHasOutgoing, Some([n.id]), Some(EdgeIds(Outgoing(edges, n.id))))
  }

  /** The warning for a non-end node `n` without outgoing edges. */
  function DeadEndWarning(n: Node): Issue
  {
    Issue(Warning, NoOutgoing(n.caption), Some([n.id]), None)
  }

  /** The loop over the end nodes: one error per end node with outgoing
      edges, in node order. */
  function EndOutgoingIssues(ends: seq<Node>, edges: seq<Edge>): (r: seq<Issue>)
    ensures |r| == |Filter(ends, HasOutgoing(edges))|
    ensures forall i :: 0 <= i < |r| ==> r[i] == EndOutgoingError(Filter(ends, HasOutgoing(edges))[i], edges)
  {
    if ends == [] then []
    else
      var init, last := ends[..|ends| - 1], ends[|ends| - 1];
      assert ends == init + [last];
      FilterConcat(init, [last], HasOutgoing(edges));
      FilterSingle(last, HasOutgoing(edges));
      EndOutgoingIssues(init, edges)
      + if |Outgoing(edges, last.id)| > 0 then [EndOutgoingError(last, edges)] else []
  }

  /** The loop over the non-end nodes: one warning per node without outgoing
      edges, in node order. */
  function DeadEndIssues(ns: seq<Node>, edges: seq<Edge>): (r: seq<Issue>)
    ensures |r| == |Filter(ns, LacksOutgoing(edges))|
    ensures forall i :: 0 <= i < |r| ==> r[i] == DeadEndWarning(Filter(ns, LacksOutgoing(edges))[i])
  {
    if ns == [] then []
    else
      var init, last := ns[..|ns| - 1], ns[|ns| - 1];
      assert ns == init + [last];
      FilterConcat(init, [last], LacksOutgoing(edges));
      FilterSingle(last, LacksOutgoing(edges));
      DeadEndIssues(init, edges)
      + if |Outgoing(edges, last.id)| == 0 then [DeadEndWarning(last)] else []
  }

  /** One more pass of the loop over the end nodes, on top of what was
      pushed before the loop. */
  lemma EndOutgoingSnoc(issues: seq<Issue>, ends: seq<Node>, k: nat, edges: seq<Edge>)
    requires k < |ends|
    ensures issues + EndOutgoingIssues(ends[..k + 1], edges)
            == issues + EndOutgoingIssues(ends[..k], edges)
               + if |Outgoing(edges, ends[k].id)| > 0 then [EndOutgoingError(ends[k], edges)] else []
  {
    assert ends[..k + 1][..k] == ends[..k];
  }

  /** One more pass of the loop over the non-end nodes, on top of what was
      pushed before the loop. */
  lemma DeadEndSnoc(issues: seq<Issue>, ns: seq<Node>, k: nat, edges: seq<Edge>)
    requires k < |ns|
    ensures issues + DeadEndIssues(ns[..k + 1], edges)
            == issues + DeadEndIssues(ns[..k], edges)
               + if |Outgoing(edges, ns[k].id)| == 0 then [DeadEndWarning(ns[k])] else []
  {
    assert ns[..k + 1][..k] == ns[..k];
  }

  /** The issues of the checks that run before the cycle search. */
  function StructuralIssues(nodes: seq<Node>, edges: seq<Edge>): seq<Issue>
  {
    StartIssues(nodes) + EndIssues(nodes) + UnconnectedIssues(nodes, edges)
    + StartIncomingIssues(nodes, edges)
    + EndOutgoingIssues(Filter(nodes, IsEnd), edges)
    + DeadEndIssues(Filter(nodes, IsNotEnd), edges)
  }

  /** The cycle check: with exactly one start node from which a cycle can be
      entered, one warning listing, without repeats, the edge ids of a walk
      from the start whose last edge closes a cycle; otherwise nothing. */
  ghost predicate CycleIssues(nodes: seq<Node>, edges: seq<Edge>, c: seq<Issue>)
  {
    var startNodes := Filter(nodes, IsStart);
    if |startNodes| == 1 && ReachableCycle(edges, startNodes[0].id) then
      exists p :: IsCycleWitness(edges, startNodes[0].id, p)
                  && c == [Issue(Warning, CycleDetected, None, Some(Dedup(EdgeIds(p))))]
    else c == []
  }

  /** The reachability check (only with exactly one start node). */
  ghost function UnreachableIssues(nodes: seq<Node>, edges: seq<Edge>): seq<Issue>
  {
    var startNodes := Filter(nodes, IsStart);
    if |startNodes| == 1 then
      var unreachable := Filter(nodes, Unreached(edges, startNodes[0].id));
      if |unreachable| > 0 then
        [Issue(Warning, UnreachableNodes(|unreachable|), Some(NodeIds(unreachable)), None)]
      else []
    else []
  }

  /** `issues` is what the checks emit for a non-empty flowchart, in order. */
  ghost predicate IsReport(nodes: seq<Node>, edges: seq<Edge>, issues: seq<Issue>)
  {
    exists c :: CycleIssues(nodes, edges, c)
                && issues == StructuralIssues(nodes, edges) + c + UnreachableIssues(nodes, edges)
  }

  // ---------------------------------------------------------------------
  // The validator
  // ---------------------------------------------------------------------

  /** The `forEach` that gathers every id an edge leaves or enters. */
  method ConnectedNodeIds(edges: seq<Edge>) returns (connected: set<Id>)
    ensures forall id :: id in connected <==> Touches(edges, id)
  {
    connected := {};
    for i := 0 to |edges|
      invariant forall id :: id in connected <==> Touches(edges[..i], id)
    {
      connected := connected + {edges[i].source};
      connected := connected + {edges[i].target};
      assert forall j :: 0 <= j < i ==> edges[..i + 1][j] == edges[..i][j];
      assert edges[..i + 1][i] == edges[i];
    }
    assert edges[..|edges|] == edges;
  }

  /** The loop over the end nodes, pushing an error for each one that has
      outgoing edges. */
  method PushEndOutgoingErrors(issues: seq<Issue>, endNodes: seq<Node>, edges: seq<Edge>)
    returns (issues': seq<Issue>)
    ensures issues' == issues + EndOutgoingIssues(endNodes, edges)
  {
    issues' := issues;
    for k := 0 to |endNodes|
      invariant issues' == issues + EndOutgoingIssues(endNodes[..k], edges)
    {
      var endNode := endNodes[k];
      var endNodeOutgoing := Outgoing(edges, endNode.id);
      EndOutgoingSnoc(issues, endNodes, k, edges);
      if |endNodeOutgoing| > 0 {
        issues' := issues' + [Issue(Error, EndHasOutgoing, Some([endNode.id]),
                                    Some(EdgeIds(endNodeOutgoing)))];
        assert issues' == issues + EndOutgoingIssues(endNodes[..k], edges) + [EndOutgoingError(endNode, edges)];
      } else {
        assert issues + EndOutgoingIssues(endNodes[..k], edges) + [] == issues';
      }
    }
    assert endNodes[..|endNodes|] == endNodes;
  }

  /** The loop over the non-end nodes, pushing a warning for each one that
      has no outgoing edge. */
  method PushDeadEndWarnings(issues: seq<Issue>, nonEndNodes: seq<Node>, edges: seq<Edge>)
    returns (issues': seq<Issue>)
    ensures issues' == issues + DeadEndIssues(nonEndNodes, edges)
  {
    issues' := issues;
    for k := 0 to |nonEndNodes|
      invariant issues' == issues + DeadEndIssues(nonEndNodes[..k], edges)
    {
      var node := nonEndNodes[k];
      var outgoingEdges := Outgoing(edges, node.id);
      DeadEndSnoc(issues, nonEndNodes, k, edges);
      if |outgoingEdges| == 0 {
        issues' := issues' + [Issue(Warning, NoOutgoing(node.caption), Some([node.id]), None)];
        assert issues' == issues + DeadEndIssues(nonEndNodes[..k], edges) + [DeadEndWarning(node)];
      } else {
        assert issues + DeadEndIssues(nonEndNodes[..k], edges) + [] == issues';
      }
    }
    assert nonEndNodes[..|nonEndNodes|] == nonEndNodes;
  }

  /** The checks before the cycle search, pushed in order: start count, end
      existence, unconnected nodes, edges into the start, edges out of end
      nodes, nodes without outgoing edges. */
  method StructuralChecks(nodes: seq<Node>, edges: seq<Edge>) returns (issues: seq<Issue>)
    ensures issues == StructuralIssues(nodes, edges)
  {
    issues := [];

    var startNodes := Filter(nodes, IsStart);
    if |startNodes| == 0 {
      issues := issues + [Issue(Error, MissingStart, None, None)];
    } else if |startNodes| > 1 {
      issues := issues + [Issue(Error, MultipleStarts, Some(NodeIds(startNodes)), None)];
    }
    assert issues == StartIssues(nodes);

    var endNodes := Filter(nodes, IsEnd);
    if |endNodes| == 0 {
      issues := issues + [Issue(Error, MissingEnd, None, None)];
    }
    assert issues == StartIssues(nodes) + EndIssues(nodes);
    ghost var checked := issues;

    var connectedNodeIds := ConnectedNodeIds(edges);
    var unconnectedNodes := Filter(nodes, Outside(connectedNodeIds));
    FilterExt(nodes, Outside(connectedNodeIds), Untouched(edges));
    if |unconnectedNodes| > 0 {
      issues := issues + [Issue(Error, UnconnectedNodes(|unconnectedNodes|),
                                Some(NodeIds(unconnectedNodes)), None)];
    }
    assert issues == checked + UnconnectedIssues(nodes, edges);
    checked := issues;

    if |startNodes| == 1 {
      var startNodeId := startNodes[0].id;
      var startNodeIncoming := Incoming(edges, startNodeId);
      if |startNodeIncoming| > 0 {
        issues := issues + [Issue(Error, StartHasIncoming, Some([startNodeId]),
                                  Some(EdgeIds(startNodeIncoming)))];
      }
    }
    assert issues == checked + StartIncomingIssues(nodes, edges);
    assert issues == StartIssues(nodes) + EndIssues(nodes) + UnconnectedIssues(nodes, edges)
                     + StartIncomingIssues(nodes, edges);

    issues := PushEndOutgoingErrors(issues, endNodes, edges);
    var nonEndNodes := Filter(nodes, IsNotEnd);
    issues := PushDeadEndWarnings(issues, nonEndNodes, edges);
  }

  /** The cycle check: with exactly one start node, search for a cycle from
      it and, when one is found, warn once with the recorded edge ids
      without repeats. */
  method CycleCheck(nodes: seq<Node>, edges: seq<Edge>, startNodes: seq<Node>)
    returns (cycleIssues: seq<Issue>)
    requires startNodes == Filter(nodes, IsStart)
    ensures CycleIssues(nodes, edges, cycleIssues)
  {
    cycleIssues := [];
    if |startNodes| == 1 {
      var found, cycleEdges := DetectCycle(edges, startNodes[0].id);
      if found {
        cycleIssues := [Issue(Warning, CycleDetected, None, Some(Dedup(cycleEdges)))];
      }
    }
  }

  /** The reachability check: with exactly one start node, warn once about
      the nodes the sweep from the start does not reach. */
  method ReachabilityCheck(nodes: seq<Node>, edges: seq<Edge>, startNodes: seq<Node>)
    returns (unreachableIssues: seq<Issue>)
    requires startNodes == Filter(nodes, IsStart)
    ensures unreachableIssues == UnreachableIssues(nodes, edges)
  {
    unreachableIssues := [];
    if |startNodes| == 1 {
      var startNodeId := startNodes[0].id;
      var reachableNodes := ReachableFrom(edges, startNodeId);
      var unreachableNodes := Filter(nodes, Outside(reachableNodes));
      FilterExt(nodes, Outside(reachableNodes), Unreached(edges, startNodeId));
      if |unreachableNodes| > 0 {
        unreachableIssues := [Issue(Warning, UnreachableNodes(|unreachableNodes|),
                                    Some(NodeIds(unreachableNodes)), None)];
      }
    }
  }

  /** validateFlowchart: an empty flowchart is rejected at once; otherwise
      every check runs and pushes its issues in order, and the verdict is
      assembled from them. */
  method ValidateFlowchart(nodes: seq<Node>, edges: seq<Edge>) returns (result: ValidationResult)
    ensures |nodes| == 0 ==>
      result == ValidationResult(false, FlowchartEmpty, Some([Issue(Error, NoNodes, None, None)]))
    ensures |nodes| > 0 ==> IsReport(nodes, edges, IssuesOf(result)) && result == Assemble(IssuesOf(result))
    ensures |nodes| > 0 ==> (result.valid <==> StructurallySound(nodes, edges))
    ensures |nodes| > 0 ==> (result == ValidationResult(true, FlowchartValid, None) <==> WellFormed(nodes, edges))
  {
    if |nodes| == 0 {
      return ValidationResult(false, FlowchartEmpty, Some([Issue(Error, NoNodes, None, None)]));
    }
    var issues := StructuralChecks(nodes, edges);
    ghost var structural := issues;
    var startNodes := Filter(nodes, IsStart);
    var cycleIssues := CycleCheck(nodes, edges, startNodes);
    issues := issues + cycleIssues;
    var unreachableIssues := ReachabilityCheck(nodes, edges, startNodes);
    issues := issues + unreachableIssues;
    ReportFromParts(nodes, edges, structural, cycleIssues, unreachableIssues);
    result := Assemble(issues);
    AssembleKeepsIssues(issues);
    VerdictOfReport(nodes, edges, issues);
  }

  lemma ReportFromParts(nodes: seq<Node>, edges: seq<Edge>, structural: seq<Issue>,
                        cycle: seq<Issue>, unreachable: seq<Issue>)
    requires structural == StructuralIssues(nodes, edges)
    requires CycleIssues(nodes, edges, cycle)
    requires unreachable == UnreachableIssues(nodes, edges)
    ensures IsReport(nodes, edges, structural + cycle + unreachable)
  {
  }

  // ---------------------------------------------------------------------
  // What the report says, check by check
  // ---------------------------------------------------------------------

  /** The part of a report that holds the messages of kind `m`; the
      start-count part also holds messages of the other start-count kind. */
  function PickPart(a: seq<Issue>, b: seq<Issue>, u: seq<Issue>, d: seq<Issue>,
                    e: seq<Issue>, w: seq<Issue>, c: seq<Issue>, r: seq<Issue>, m: Message): seq<Issue>
  {
    match m
    case MissingEnd => b
    case UnconnectedNodes(_) => u
    case StartHasIncoming => d
    case EndHasOutgoing => e
    case NoOutgoing(_) => w
    case CycleDetected => c
    case UnreachableNodes(_) => r
    case _ => Select(a, m)
  }

  /** The issues of kind `m` the checks emit, given what the cycle check
      emitted. */
  ghost function Emitted(nodes: seq<Node>, edges: seq<Edge>, c: seq<Issue>, m: Message): seq<Issue>
  {
    PickPart(StartIssues(nodes), EndIssues(nodes), UnconnectedIssues(nodes, edges),
             StartIncomingIssues(nodes, edges), EndOutgoingIssues(Filter(nodes, IsEnd), edges),
             DeadEndIssues(Filter(nodes, IsNotEnd), edges), c, UnreachableIssues(nodes, edges), m)
  }

  /** Selecting one kind of message from a report: only the check that
      emits that kind contributes, and it contributes everything it emits. */
  lemma SelectReport(nodes: seq<Node>, edges: seq<Edge>, c: seq<Issue>, m: Message)
    requires CycleIssues(nodes, edges, c)
    ensures Select(StructuralIssues(nodes, edges) + c + UnreachableIssues(nodes, edges), m)
            == Emitted(nodes, edges, c, m)
  {
    StartKind(nodes);
    EndKind(nodes);
    UnconnectedKind(nodes, edges);
    StartIncomingKind(nodes, edges);
    EndOutgoingKind(Filter(nodes, IsEnd), edges);
    DeadEndKind(Filter(nodes, IsNotEnd), edges);
    CycleKind(nodes, edges, c);
    UnreachableKind(nodes, edges);
    SelectParts(StartIssues(nodes), EndIssues(nodes), UnconnectedIssues(nodes, edges),
                StartIncomingIssues(nodes, edges), EndOutgoingIssues(Filter(nodes, IsEnd), edges),
                DeadEndIssues(Filter(nodes, IsNotEnd), edges), c, UnreachableIssues(nodes, edges), m);
  }

  /** The kinds of the eight parts of a report, in emission order. */
  predicate PartKinds(a: seq<Issue>, b: seq<Issue>, u: seq<Issue>, d: seq<Issue>,
                      e: seq<Issue>, w: seq<Issue>, c: seq<Issue>, r: seq<Issue>)
  {
    && (forall x :: x in a ==> x.message.MissingStart? || x.message.MultipleStarts?)
    && OfKind(b, MissingEnd) && OfKind(u, UnconnectedNodes(0)) && OfKind(d, StartHasIncoming)
    && OfKind(e, EndHasOutgoing) && OfKind(w, NoOutgoing([])) && OfKind(c, CycleDetected)
    && OfKind(r, UnreachableNodes(0))
  }

  /** `SelectReport` for any eight lists of those kinds. */
  lemma SelectParts(a: seq<Issue>, b: seq<Issue>, u: seq<Issue>, d: seq<Issue>,
                    e: seq<Issue>, w: seq<Issue>, c: seq<Issue>, r: seq<Issue>, m: Message)
    requires PartKinds(a, b, u, d, e, w, c, r)
    ensures Select(a + b + u + d + e + w + c + r, m) == PickPart(a, b, u, d, e, w, c, r, m)
  {
    if m.EndHasOutgoing? || m.NoOutgoing? || m.CycleDetected? || m.UnreachableNodes? {
      SelectBackParts(a, b, u, d, e, w, c, r, m);
    } else {
      SelectFrontParts(a, b, u, d, e, w, c, r, m);
    }
  }

  /** `SelectParts` for the kinds of the first four parts. */
  lemma SelectFrontParts(a: seq<Issue>, b: seq<Issue>, u: seq<Issue>, d: seq<Issue>,
                         e: seq<Issue>, w: seq<Issue>, c: seq<Issue>, r: seq<Issue>, m: Message)
    requires PartKinds(a, b, u, d, e, w, c, r)
    requires !(m.EndHasOutgoing? || m.NoOutgoing? || m.CycleDetected? || m.UnreachableNodes?)
    ensures Select(a + b + u + d + e + w + c + r, m) == PickPart(a, b, u, d, e, w, c, r, m)
  {
    if m.MissingEnd? {
      var post := u + d + e + w + c + r;
      assert a + b + u + d + e + w + c + r == a + b + post;
      SelectMiddle(a, b, post, MissingEnd, m);
    } else if m.UnconnectedNodes? {
      var pre, post := a + b, d + e + w + c + r;
      assert a + b + u + d + e + w + c + r == pre + u + post;
      SelectMiddle(pre, u, post, UnconnectedNodes(0), m);
    } else if m.StartHasIncoming? {
      var pre, post := a + b + u, e + w + c + r;
      assert a + b + u + d + e + w + c + r == pre + d + post;
      SelectMiddle(pre, d, post, StartHasIncoming, m);
    } else {
      SelectStartPart(a, b, u, d, e, w, c, r, m);
    }
  }

  /** `SelectParts` for the kinds of the start-count check, the first part. */
  lemma SelectStartPart(a: seq<Issue>, b: seq<Issue>, u: seq<Issue>, d: seq<Issue>,
                        e: seq<Issue>, w: seq<Issue>, c: seq<Issue>, r: seq<Issue>, m: Message)
    requires PartKinds(a, b, u, d, e, w, c, r)
    requires m.NoNodes? || m.MissingStart? || m.MultipleStarts?
    ensures Select(a + b + u + d + e + w + c + r, m) == Select(a, m)
  {
    var post := b + u + d + e + w + c + r;
    assert a + b + u + d + e + w + c + r == [] + a + post;
    SelectNone([], m);
    SelectNone(post, m);
    SelectOnly([], a, post, m);
  }

  /** `SelectParts` for the kinds of the last four parts. */
  lemma SelectBackParts(a: seq<Issue>, b: seq<Issue>, u: seq<Issue>, d: seq<Issue>,
                        e: seq<Issue>, w: seq<Issue>, c: seq<Issue>, r: seq<Issue>, m: Message)
    requires PartKinds(a, b, u, d, e, w, c, r)
    requires m.EndHasOutgoing? || m.NoOutgoing? || m.CycleDetected? || m.UnreachableNodes?
    ensures Select(a + b + u + d + e + w + c + r, m) == PickPart(a, b, u, d, e, w, c, r, m)
  {
    match m
    case EndHasOutgoing =>
      var pre, post := a + b + u + d, w + c + r;
      assert a + b + u + d + e + w + c + r == pre + e + post;
      SelectMiddle(pre, e, post, EndHasOutgoing, m);
    case NoOutgoing(_) =>
      var pre, post := a + b + u + d + e, c + r;
      assert a + b + u + d + e + w + c + r == pre + w + post;
      SelectMiddle(pre, w, post, NoOutgoing([]), m);
    case CycleDetected =>
      var pre := a + b + u + d + e + w;
      assert a + b + u + d + e + w + c + r == pre + c + r;
      SelectMiddle(pre, c, r, CycleDetected, m);
    case UnreachableNodes(_) =>
      var pre := a + b + u + d + e + w + c;
      assert a + b + u + d + e + w + c + r == pre + r + [];
      SelectMiddle(pre, r, [], UnreachableNodes(0), m);
  }

  /** Selecting kind `m` from a list whose middle is all of that kind and
      whose front and back hold none of it gives the middle. */
  lemma SelectMiddle(pre: seq<Issue>, mid: seq<Issue>, post: seq<Issue>, k: Message, m: Message)
    requires forall x :: x in pre ==> !SameKind(x.message, m)
    requires forall x :: x in post ==> !SameKind(x.message, m)
    requires OfKind(mid, k) && SameKind(k, m)
    ensures Select(pre + mid + post, m) == mid
  {
    SelectNone(pre, m);
    SelectNone(post, m);
    SelectOnly(pre, mid, post, m);
    SelectKind(mid, k, m);
  }

  /** Selecting from a list whose front and back hold nothing of kind `m`. */
  lemma SelectOnly(pre: seq<Issue>, mid: seq<Issue>, post: seq<Issue>, m: Message)
    requires Select(pre, m) == [] && Select(post, m) == []
    ensures Select(pre + mid + post, m) == Select(mid, m)
  {
    FilterConcat(pre + mid, post, Like(m));
    FilterConcat(pre, mid, Like(m));
    assert [] + Select(mid, m) + [] == Select(mid, m);
  }

  // The severity and kind of what each check emits.

  lemma StartKind(nodes: seq<Node>)
    ensures forall x :: x in StartIssues(nodes) ==>
              x.severity == Error && (x.message.MissingStart? || x.message.MultipleStarts?)
  {
  }

  lemma EndKind(nodes: seq<Node>)
    ensures OfKind(EndIssues(nodes), MissingEnd)
    ensures forall x :: x in EndIssues(nodes) ==> x.severity == Error
  {
  }

  lemma UnconnectedKind(nodes: seq<Node>, edges: seq<Edge>)
    ensures OfKind(UnconnectedIssues(nodes, edges), UnconnectedNodes(0))
    ensures forall x :: x in UnconnectedIssues(nodes, edges) ==> x.severity == Error
  {
  }

  lemma StartIncomingKind(nodes: seq<Node>, edges: seq<Edge>)
    ensures OfKind(StartIncomingIssues(nodes, edges), StartHasIncoming)
    ensures forall x :: x in StartIncomingIssues(nodes, edges) ==> x.severity == Error
  {
  }

  lemma EndOutgoingKind(ends: seq<Node>, edges: seq<Edge>)
    ensures OfKind(EndOutgoingIssues(ends, edges), EndHasOutgoing)
    ensures forall x :: x in EndOutgoingIssues(ends, edges) ==> x.severity == Error
  {
  }

  lemma DeadEndKind(ns: seq<Node>, edges: seq<Edge>)
    ensures OfKind(DeadEndIssues(ns, edges), NoOutgoing([]))
    ensures forall x :: x in DeadEndIssues(ns, edges) ==> x.severity == Warning
  {
  }

  lemma CycleKind(nodes: seq<Node>, edges: seq<Edge>, c: seq<Issue>)
    requires CycleIssues(nodes, edges, c)
    ensures OfKind(c, CycleDetected)
    ensures forall x :: x in c ==> x.severity == Warning
  {
  }

  lemma UnreachableKind(nodes: seq<Node>, edges: seq<Edge>)
    ensures OfKind(UnreachableIssues(nodes, edges), UnreachableNodes(0))
    ensures forall x :: x in UnreachableIssues(nodes, edges) ==> x.severity == Warning
  {
  }


  /** In a report, the issues of each kind are exactly those its one check
      emits. */
  lemma SelectFromReport(nodes: seq<Node>, edges: seq<Edge>, issues: seq<Issue>, m: Message)
    requires IsReport(nodes, edges, issues)
    ensures exists c :: CycleIssues(nodes, edges, c) && Select(issues, m) == Emitted(nodes, edges, c, m)
  {
    var c :| CycleIssues(nodes, edges, c)
             && issues == StructuralIssues(nodes, edges) + c + UnreachableIssues(nodes, edges);
    SelectReport(nodes, edges, c, m);
  }

  /** Start-node cardinality report: with no start node the report holds exactly
      one "Missing start node" error; with several, exactly one "Multiple
      start nodes detected" error listing the start nodes' ids in node
      order; with exactly one, neither. */
  lemma StartCountReport(nodes: seq<Node>, edges: seq<Edge>, issues: seq<Issue>)
    requires IsReport(nodes, edges, issues)
    ensures var startNodes := Filter(nodes, IsStart);
            && Select(issues, MissingStart)
               == (if |startNodes| == 0 then [Issue(Error, MissingStart, None, None)] else [])
            && Select(issues, MultipleStarts)
               == (if |startNodes| > 1 then [Issue(Error, MultipleStarts, Some(NodeIds(startNodes)), None)]
                   else [])
  {
    assert Select(issues, MissingStart) == Select(StartIssues(nodes), MissingStart) by {
      SelectFromReport(nodes, edges, issues, MissingStart);
    }
    assert Select(issues, MultipleStarts) == Select(StartIssues(nodes), MultipleStarts) by {
      SelectFromReport(nodes, edges, issues, MultipleStarts);
    }
    var startIssues := StartIssues(nodes);
    if startIssues != [] {
      assert startIssues == [startIssues[0]];
      FilterSingle(startIssues[0], Like(MissingStart));
      FilterSingle(startIssues[0], Like(MultipleStarts));
    }
  }

  /** End-node existence: one "Missing end node" error exactly when no node
      is an end node. */
  lemma MissingEndReport(nodes: seq<Node>, edges: seq<Edge>, issues: seq<Issue>)
    requires IsReport(nodes, edges, issues)
    ensures Select(issues, MissingEnd)
            == if exists n :: n in nodes && n.kind == End then [] else [Issue(Error, MissingEnd, None, None)]
  {
    assert Select(issues, MissingEnd) == EndIssues(nodes) by {
      SelectFromReport(nodes, edges, issues, MissingEnd);
    }
    FilterEmpty(nodes, IsEnd);
  }

  /** Unconnected nodes: one error exactly when some node's id is neither
      the source nor the target of any edge; it lists exactly those nodes'
      ids, in node order, and its count is the length of that list. */
  lemma UnconnectedReport(nodes: seq<Node>, edges: seq<Edge>, issues: seq<Issue>)
    requires IsReport(nodes, edges, issues)
    ensures var unconnected := Filter(nodes, Untouched(edges));
            var found := Select(issues, UnconnectedNodes(0));
            && (found != [] <==> exists n :: n in nodes && !Touches(edges, n.id))
            && (found != [] ==> found == [Issue(Error, UnconnectedNodes(|NodeIds(unconnected)|),
                                              Some(NodeIds(unconnected)), None)])
            && (forall n :: n in unconnected <==> n in nodes && !Touches(edges, n.id))
  {
    assert Select(issues, UnconnectedNodes(0)) == UnconnectedIssues(nodes, edges) by {
      SelectFromReport(nodes, edges, issues, UnconnectedNodes(0));
    }
    FilterEmpty(nodes, Untouched(edges));
  }

  /** Edges into the start node: an error only when there is exactly one
      start node and some edge enters it; it names the start node and lists
      exactly the edges whose target is that node, in edge order. */
  lemma StartIncomingReport(nodes: seq<Node>, edges: seq<Edge>, issues: seq<Issue>)
    requires IsReport(nodes, edges, issues)
    ensures var startNodes := Filter(nodes, IsStart);
            var found := Select(issues, StartHasIncoming);
            && (found != [] <==> |startNodes| == 1
                                 && exists i :: 0 <= i < |edges| && edges[i].target == startNodes[0].id)
            && (found != [] ==>
                  var incoming := Incoming(edges, startNodes[0].id);
                  && found == [Issue(Error, StartHasIncoming, Some([startNodes[0].id]), Some(EdgeIds(incoming)))]
                  && forall e :: e in incoming <==> e in edges && e.target == startNodes[0].id)
  {
    assert Select(issues, StartHasIncoming) == StartIncomingIssues(nodes, edges) by {
      SelectFromReport(nodes, edges, issues, StartHasIncoming);
    }
    StartIncomingMeaning(nodes, edges);
  }

  /** What the start-incoming check emits, stated on its own. */
  lemma StartIncomingMeaning(nodes: seq<Node>, edges: seq<Edge>)
    ensures var startNodes := Filter(nodes, IsStart);
            var found := StartIncomingIssues(nodes, edges);
            && (found != [] <==> |startNodes| == 1
                                 && exists i :: 0 <= i < |edges| && edges[i].target == startNodes[0].id)
            && (found != [] ==>
                  var incoming := Incoming(edges, startNodes[0].id);
                  && found == [Issue(Error, StartHasIncoming, Some([startNodes[0].id]), Some(EdgeIds(incoming)))]
                  && forall e :: e in incoming <==> e in edges && e.target == startNodes[0].id)
  {
    var startNodes := Filter(nodes, IsStart);
    if |startNodes| == 1 {
      FilterEmpty(edges, TargetIs(startNodes[0].id));
    }
  }

  /** Edges out of end nodes: one error per end node that has an outgoing
      edge, in node order, each naming only that node and listing exactly its
      outgoing edges. */
  lemma EndOutgoingReport(nodes: seq<Node>, edges: seq<Edge>, issues: seq<Issue>)
    requires IsReport(nodes, edges, issues)
    ensures var offenders := Filter(Filter(nodes, IsEnd), HasOutgoing(edges));
            var found := Select(issues, EndHasOutgoing);
            && |found| == |offenders|
            && (forall i :: 0 <= i < |found| ==>
                  found[i] == Issue(Error, EndHasOutgoing, Some([offenders[i].id]),
                                    Some(EdgeIds(Outgoing(edges, offenders[i].id)))))
            && (forall n :: n in offenders <==>
                  n in nodes && n.kind == End && exists i :: 0 <= i < |edges| && edges[i].source == n.id)
  {
    assert Select(issues, EndHasOutgoing) == EndOutgoingIssues(Filter(nodes, IsEnd), edges) by {
      SelectFromReport(nodes, edges, issues, EndHasOutgoing);
    }
    forall n | n in nodes
      ensures HasOutgoing(edges)(n) <==> exists i :: 0 <= i < |edges| && edges[i].source == n.id
    {
      FilterEmpty(edges, SourceIs(n.id));
    }
  }

  /** Nodes without outgoing edges: one warning per non-end node (start
      nodes included) with no outgoing edge, in node order, each naming only
      that node. */
  lemma DeadEndReport(nodes: seq<Node>, edges: seq<Edge>, issues: seq<Issue>)
    requires IsReport(nodes, edges, issues)
    ensures var deadEnds := Filter(Filter(nodes, IsNotEnd), LacksOutgoing(edges));
            var found := Select(issues, NoOutgoing([]));
            && |found| == |deadEnds|
            && (forall i :: 0 <= i < |found| ==>
                  found[i] == Issue(Warning, NoOutgoing(deadEnds[i].caption), Some([deadEnds[i].id]), None))
            && (forall n :: n in deadEnds <==>
                  n in nodes && n.kind != End && forall i :: 0 <= i < |edges| ==> edges[i].source != n.id)
  {
    assert Select(issues, NoOutgoing([])) == DeadEndIssues(Filter(nodes, IsNotEnd), edges) by {
      SelectFromReport(nodes, edges, issues, NoOutgoing([]));
    }
    forall n | n in nodes
      ensures LacksOutgoing(edges)(n) <==> forall i :: 0 <= i < |edges| ==> edges[i].source != n.id
    {
      FilterEmpty(edges, SourceIs(n.id));
    }
  }

  /** Cycle search: one "Cycle detected in flowchart" warning exactly when
      there is one start node and a directed cycle can be entered from it;
      its edge ids are those of a walk from the start whose last edge
      returns to a node the walk has left, without repeats. */
  lemma CycleWarningReport(nodes: seq<Node>, edges: seq<Edge>, issues: seq<Issue>)
    requires IsReport(nodes, edges, issues)
    ensures var startNodes := Filter(nodes, IsStart);
            var found := Select(issues, CycleDetected);
            && (found != [] <==> |startNodes| == 1 && ReachableCycle(edges, startNodes[0].id))
            && (found != [] ==>
                  && (exists p :: IsCycleWitness(edges, startNodes[0].id, p)
                                  && found == [Issue(Warning, CycleDetected, None, Some(Dedup(EdgeIds(p))))])
                  && NoDuplicates(found[0].edgeIds.value))
  {
    SelectFromReport(nodes, edges, issues, CycleDetected);
    var c :| CycleIssues(nodes, edges, c)
             && Select(issues, CycleDetected) == Emitted(nodes, edges, c, CycleDetected);
    assert Select(issues, CycleDetected) == c;
  }

  /** Reachability sweep: with exactly one start node, one warning exactly
      when some node cannot be reached from it, listing exactly those nodes
      in node order with their count; with any other number of start nodes,
      none. */
  lemma UnreachableReport(nodes: seq<Node>, edges: seq<Edge>, issues: seq<Issue>)
    requires IsReport(nodes, edges, issues)
    ensures var startNodes := Filter(nodes, IsStart);
            var found := Select(issues, UnreachableNodes(0));
            && (found != [] <==> |startNodes| == 1
                                 && exists n :: n in nodes && !Reaches(edges, startNodes[0].id, n.id))
            && (found != [] ==>
                  var unreachable := Filter(nodes, Unreached(edges, startNodes[0].id));
                  && found == [Issue(Warning, UnreachableNodes(|NodeIds(unreachable)|),
                                     Some(NodeIds(unreachable)), None)]
                  && forall n :: n in unreachable <==> n in nodes && !Reaches(edges, startNodes[0].id, n.id))
  {
    assert Select(issues, UnreachableNodes(0)) == UnreachableIssues(nodes, edges) by {
      SelectFromReport(nodes, edges, issues, UnreachableNodes(0));
    }
    if |Filter(nodes, IsStart)| == 1 {
      UnreachableSilent(nodes, edges);
    }
  }

  // ---------------------------------------------------------------------
  // The verdict
  // ---------------------------------------------------------------------

  /** What the error checks demand: exactly one start node, at least one
      end node, no node that no edge touches, no edge into the start node
      and no edge out of an end node. */
  predicate StructurallySound(nodes: seq<Node>, edges: seq<Edge>)
  {
    var startNodes := Filter(nodes, IsStart);
    && |startNodes| == 1
    && (exists n :: n in nodes && n.kind == End)
    && (forall n :: n in nodes ==> Touches(edges, n.id))
    && (forall i :: 0 <= i < |edges| ==> edges[i].target != startNodes[0].id)
    && (forall n, i :: n in nodes && n.kind == End && 0 <= i < |edges| ==> edges[i].source != n.id)
  }

  /** What no check objects to: a structurally sound flowchart in which
      every non-end node has an outgoing edge, no cycle can be entered from
      the start node and every node is reachable from it. */
  ghost predicate WellFormed(nodes: seq<Node>, edges: seq<Edge>)
  {
    && StructurallySound(nodes, edges)
    && (forall n :: n in nodes && n.kind != End ==> exists i :: 0 <= i < |edges| && edges[i].source == n.id)
    && !ReachableCycle(edges, Filter(nodes, IsStart)[0].id)
    && (forall n :: n in nodes ==> Reaches(edges, Filter(nodes, IsStart)[0].id, n.id))
  }

  /** The five error checks emit nothing exactly on a structurally sound
      flowchart. */
  lemma ErrorChecksSilent(nodes: seq<Node>, edges: seq<Edge>)
    ensures (&& StartIssues(nodes) == [] && EndIssues(nodes) == [] && UnconnectedIssues(nodes, edges) == []
             && StartIncomingIssues(nodes, edges) == [] && EndOutgoingIssues(Filter(nodes, IsEnd), edges) == [])
            <==> StructurallySound(nodes, edges)
  {
    EndSilent(nodes);
    UnconnectedSilent(nodes, edges);
    if |Filter(nodes, IsStart)| == 1 {
      StartIncomingSilent(nodes, edges);
    }
    EndOutgoingSilent(nodes, edges);
  }

  /** The end-node check emits nothing exactly when some node is an end node. */
  lemma EndSilent(nodes: seq<Node>)
    ensures EndIssues(nodes) == [] <==> exists n :: n in nodes && n.kind == End
  {
    FilterEmpty(nodes, IsEnd);
  }

  /** The unconnected-node check emits nothing exactly when an edge touches
      every node. */
  lemma UnconnectedSilent(nodes: seq<Node>, edges: seq<Edge>)
    ensures UnconnectedIssues(nodes, edges) == [] <==> forall n :: n in nodes ==> Touches(edges, n.id)
  {
    FilterEmpty(nodes, Untouched(edges));
  }

  /** With one start node, the start-incoming check emits nothing exactly
      when no edge enters it. */
  lemma StartIncomingSilent(nodes: seq<Node>, edges: seq<Edge>)
    requires |Filter(nodes, IsStart)| == 1
    ensures StartIncomingIssues(nodes, edges) == []
            <==> forall i :: 0 <= i < |edges| ==> edges[i].target != Filter(nodes, IsStart)[0].id
  {
    FilterEmpty(edges, TargetIs(Filter(nodes, IsStart)[0].id));
  }

  /** The end-outgoing check emits nothing exactly when no edge leaves an
      end node. */
  lemma EndOutgoingSilent(nodes: seq<Node>, edges: seq<Edge>)
    ensures EndOutgoingIssues(Filter(nodes, IsEnd), edges) == []
            <==> forall n, i :: n in nodes && n.kind == End && 0 <= i < |edges| ==> edges[i].source != n.id
  {
    var endNodes := Filter(nodes, IsEnd);
    var offenders := Filter(endNodes, HasOutgoing(edges));
    if offenders == [] {
      forall n, i | n in nodes && n.kind == End && 0 <= i < |edges|
        ensures edges[i].source != n.id
      {
        assert n in endNodes && n !in offenders;
        assert edges[i] !in Outgoing(edges, n.id);
      }
    } else {
      var n := offenders[0];
      assert n in offenders && n in endNodes;
      var e := Outgoing(edges, n.id)[0];
      assert e in Outgoing(edges, n.id);
      var i :| 0 <= i < |edges| && edges[i] == e;
    }
  }

  /** The check for nodes without outgoing edges emits nothing exactly
      when every non-end node has an outgoing edge. */
  lemma DeadEndsSilent(nodes: seq<Node>, edges: seq<Edge>)
    ensures DeadEndIssues(Filter(nodes, IsNotEnd), edges) == []
            <==> forall n :: n in nodes && n.kind != End ==> exists i :: 0 <= i < |edges| && edges[i].source == n.id
  {
    var nonEndNodes := Filter(nodes, IsNotEnd);
    FilterEmpty(nonEndNodes, LacksOutgoing(edges));
    forall n | n in nonEndNodes
      ensures !LacksOutgoing(edges)(n) <==> exists i :: 0 <= i < |edges| && edges[i].source == n.id
    {
      FilterEmpty(edges, SourceIs(n.id));
    }
  }

  /** On a structurally sound flowchart, the three warning checks emit
      nothing exactly when it is well formed. */
  lemma WarningChecksSilent(nodes: seq<Node>, edges: seq<Edge>, c: seq<Issue>)
    requires CycleIssues(nodes, edges, c) && StructurallySound(nodes, edges)
    ensures (DeadEndIssues(Filter(nodes, IsNotEnd), edges) == [] && c == [] && UnreachableIssues(nodes, edges) == [])
            <==> WellFormed(nodes, edges)
  {
    DeadEndsSilent(nodes, edges);
    CycleSilent(nodes, edges, c);
    UnreachableSilent(nodes, edges);
  }

  /** With one start node, the cycle check emits nothing exactly when no
      cycle can be entered from it. */
  lemma CycleSilent(nodes: seq<Node>, edges: seq<Edge>, c: seq<Issue>)
    requires CycleIssues(nodes, edges, c) && |Filter(nodes, IsStart)| == 1
    ensures c == [] <==> !ReachableCycle(edges, Filter(nodes, IsStart)[0].id)
  {
  }

  /** With one start node, the reachability check emits nothing exactly
      when every node is reachable from it. */
  lemma UnreachableSilent(nodes: seq<Node>, edges: seq<Edge>)
    requires |Filter(nodes, IsStart)| == 1
    ensures UnreachableIssues(nodes, edges) == []
            <==> forall n :: n in nodes ==> Reaches(edges, Filter(nodes, IsStart)[0].id, n.id)
  {
    FilterEmpty(nodes, Unreached(edges, Filter(nodes, IsStart)[0].id));
  }

  /** A concatenation of five lists of errors and three of warnings holds
      only warnings exactly when the five are empty. */
  lemma WarningsOfParts(a: seq<Issue>, b: seq<Issue>, u: seq<Issue>, d: seq<Issue>,
                        e: seq<Issue>, w: seq<Issue>, c: seq<Issue>, r: seq<Issue>)
    requires forall x :: x in a + b + u + d + e ==> x.severity == Error
    requires AllWarnings(w) && AllWarnings(c) && AllWarnings(r)
    ensures AllWarnings(a + b + u + d + e + w + c + r) <==> a + b + u + d + e == []
  {
    var errors := a + b + u + d + e;
    assert a + b + u + d + e + w + c + r == errors + (w + c + r);
    if errors != [] {
      assert errors[0] in errors + (w + c + r);
    }
  }

  /** A report holds only warnings exactly when the flowchart is
      structurally sound. */
  lemma ValidityReport(nodes: seq<Node>, edges: seq<Edge>, issues: seq<Issue>)
    requires IsReport(nodes, edges, issues)
    ensures AllWarnings(issues) <==> StructurallySound(nodes, edges)
  {
    var c :| CycleIssues(nodes, edges, c)
             && issues == StructuralIssues(nodes, edges) + c + UnreachableIssues(nodes, edges);
    StartKind(nodes);
    EndKind(nodes);
    UnconnectedKind(nodes, edges);
    StartIncomingKind(nodes, edges);
    EndOutgoingKind(Filter(nodes, IsEnd), edges);
    DeadEndKind(Filter(nodes, IsNotEnd), edges);
    CycleKind(nodes, edges, c);
    UnreachableKind(nodes, edges);
    WarningsOfParts(StartIssues(nodes), EndIssues(nodes), UnconnectedIssues(nodes, edges),
                    StartIncomingIssues(nodes, edges), EndOutgoingIssues(Filter(nodes, IsEnd), edges),
                    DeadEndIssues(Filter(nodes, IsNotEnd), edges), c, UnreachableIssues(nodes, edges));
    ErrorChecksSilent(nodes, edges);
  }

  /** A report is empty exactly when the flowchart is well formed. */
  lemma CleanReport(nodes: seq<Node>, edges: seq<Edge>, issues: seq<Issue>)
    requires IsReport(nodes, edges, issues)
    ensures issues == [] <==> WellFormed(nodes, edges)
  {
    var c :| CycleIssues(nodes, edges, c)
             && issues == StructuralIssues(nodes, edges) + c + UnreachableIssues(nodes, edges);
    ErrorChecksSilent(nodes, edges);
    if StructurallySound(nodes, edges) {
      WarningChecksSilent(nodes, edges, c);
    }
  }

  /** The verdict assembled from a report: valid exactly when the flowchart
      is structurally sound, and "Flowchart is valid" without issues exactly
      when it is well formed. */
  lemma VerdictOfReport(nodes: seq<Node>, edges: seq<Edge>, issues: seq<Issue>)
    requires IsReport(nodes, edges, issues)
    ensures Assemble(issues).valid <==> StructurallySound(nodes, edges)
    ensures Assemble(issues) == ValidationResult(true, FlowchartValid, None) <==> WellFormed(nodes, edges)
  {
    ValidityReport(nodes, edges, issues);
    CleanReport(nodes, edges, issues);
  }
}
