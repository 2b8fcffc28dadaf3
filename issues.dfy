/**
 The validator's output: `ValidationIssue` and `ValidationResult`, and the
 final assembly of the verdict from the ordered list of issues.
 Messages are data (a constructor with its count or label), not text.
 */
module Issues {
  import opened FlowGraph

  /** An optional field: `None` is an absent property of the JSON-like object. */
  datatype Option<T> = None | Some(value: T)

  datatype Severity = Error | Warning

  /** The message of an issue. */
  datatype Message =
    | NoNodes                       // "Flowchart has no nodes"
    | MissingStart                  // "Missing start node"
    | MultipleStarts                // "Multiple start nodes detected"
    | MissingEnd                    // "Missing end node"
    | UnconnectedNodes(count: nat)  // "<count> unconnected node(s) detected"
    | StartHasIncoming              // "Start node should not have incoming connections"
    | EndHasOutgoing                // "End node has outgoing connections"
    | NoOutgoing(caption: string)   // "Node "<caption>" has no outgoing connections"
    | CycleDetected                 // "Cycle detected in flowchart"
    | UnreachableNodes(count: nat)  // "<count> node(s) unreachable from start"

  datatype Issue = Issue(severity: Severity, message: Message,
                         nodeIds: Option<seq<Id>>, edgeIds: Option<seq<Id>>)

  /** The summary message of a result. */
  datatype Summary =
    | FlowchartEmpty                // "Flowchart is empty"
    | FirstError(message: Message)  // the message of the first error issue
    | ValidWithWarnings             // "Flowchart valid with warnings"
    | FlowchartValid                // "Flowchart is valid"

  datatype ValidationResult = ValidationResult(valid: bool, message: Summary,
                                               issues: Option<seq<Issue>>)

  /** The issue list of a result; an absent `issues` field reads as no issues. */
  function IssuesOf(r: ValidationResult): seq<Issue>
  {
    match r.issues
    case None => []
    case Some(list) => list
  }

  predicate IsError(i: Issue) { i.severity == Error }

  /** Two messages come from the same check (counts and labels aside). */
  predicate SameKind(a: Message, b: Message)
  {
    match a
    case UnconnectedNodes(_) => b.UnconnectedNodes?
    case NoOutgoing(_) => b.NoOutgoing?
    case UnreachableNodes(_) => b.UnreachableNodes?
    case _ => a == b
  }

  function Like(m: Message): Issue -> bool { (i: Issue) => SameKind(i.message, m) }

  /** The issues of the same kind as `m`, in emission order. */
  function Select(issues: seq<Issue>, m: Message): seq<Issue>
  {
    Filter(issues, Like(m))
  }

  /** `SameKind` is an equivalence: a message of the same kind as `b` agrees
      with `b` on every other message. */
  lemma SameKindAgrees(a: Message, b: Message, m: Message)
    requires SameKind(a, b)
    ensures SameKind(a, m) == SameKind(b, m)
  {
  }

  /** Every issue of `s` has a message of the same kind as `k`. */
  predicate OfKind(s: seq<Issue>, k: Message)
  {
    forall x :: x in s ==> SameKind(x.message, k)
  }

  /** Selecting from issues that are all of kind `k` keeps all or nothing. */
  lemma SelectKind(s: seq<Issue>, k: Message, m: Message)
    requires OfKind(s, k)
    ensures Select(s, m) == if SameKind(k, m) then s else []
  {
    forall x | x in s
      ensures Like(m)(x) == SameKind(k, m)
    {
      SameKindAgrees(x.message, k, m);
    }
    if SameKind(k, m) {
      FilterAll(s, Like(m));
    } else {
      FilterNone(s, Like(m));
    }
  }

  /** Nothing is selected from a list that holds no issue of kind `m`. */
  lemma SelectNone(s: seq<Issue>, m: Message)
    requires forall x :: x in s ==> !SameKind(x.message, m)
    ensures Select(s, m) == []
  {
    FilterNone(s, Like(m));
  }

  /** Every issue of `s` is a warning. */
  predicate AllWarnings(s: seq<Issue>)
  {
    forall x :: x in s ==> x.severity == Warning
  }

  /** Issue `k` is the first error in emission order. */
  ghost predicate FirstErrorAt(issues: seq<Issue>, k: int)
  {
    && 0 <= k < |issues|
    && issues[k].severity == Error
    && forall j :: 0 <= j < k ==> issues[j].severity == Warning
  }

  /** The verdict for a non-empty flowchart once every check has run. */
  function Assemble(issues: seq<Issue>): (r: ValidationResult)
    ensures r.valid <==> AllWarnings(issues)
    ensures !r.valid ==> r.issues == Some(issues)
    ensures !r.valid ==> exists k :: FirstErrorAt(issues, k) && r.message == FirstError(issues[k].message)
    ensures r.valid && issues != [] ==> r == ValidationResult(true, ValidWithWarnings, Some(issues))
    ensures issues == [] ==> r == ValidationResult(true, FlowchartValid, None)
  {
    var errorIssues := Filter(issues, IsError);
    if |errorIssues| > 0 then
      FilterFirst(issues, IsError);
      ValidationResult(false, FirstError(errorIssues[0].message), Some(issues))
    else if |issues| > 0 then
      assert forall x :: x in issues ==> x !in errorIssues;
      ValidationResult(true, ValidWithWarnings, Some(issues))
    else
      ValidationResult(true, FlowchartValid, None)
  }

  /** The assembled result carries exactly the issues it was built from. */
  lemma AssembleKeepsIssues(issues: seq<Issue>)
    ensures IssuesOf(Assemble(issues)) == issues
  {
  }
}
