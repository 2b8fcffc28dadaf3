# Flowchart validator, modelled in Dafny

This project models `validateFlowchart`, the structural validator of a
flowchart editor. The validator receives a snapshot of the chart: nodes with
an id, a type and a label, and edges with an id, a source id and a target id.
It runs a fixed sequence of checks and pushes one issue (an error or a
warning) per finding. It then assembles a verdict `{ valid, message, issues? }`
from the ordered issue list. The checks, in order:

1. an empty chart (this returns at once);
2. the number of start nodes;
3. whether an end node exists;
4. nodes that no edge touches;
5. edges into the start node;
6. edges out of end nodes;
7. non-end nodes without an outgoing edge;
8. a depth-first cycle search from the start node (`findCycle`);
9. a depth-first reachability sweep from the start node (`traverseNodes`).

Four modules:

- `FlowGraph` (`graph.dfy`) covers:
  - nodes (`Kind = Start | End | Other`: the validator compares node types only with `"start"` and `"end"`) and edges;
  - `Filter`, the model of `Array.prototype.filter`, with its laws;
  - `Dedup`, the model of `[...new Set(xs)]`;
  - walks, reachability and cycles, defined by paths;
  - the lemmas that make reachability the least edge-closed set.
- `Issues` (`issues.dfy`) holds `ValidationIssue` and `ValidationResult`.
  - Messages are constructors that carry their count or label rather than interpolated text.
  - `Assemble` is the final choice of verdict.
  - `Select` picks the issues of one message kind.
- `Traversal` (`traversal.dfy`) holds `findCycle` and `traverseNodes`.
  - In the source these are recursive closures that update sets declared around them. Here each is a recursive method that receives those sets and returns their new values.
  - Termination is measured by the ids not yet visited.
  - The "no cycle" direction of `findCycle` is proved with a ghost ranking of finished nodes, by finishing time.
- `Validator` (`validator.dfy`) holds `ValidateFlowchart` and its helpers.
  - `ValidateFlowchart` builds the issue list push by push, with loops for the `forEach` and `for … of` statements.
  - Each check has a specification function, and `IsReport` concatenates them in emission order.
  - Lemmas say, check by check, what the report contains.
  - Lemmas state when the verdict is valid and when it is clean.

Nodes without outgoing edges and nodes unreachable from the start are
pushed with `type: "warning"` (src/utils/flowchartValidation.ts:111-115 and
:179-183), and only issues of type `"error"` make `valid` false (:188-195).
So these two checks never make the chart invalid. `ValidateFlowchart`'s
contract states this: `valid` holds exactly when `StructurallySound` does, and the
result is "Flowchart is valid" without issues exactly when the chart is also
free of dead ends, reachable cycles and unreachable nodes (`WellFormed`).

## Model

| member | source | states |
|---|---|---|
| Validator.ValidateFlowchart | src/utils/flowchartValidation.ts:16-209 | An empty chart gives `valid = false`, summary "Flowchart is empty" and exactly one "Flowchart has no nodes" error. Otherwise the issues are exactly the checks' issues in emission order, and the result is their assembly. `valid` holds iff the chart is structurally sound. The result is "Flowchart is valid" with no issues iff the chart is also well formed. |
| Issues.Assemble | src/utils/flowchartValidation.ts:187-208 | `valid` is false iff some issue is an error. The summary is then the message of the first error in emission order, and the issues are attached. With only warnings the summary is "Flowchart valid with warnings", with the issues. With no issues the summary is "Flowchart is valid" and `issues` is absent. |
| Validator.StructuralChecks | src/utils/flowchartValidation.ts:31-117 | The pushes of checks 2 to 7 produce exactly the start-count, end-existence, unconnected, start-incoming, end-outgoing and dead-end issues, in that order. |
| Validator.ConnectedNodeIds | src/utils/flowchartValidation.ts:56-62 | The set the `forEach` fills holds an id iff some edge has it as source or target. |
| Validator.PushEndOutgoingErrors | src/utils/flowchartValidation.ts:93-104 | The loop over the end nodes appends exactly `EndOutgoingIssues` to the list it was given. |
| Validator.PushDeadEndWarnings | src/utils/flowchartValidation.ts:106-117 | The loop over the non-end nodes appends exactly `DeadEndIssues` to the list it was given. |
| Validator.EndOutgoingIssues | src/utils/flowchartValidation.ts:94-104 | There is one issue per end node that has an outgoing edge, in node order. Each is that node's error, listing its outgoing edge ids. |
| Validator.DeadEndIssues | src/utils/flowchartValidation.ts:108-117 | There is one issue per node without an outgoing edge, in node order. Each is a warning carrying that node's label and only its id. |
| Validator.CycleCheck | src/utils/flowchartValidation.ts:119-155 | The cycle check emits what `CycleIssues` allows. With exactly one start node from which a cycle can be entered, it emits one warning whose edge ids, without repeats, are those of a walk from the start that closes a cycle. Otherwise it emits nothing. |
| Validator.ReachabilityCheck | src/utils/flowchartValidation.ts:157-185 | With exactly one start node, there is one warning iff some node cannot be reached from it. The warning lists exactly those nodes and carries their count. With any other number of start nodes, nothing is emitted. |
| Traversal.FindCycle | src/utils/flowchartValidation.ts:125-146 | `recursionStack` stays inside `visited`, and `visited` only grows. A `true` result comes with a walk from the start whose last edge enters a node on the walk, and it records that walk's edge ids. A `false` result restores `recursionStack` and leaves `cycleEdges` unchanged. It also extends a ranking that forbids cycles through finished nodes. It terminates on the unvisited ids. |
| Traversal.DetectCycle | src/utils/flowchartValidation.ts:120-148 | `findCycle` from the start, with empty sets, returns true iff a directed cycle can be entered from the start. When it does, the recorded ids are those of a cycle witness, and otherwise none are recorded. |
| Traversal.TraverseNodes | src/utils/flowchartValidation.ts:162-171 | The set grows to include the node. Every id it holds is reachable from the start. Every edge leaving a newly added id ends in the final set. It terminates on the unreached ids. |
| Traversal.ReachableFrom | src/utils/flowchartValidation.ts:158-173 | The set `traverseNodes` builds from the start holds the start and is closed under following edges. It holds exactly the ids reachable from the start. |
| Traversal.RankedForbidsCycle | src/utils/flowchartValidation.ts:144-145 | When every finished node is ranked and edges from ranked nodes go to lower ranks, no cycle can be entered from a ranked root. This is why `false` from the root means no reachable cycle. |
| Traversal.RankFallsAlongChain | src/utils/flowchartValidation.ts:130-142 | Ranks strictly fall along every chain of edges that starts at a finished node. |
| Traversal.FinishNode | src/utils/flowchartValidation.ts:143-145 | Finishing a node whose outgoing edges all enter finished nodes keeps the ranking valid. |
| FlowGraph.Filter | src/utils/flowchartValidation.ts:32 | The filter keeps exactly the elements that satisfy the predicate, and never lengthens the list. |
| FlowGraph.FilterConcat | src/utils/flowchartValidation.ts:65-67 | Filtering distributes over concatenation, so it keeps the input order. |
| FlowGraph.FilterFirst | src/utils/flowchartValidation.ts:188-192 | A non-empty filter result has a first matching position, with no match before it. |
| FlowGraph.Dedup | src/utils/flowchartValidation.ts:152 | `[...new Set(xs)]` keeps exactly the elements of `xs`, with no repeats. |
| FlowGraph.DedupKeepsFirstOrder | src/utils/flowchartValidation.ts:152 | A `Set` iterates in insertion order, so `[...new Set(xs)]` lists the distinct elements in the order of their first occurrences in `xs`. Together with `Dedup`'s contract this fixes the result completely. |
| FlowGraph.FirstIndexAppend | src/utils/flowchartValidation.ts:152 | Appending an element leaves the first occurrence of every earlier element where it was. A new element's first occurrence is the last position. |
| FlowGraph.DedupDistinct | src/utils/flowchartValidation.ts:152 | Removing duplicates from a list without repeats changes nothing. |
| FlowGraph.ReachableIsLeast | src/utils/flowchartValidation.ts:162-171 | Every id reachable from the root lies in every set that holds the root and is closed under edges. So the swept set is the least such set. |
| FlowGraph.PathStaysInClosed | src/utils/flowchartValidation.ts:162-171 | A walk from a root inside an edge-closed set ends inside that set. |
| FlowGraph.WitnessHasCycle | src/utils/flowchartValidation.ts:133-140 | The walk `findCycle` records, whose last edge enters a node the walk has left, proves that a cycle can be entered from the start. |
| Validator.StartCountReport | src/utils/flowchartValidation.ts:32-44 | Zero start nodes give exactly one "Missing start node" error. Several give exactly one "Multiple start nodes detected" error that lists the start ids in node order. Exactly one gives neither. |
| Validator.MissingEndReport | src/utils/flowchartValidation.ts:47-53 | There is exactly one "Missing end node" error iff no node is an end node. |
| Validator.UnconnectedReport | src/utils/flowchartValidation.ts:56-75 | The unconnected error fires iff some node's id is neither the source nor the target of any edge. It lists exactly those nodes, and its count equals the length of that list. |
| Validator.StartIncomingReport | src/utils/flowchartValidation.ts:78-91 | The start-incoming error appears iff there is exactly one start node and some edge targets it. It names that node and lists exactly the edges whose target is that node. |
| Validator.EndOutgoingReport | src/utils/flowchartValidation.ts:93-104 | There are as many end-outgoing errors as end nodes with an outgoing edge, in node order. Each names one such node and lists exactly its outgoing edges. |
| Validator.DeadEndReport | src/utils/flowchartValidation.ts:106-117 | Each non-end node with no outgoing edge, start nodes included, yields one warning. The warning names only that node and carries its label. There are no others. |
| Validator.CycleWarningReport | src/utils/flowchartValidation.ts:119-155 | There is one "Cycle detected in flowchart" warning iff there is exactly one start node and a cycle can be entered from it. Its edge ids are those of a cycle witness, without repeats. |
| Validator.UnreachableReport | src/utils/flowchartValidation.ts:157-185 | The unreachable warning appears iff there is exactly one start node and some node cannot be reached from it. It lists exactly those nodes and carries their count. |
| Validator.SelectReport | src/utils/flowchartValidation.ts:31-185 | Among the issues of one message kind, only the check that emits that kind contributes, and it contributes everything it emits. |
| Validator.ErrorChecksSilent | src/utils/flowchartValidation.ts:31-104 | The five error checks emit nothing iff the chart is structurally sound: one start node, an end node, every node touched, no edge into the start node and no edge out of an end node. |
| Validator.WarningChecksSilent | src/utils/flowchartValidation.ts:106-185 | On a structurally sound chart, the three warning checks emit nothing iff there are no dead ends, no reachable cycle and no unreachable node. |
| Validator.ValidityReport | src/utils/flowchartValidation.ts:188-195 | Every issue of a report is a warning iff the chart is structurally sound. |
| Validator.CleanReport | src/utils/flowchartValidation.ts:197-208 | A report is empty iff the chart is well formed. |
| Validator.VerdictOfReport | src/utils/flowchartValidation.ts:187-208 | The assembled verdict is valid iff the chart is structurally sound. It is "Flowchart is valid" with no issues iff the chart is well formed. |

## Left out

- The reactflow `Node` and `Edge` types: only the node id, type and label and the edge id, source and target are modelled. Positions, styling and other `data` fields are not read by the validator.
- Node types other than `"start"` and `"end"`: they are one kind, `Other`, because the validator tests only for those two strings.
- The node label is a string. A missing `data.label` (which the source would interpolate as `undefined`) is not modelled.
- The message texts are not modelled. Each message is a constructor that carries its count or label, and the summary of an invalid result is the first error's message constructor.
- Traversal.DetectCycle: the cycle ids are stated as the ids of some walk from the start whose last edge closes a cycle. The contract does not say which walk the depth-first order picks.
- Validator.CycleCheck: its contract inherits the same choice: the warning's edge ids belong to some cycle witness, not to a specific one.
- Validator.ValidateFlowchart: through `IsReport` and `CycleIssues` it has the same gap. The cycle warning in the result carries the deduplicated ids of some walk from the start that closes a cycle, not necessarily the depth-first path recorded at :132 and :139. Every other issue is determined exactly.
- Validator.CycleWarningReport: same gap. The warning's edge ids are those of some cycle witness, not necessarily the depth-first path.
- Traversal.FindCycle and Traversal.TraverseNodes: the recursion depth is unbounded in the model. The source recurses once per node on the current path (:135, :168). On a long enough chain, the JavaScript engine's call-stack limit throws a `RangeError` out of `validateFlowchart`. That limit and the exception are not modelled, and the model always returns a result.
- Traversal.FindCycle: the `visited` and `recursionStack` sets and the `cycleEdges` array (:121-123), which the closure captures and updates in place, are passed in and their new values returned. `path` stays an ordinary argument, as in the source (:125). The recursion measure is a ghost set that bounds the ids a search can reach.
- Traversal.TraverseNodes: as above, `reachableNodes` is passed in and returned. Ids of nodes absent from the chart may enter the set through dangling edges, as in the source.
- The user interface components (the sidebar palette and the application header) hold no validation logic and are not part of this model.
