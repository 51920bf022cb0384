# WorkflowAnalyser subgraph builder in Dafny

This project models the core of WorkflowAnalyser's graph builder
(`WorkflowGraphBuilder`). The builder takes a list of workflow records. Each
record has an `Index`, a `FunctionIndex`, a `Type` and a `NextWorkflows`
string that encodes its successors as `;`-separated entries, each either
`target` or `condition:target`. From these records the builder extracts the
subgraph around a start workflow and returns styled nodes and edges:

- `ParseNext` turns a `NextWorkflows` string into `(target, condition)` pairs.
- The forward builder (`BuildSubgraphFromJsonFile`) builds the outgoing
  adjacency map and runs a breadth-first search bounded by `maxDepth`. It
  records every edge it walks, in order, and draws the nodes in ascending
  order.
- The bidirectional builder (`BuildBidirectionalSubgraphFromJsonFile`) builds
  both an outgoing and an incoming adjacency map. It runs one bounded search
  along each, with its own depth limit. It keeps every edge in its real
  direction and draws the edges sorted by `(From, To)`.
- Nodes are labelled `"{Index} ({FunctionIndex})"`. Decisions are diamonds.
  FunctionIndex 6 is filled red, 7 orange, and the start node light blue.
  Edges with a condition are labelled, orange and two wide; all others are
  green.

Modules, in dependency order:

- `Wrappers`: `Option` and `Result`.
- `Text`: the .NET string and integer behaviour the builder relies on.
- `Workflows`: the records and `ToDictionary`.
- `SuccessorParser`: `ParseNext`.
- `Adjacency`: the outgoing and incoming maps.
- `Traversal`: the bounded breadth-first search.
- `Walks`: what the search levels mean, in terms of walks.
- `Ordering`: the `OrderBy` sorts.
- `Styling`: node and edge attributes.
- `GraphBuilder`: the two builders.
- `Scenarios`: worked examples.

Each loop of the source is a method proved against a specification function:

| method | specification |
|---|---|
| `ParseNext` | `NextLinks` |
| `BuildOutgoing`, `BuildAdjacency` | `OutgoingMap`, `IncomingMap` |
| `Traverse` | `Reach` (the nodes within `d` levels) and `StepsOut` |

The builders' contracts are stated over `ForwardNodes`, `ForwardEdges`,
`BidirectionalNodes` and `BidirectionalEdges`. The lemmas give their meaning:
walks of bounded length, edges declared in the data, and endpoint containment.

Exceptions in the source become error results:

- `DuplicateIndex`: `ToDictionary` throws on a repeated `Index`.
- `UnknownStartIndex`: the explicit start check.
- `UnknownNode`: the `byIndex[idx]` lookup of a collected node without a
  record. This is the smallest such id, because nodes are drawn in ascending
  order.

The forward builder keeps its edges in a `List`
(WorkflowAnalyser/WorkflowGraphBuilder.cs:36, 49), unlike the bidirectional
builder's `HashSet`, so a repeated entry is drawn twice. The model follows the
code: `ForwardEdgeList` is a list with one edge per adjacency entry of each
expanded node, the start first and the nodes level by level. `ForwardEdges`
is its set of members.

## Model

| member | source | states |
|---|---|---|
| Workflows.ToDictionary | WorkflowAnalyser/WorkflowGraphBuilder.cs:20 | It succeeds exactly when no two records share an `Index`. The keys are the indices, each record is stored under its own `Index`, and every stored record's `Index` is its key. |
| SuccessorParser.ParseNext | WorkflowAnalyser/WorkflowGraphBuilder.cs:112-135 | The loop returns exactly `NextLinks`: the parsed entries, in entry order. |
| SuccessorParser.BlankHasNoLinks | WorkflowAnalyser/WorkflowGraphBuilder.cs:115-116 | A null or white-space-only successor string has no entries and no successors. |
| SuccessorParser.ParseTokensMembership | WorkflowAnalyser/WorkflowGraphBuilder.cs:118-131 | A link is produced exactly when some entry parses to it. |
| SuccessorParser.NextLinkOrigin | WorkflowAnalyser/WorkflowGraphBuilder.cs:115-131 | Every successor comes from a trimmed, non-empty, `;`-free entry that parses to it. It has a condition exactly when that entry contains `:`. |
| SuccessorParser.ParsedTokenShape | WorkflowAnalyser/WorkflowGraphBuilder.cs:120-131 | A parsed entry has a condition exactly when it contains `:`. The condition is the trimmed, non-empty, colon-free text before the first `:`, and the target is the 32-bit integer after it. Without a condition, the whole entry is the target. |
| SuccessorParser.ParsedConditionNotBlank | WorkflowAnalyser/WorkflowGraphBuilder.cs:123-128 | A condition read from an entry is never null or white space. |
| SuccessorParser.LeadingColonDropped | WorkflowAnalyser/WorkflowGraphBuilder.cs:123-131 | An entry starting with `:` (such as `":2"`) produces nothing. |
| SuccessorParser.SecondColonDropped | WorkflowAnalyser/WorkflowGraphBuilder.cs:123-131 | An entry with a second `:` after the first (such as `"a:3:4"`) produces nothing. |
| SuccessorParser.EncodeLinkParses | WorkflowAnalyser/WorkflowGraphBuilder.cs:120-131 | A link written as `target` or `condition:target` is a well-formed entry that parses back to the same link. |
| SuccessorParser.RoundTrip | WorkflowAnalyser/WorkflowGraphBuilder.cs:112-135 | Writing any list of encodable links in the successor notation and parsing the text gives the same list back. |
| SuccessorParser.ConditionalPairExample | WorkflowAnalyser/WorkflowGraphBuilder.cs:112-135 | `"A:2;B:3"` parses to `[(2, "A"), (3, "B")]`. |
| Adjacency.BuildOutgoing | WorkflowAnalyser/WorkflowGraphBuilder.cs:26-32 | The loop builds exactly `OutgoingMap`. |
| Adjacency.BuildAdjacency | WorkflowAnalyser/WorkflowGraphBuilder.cs:155-174 | The loop builds exactly `OutgoingMap` and `IncomingMap`. |
| Adjacency.RecordIncoming | WorkflowAnalyser/WorkflowGraphBuilder.cs:165-173 | The inner loop appends `(from, cond)` to `incoming[to]` for each parsed successor, creating missing lists (`AddIncoming`). |
| Adjacency.OutgoingKeys | WorkflowAnalyser/WorkflowGraphBuilder.cs:158-163 | A key is in the outgoing map exactly when some record with that index has a non-empty parsed successor list. |
| Adjacency.OutgoingEntry | WorkflowAnalyser/WorkflowGraphBuilder.cs:158-163 | With unique indices, a record's outgoing entry is its parsed successor list. |
| Adjacency.IncomingEntries | WorkflowAnalyser/WorkflowGraphBuilder.cs:165-173 | `incoming[to]` holds `(from, cond)` exactly when some record with index `from` lists `(to, cond)`. No incoming list is empty. |
| Adjacency.Mirror | WorkflowAnalyser/WorkflowGraphBuilder.cs:155-174 | With unique indices, `(from, cond)` is in `incoming[to]` exactly when `(to, cond)` is in `outgoing[from]`. |
| Walks.IncomingReversesOutgoing | WorkflowAnalyser/WorkflowGraphBuilder.cs:155-174 | With unique indices, the incoming map links `a` to `b` exactly when the outgoing map links `b` to `a`. |
| Traversal.Traverse | WorkflowAnalyser/WorkflowGraphBuilder.cs:35-54 | The search loop ends having visited exactly the nodes within `max(maxDepth, 0)` levels of the start. It expands each node closer than that exactly once, the start first and level by level (no node after one farther from the start). Its recorded steps are, node by node in that order, the adjacency entries of the expanded nodes. |
| Traversal.ExpandEntries | WorkflowAnalyser/WorkflowGraphBuilder.cs:47-53 | The inner loop records every entry of the current node and enqueues each new target one level deeper. It restores the loop invariant. |
| Traversal.ReachGrows | WorkflowAnalyser/WorkflowGraphBuilder.cs:40-54 | More levels reach at least the same nodes. |
| Traversal.StepsOfMembers | WorkflowAnalyser/WorkflowGraphBuilder.cs:47-49 | The recorded step list holds exactly the entries of the expanded nodes. |
| Traversal.StepsInside | WorkflowAnalyser/WorkflowGraphBuilder.cs:47-52 | Every recorded step joins two visited nodes. |
| Walks.ReachIsWalks | WorkflowAnalyser/WorkflowGraphBuilder.cs:35-54 | A node is within `d` levels of the start exactly when a walk of at most `d` links leads to it. |
| Ordering.Ascending | WorkflowAnalyser/WorkflowGraphBuilder.cs:67 | `nodes.OrderBy(i => i)` returns the set's members in strictly ascending order. |
| Ordering.OrderByFromTo | WorkflowAnalyser/WorkflowGraphBuilder.cs:265 | `edges.OrderBy(From).ThenBy(To)` returns the set's members ordered by `(From, To)`. |
| Styling.StyleNode | WorkflowAnalyser/WorkflowGraphBuilder.cs:67-90 | The label shows the record's index and function index. The shape is a diamond exactly for a (trimmed, case-insensitive) "Decision". The start is light blue whatever its function index; any other node is red exactly for 6, orange exactly for 7, and unset otherwise. |
| Styling.StyleEdge | WorkflowAnalyser/WorkflowGraphBuilder.cs:93-107 | An edge is orange exactly when its condition is not blank; then it is labelled with the condition and two wide. Otherwise it is green, unlabelled and of default width. |
| Styling.LabelRoundTrip | WorkflowAnalyser/WorkflowGraphBuilder.cs:72 | The label text `"{Index} ({FunctionIndex})"` reads back to the same two numbers. |
| Styling.ParsedEdgeColor | WorkflowAnalyser/WorkflowGraphBuilder.cs:97-102 | An edge built from a parsed successor is orange and labelled exactly when the successor has a condition. |
| GraphBuilder.BuildSubgraph | WorkflowAnalyser/WorkflowGraphBuilder.cs:9-110 | The forward builder fails with `DuplicateIndex` on repeated indices, with `UnknownStartIndex` on a missing start, and with `UnknownNode` of the smallest collected node without a record. Otherwise it draws exactly `ForwardNodes`, ascending, and the edge list holds one styled edge per entry of each expanded node, taking the nodes start first and level by level. The edge list's members are exactly `ForwardEdges`, so the forward-edge lemmas below are about what it draws. With `maxDepth <= 0` it draws the start alone and no edges. |
| GraphBuilder.BuildBidirectionalSubgraph | WorkflowAnalyser/WorkflowGraphBuilder.cs:137-286 | The same error cases, then exactly `BidirectionalNodes`, ascending. The edges are exactly those of `BidirectionalEdges` with both endpoints drawn, once each, ordered by `(From, To)` and styled. |
| GraphBuilder.CollectForward | WorkflowAnalyser/WorkflowGraphBuilder.cs:35-54 | The forward search collects exactly `ForwardNodes`. Its edge list is one edge per adjacency entry of each expanded node, taking the nodes start first and level by level. |
| GraphBuilder.CollectBoth | WorkflowAnalyser/WorkflowGraphBuilder.cs:176-229 | The two passes collect the start plus every node either pass reaches. The outgoing edges keep their direction and the incoming edges are turned back to `from -> cur`. |
| GraphBuilder.Pass | WorkflowAnalyser/WorkflowGraphBuilder.cs:180-202 | One pass finds exactly the entries of its expanded nodes. Its targets, together with the start, are the nodes it reaches. |
| GraphBuilder.NoPass | WorkflowAnalyser/WorkflowGraphBuilder.cs:180-205 | A pass whose depth is zero or less finds nothing and reaches only the start. |
| GraphBuilder.DrawNodes | WorkflowAnalyser/WorkflowGraphBuilder.cs:67-90 | It succeeds exactly when every collected node has a record. On success it draws each collected node once, ascending, from its own record; otherwise it reports the smallest node without one. |
| GraphBuilder.StyleNodes | WorkflowAnalyser/WorkflowGraphBuilder.cs:67-90 | The node loop styles each id from its record and stops at the first id without one. |
| GraphBuilder.StyleEdges | WorkflowAnalyser/WorkflowGraphBuilder.cs:93-107 | The forward edge loop styles every recorded edge, in order. |
| GraphBuilder.DrawEdges | WorkflowAnalyser/WorkflowGraphBuilder.cs:265-283 | The bidirectional edge loop emits, in `(From, To)` order, exactly the collected edges whose endpoints are both nodes, each once and styled. |
| GraphBuilder.KeptMembers | WorkflowAnalyser/WorkflowGraphBuilder.cs:268 | The endpoint filter keeps exactly the edges with both endpoints among the nodes. |
| GraphBuilder.MissingIsLeast | WorkflowAnalyser/WorkflowGraphBuilder.cs:67-69 | The first id without a record, in ascending order, is the smallest collected node without one. |
| GraphBuilder.ZeroDepth | WorkflowAnalyser/WorkflowGraphBuilder.cs:43 | With `maxDepth <= 0` the forward edge list is empty. |
| GraphBuilder.StartEdgesFirst | WorkflowAnalyser/WorkflowGraphBuilder.cs:36-49 | With `maxDepth > 0` the forward edge list begins with the start's own successors, styled, in the order its successor string lists them. |
| GraphBuilder.ForwardEdgeListMembers | WorkflowAnalyser/WorkflowGraphBuilder.cs:35-54 | The edges in the forward edge list, as a set, are exactly `ForwardEdges`. |
| GraphBuilder.StartCollected | WorkflowAnalyser/WorkflowGraphBuilder.cs:176 | Both builders always collect the start, whatever the depths. |
| GraphBuilder.ForwardEdgesExact | WorkflowAnalyser/WorkflowGraphBuilder.cs:40-54 | With unique indices, an edge is recorded by the forward search exactly when its source is expanded (reached at a depth below `maxDepth`) and the data declares it. |
| GraphBuilder.ForwardEdgesInside | WorkflowAnalyser/WorkflowGraphBuilder.cs:35-54 | Every forward edge joins two collected nodes. |
| GraphBuilder.BidirectionalEdgesExact | WorkflowAnalyser/WorkflowGraphBuilder.cs:176-229 | With unique indices, an edge is collected exactly when the data declares it in that direction and either its source is expanded by the outgoing pass or its target by the incoming pass. |
| GraphBuilder.BidirectionalEdgesInside | WorkflowAnalyser/WorkflowGraphBuilder.cs:265-268 | Every collected edge joins two collected nodes, so the defensive filter drops nothing. |
| GraphBuilder.ForwardGrows | WorkflowAnalyser/WorkflowGraphBuilder.cs:40-54 | A larger `maxDepth` collects at least the same nodes and edges. |
| GraphBuilder.ForwardNodesByWalks | WorkflowAnalyser/WorkflowGraphBuilder.cs:35-54 | The forward nodes are those reached from the start by a walk of at most `maxDepth` parsed successor links. |
| Text.SplitJoin | WorkflowAnalyser/WorkflowGraphBuilder.cs:118 | `Split` on a join of separator-free pieces gives the pieces back. |
| Text.TrimIdempotent | WorkflowAnalyser/WorkflowGraphBuilder.cs:115 | Trimming twice is trimming once. |
| Text.ParseIntToString | WorkflowAnalyser/WorkflowGraphBuilder.cs:130 | `int.TryParse` of `n.ToString()` gives `n` back for every 32-bit `n`. |
| Scenarios.ChainForward | WorkflowAnalyser/WorkflowGraphBuilder.cs:35-54 | On the chain `1 -A-> 2`, `1 -B-> 3`, `3 -> 4`, depth 1 from 1 collects `{1, 2, 3}` with the two conditional edges, and depth 2 adds 4 and `3 -> 4`. |
| Scenarios.ChainForwardList | WorkflowAnalyser/WorkflowGraphBuilder.cs:35-54 | On the chain, depth 2 from 1 gives exactly the edge list `1 -A-> 2`, `1 -B-> 3`, `3 -> 4`, in that order and styled. |
| Scenarios.ChainBidirectional | WorkflowAnalyser/WorkflowGraphBuilder.cs:176-229 | On the same chain, depth 1 each way from 3 collects `{1, 3, 4}` with `1 -B-> 3` and `3 -> 4`. |
| Scenarios.DanglingTarget | WorkflowAnalyser/WorkflowGraphBuilder.cs:67-69 | A successor without a record makes the forward builder fail on that node. |

## Left out

- Reading the workflow file and deserialising its JSON (WorkflowAnalyser/WorkflowGraphBuilder.cs:14-18, 143-147). Both builders take the records as a sequence. A file that fails to deserialise is not modelled.
- The MSAGL graph object: `Graph`, `AddNode`, `AddEdge`, `UserData` and `LayerDirection`. The builders return plain styled node and edge records plus the index-to-record map. Each node carries its record as `data`.
- The WPF windows, the view models and the function-index documentation lookup. They are presentation code. The depth checks of the main window are not preconditions here, because the builders handle any depth.
- Styling.StyledNode: the label is kept as the two numbers it shows (`NodeLabel`), with `Text()` giving the string. `LabelRoundTrip` shows the text determines both numbers.
- Text.ParseInt32: `int.TryParse` is modelled for `NumberStyles.Integer` with the invariant culture: ASCII white space, one optional `+` or `-`, ASCII digits, and a 32-bit range. Culture-specific signs and trailing NUL characters are not modelled.
- Styling.NodeLabel.Text: the label's numbers are written with `-` for negative values. The source formats them with the current culture's negative sign.
- Workflows.Workflow: `Index` and `FunctionIndex` are unbounded integers. The source's are 32-bit `int`, but no operation here does arithmetic on them, so the range does not matter.
- Styling.IsDecision: the case-insensitive comparison folds ASCII letters only. A non-ASCII character whose upper case is a letter of "Decision" (such as U+017F, long s, whose upper case is `S`) is not folded, so such a spelling is not modelled as a decision.
- Traversal.Traverse: the order of `order` among nodes at the same distance from the start is not pinned down. The loop invariant keeps the queue's members and their levels, not their positions. The contract fixes the start first, no node after a farther one, and the recorded steps node by node in `order`.
- Traversal.ExpandEntries: it is not stated that the new targets go at the end of the queue, in entry order. It states only that each new target is queued one level deeper, which is what `Traverse`'s invariant needs.
- GraphBuilder.CollectForward: the same gap as `Traverse`, so the edge list is exact up to the order of nodes at the same distance.
- GraphBuilder.BuildSubgraph: within one level, the order in which the forward search expands nodes is not pinned down. The source expands them in the order it first meets them (first in, first out). The contract fixes the start first and the levels in increasing distance, so the edge list is exact up to the order of nodes at the same distance.
- Ordering.OrderByFromTo: edges that share `(From, To)` and differ only in their condition are left in an unspecified relative order. The source's order for them depends on `HashSet` enumeration order.
- Exceptions are error values (`BuildError`) rather than .NET exception types and messages.
