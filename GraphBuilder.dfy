/** The builder's two entry points, on workflow records already loaded:
    forward extraction from a start workflow up to one depth, and extraction
    in both directions with a depth for each. Each returns the styled graph
    together with the lookup from index to workflow, or the error the
    builder stops with. */
module GraphBuilder {
  import opened Wrappers
  import opened Text
  import opened Workflows
  import opened SuccessorParser
  import opened Adjacency
  import opened Traversal
  import opened Styling
  import opened Ordering
  import opened Walks

  /** Why a build stops: two records share an index (`ToDictionary`
      throws), the start index has no record, or a collected node has no
      record (the dictionary lookup throws). */
  datatype BuildError = DuplicateIndex | UnknownStartIndex(index: int) | UnknownNode(index: int)

  /** The renderer's graph: nodes in the order they are added, then edges. */
  datatype Graph = Graph(nodes: seq<StyledNode>, edges: seq<StyledEdge>)

  /** What a build returns: the graph and the lookup from index to workflow. */
  datatype Built = Built(graph: Graph, byIndex: map<int, Workflow>)

  function AsEdge(s: Step): EdgeSpec {
    EdgeSpec(s.cur, s.other, s.cond)
  }

  /** A step of the incoming search, back in its true direction. */
  function AsReversedEdge(s: Step): EdgeSpec {
    EdgeSpec(s.other, s.cur, s.cond)
  }

  function Targets(ss: set<Step>): set<int> {
    set s | s in ss :: s.other
  }

  function Forward(ss: set<Step>): set<EdgeSpec> {
    set s | s in ss :: AsEdge(s)
  }

  function Backward(ss: set<Step>): set<EdgeSpec> {
    set s | s in ss :: AsReversedEdge(s)
  }

  /** The steps one search of `adj` from `start` with depth limit `depth`
      finds: every entry of every node it expands. */
  function Searched(adj: AdjacencyMap, start: int, depth: int): set<Step> {
    StepsOut(adj, Expanded(adj, start, Bound(depth)))
  }

  // ---------------------------------------------------------------------
  // What each mode collects

  /** The nodes forward extraction collects. */
  function ForwardNodes(ws: seq<Workflow>, start: int, maxDepth: int): set<int> {
    Reach(OutgoingMap(ws, NextLinks), start, Bound(maxDepth))
  }

  /** The edges forward extraction records, as a set. */
  function ForwardEdges(ws: seq<Workflow>, start: int, maxDepth: int): set<EdgeSpec> {
    Forward(Searched(OutgoingMap(ws, NextLinks), start, maxDepth))
  }

  /** The nodes bidirectional extraction collects. */
  function BidirectionalNodes(ws: seq<Workflow>, start: int, depthIncoming: int, depthOutgoing: int): set<int> {
    Reach(OutgoingMap(ws, NextLinks), start, Bound(depthOutgoing)) +
    Reach(IncomingMap(ws, NextLinks), start, Bound(depthIncoming))
  }

  /** The edges bidirectional extraction records: the outgoing search's as
      found, the incoming search's turned back to their true direction. */
  function BidirectionalEdges(ws: seq<Workflow>, start: int, depthIncoming: int, depthOutgoing: int): set<EdgeSpec> {
    Forward(Searched(OutgoingMap(ws, NextLinks), start, depthOutgoing)) +
    Backward(Searched(IncomingMap(ws, NextLinks), start, depthIncoming))
  }

  // ---------------------------------------------------------------------
  // What a build returns

  /** `id` is the smallest collected node without a record. */
  predicate LeastMissing(id: int, nodes: set<int>, byIndex: map<int, Workflow>) {
    id in nodes && id !in byIndex && forall x :: x in nodes && x !in byIndex ==> id <= x
  }

  /** The graph's nodes are the collected ones, in ascending order, each
      styled from its own record. */
  predicate NodesDrawn(ns: seq<StyledNode>, nodes: set<int>, byIndex: map<int, Workflow>, start: int) {
    && (forall i, j :: 0 <= i < j < |ns| ==> ns[i].id < ns[j].id)
    && (set k | 0 <= k < |ns| :: ns[k].id) == nodes
    && (forall k :: 0 <= k < |ns| ==> ns[k].id in byIndex && ns[k] == StyleNode(byIndex[ns[k].id], ns[k].id == start))
  }

  /** How a build over records with unique indices ends, given the nodes
      it collects: the start must have a record, then every collected node
      must (the smallest one without is reported), and then the graph's
      nodes are drawn from the records. */
  predicate Outcome(r: Result<Built, BuildError>, byIndex: map<int, Workflow>, start: int, nodes: set<int>) {
    if start !in byIndex then r == Err(UnknownStartIndex(start))
    else if !(nodes <= byIndex.Keys) then r.Err? && r.error.UnknownNode? && LeastMissing(r.error.index, nodes, byIndex)
    else r.Ok? && r.value.byIndex == byIndex && NodesDrawn(r.value.graph.nodes, nodes, byIndex, start)
  }

  /** The forward edge list: for each expanded node in turn, start first
      and level by level, one edge per adjacency entry, so repeated edges
      stay. */
  ghost predicate ForwardEdgeList(ws: seq<Workflow>, start: int, maxDepth: int, order: seq<int>, es: seq<StyledEdge>) {
    var adj := OutgoingMap(ws, NextLinks);
    var steps := StepsOf(adj, order);
    && Distinct(order)
    && (forall n :: n in order <==> n in Expanded(adj, start, Bound(maxDepth)))
    && ByLevels(adj, start, order)
    && (Bound(maxDepth) > 0 ==> |order| > 0 && order[0] == start)
    && |es| == |steps|
    && (forall k :: 0 <= k < |es| ==> es[k] == StyleEdge(AsEdge(steps[k])))
  }

  /** The bidirectional edge list: each collected edge whose endpoints are
      both nodes, once, in `(From, To)` order. */
  predicate EdgesDrawn(es: seq<StyledEdge>, edges: set<EdgeSpec>, nodes: set<int>) {
    && OrderedByFromTo(seq(|es|, k requires 0 <= k < |es| => es[k].edge))
    && (set k | 0 <= k < |es| :: es[k].edge) == (set e | e in edges && e.From in nodes && e.To in nodes)
    && (forall k :: 0 <= k < |es| ==> es[k] == StyleEdge(es[k].edge))
  }

  // ---------------------------------------------------------------------
  // The builders

  /** Forward extraction from `startIndex`, expanding nodes reached at a
      depth below `maxDepth`. */
  method BuildSubgraph(ws: seq<Workflow>, startIndex: int, maxDepth: int) returns (r: Result<Built, BuildError>)
    ensures !UniqueIndices(ws) ==> r == Err(DuplicateIndex)
    ensures UniqueIndices(ws) ==> Outcome(r, ToDictionary(ws).value, startIndex, ForwardNodes(ws, startIndex, maxDepth))
    ensures r.Ok? ==> exists order :: ForwardEdgeList(ws, startIndex, maxDepth, order, r.value.graph.edges)
    ensures r.Ok? ==>
      (set k | 0 <= k < |r.value.graph.edges| :: r.value.graph.edges[k].edge) == ForwardEdges(ws, startIndex, maxDepth)
    ensures r.Ok? && maxDepth <= 0 ==>
      |r.value.graph.nodes| == 1 && r.value.graph.nodes[0].id == startIndex && r.value.graph.edges == []
  {
    var dict := ToDictionary(ws);
    if dict.None? {
      return Err(DuplicateIndex);
    }
    var byIndex := dict.value;
    if startIndex !in byIndex {
      return Err(UnknownStartIndex(startIndex));
    }
    var adj := BuildOutgoing(ws);
    var nodes, edges, order := CollectForward(ws, adj, startIndex, maxDepth);
    var drawn := DrawNodes(nodes, byIndex, startIndex);
    if drawn.Err? {
      return Err(drawn.error);
    }
    var styledEdges := StyleEdges(edges);
    r := Ok(Built(Graph(drawn.value, styledEdges), byIndex));
    ForwardEdgeListMembers(ws, startIndex, maxDepth, order, styledEdges);
    if maxDepth <= 0 {
      ZeroDepthGraph(ws, startIndex, maxDepth, order, r.value.graph, byIndex);
    }
  }

  /** The search of the forward builder: the nodes it collects and the
      edges it records, in the order it records them. */
  method CollectForward(ghost ws: seq<Workflow>, adj: AdjacencyMap, startIndex: int, maxDepth: int)
    returns (nodes: set<int>, edges: seq<EdgeSpec>, ghost order: seq<int>)
    requires adj == OutgoingMap(ws, NextLinks)
    ensures nodes == ForwardNodes(ws, startIndex, maxDepth)
    ensures ForwardEdgeList(ws, startIndex, maxDepth, order, StyleAll(edges))
  {
    var steps;
    nodes, steps, order := Traverse(adj, startIndex, maxDepth);
    edges := seq(|steps|, k requires 0 <= k < |steps| => AsEdge(steps[k]));
    TraversedEdgeList(ws, startIndex, maxDepth, order, steps, StyleAll(edges));
  }

  /** The edges the forward search records, styled in turn, form the
      forward edge list. */
  lemma TraversedEdgeList(ws: seq<Workflow>, start: int, maxDepth: int, order: seq<int>, steps: seq<Step>, es: seq<StyledEdge>)
    requires steps == StepsOf(OutgoingMap(ws, NextLinks), order)
    requires Distinct(order) && forall n :: n in order <==> n in Expanded(OutgoingMap(ws, NextLinks), start, Bound(maxDepth))
    requires ByLevels(OutgoingMap(ws, NextLinks), start, order) && (Bound(maxDepth) > 0 ==> |order| > 0 && order[0] == start)
    requires |es| == |steps| && forall k :: 0 <= k < |steps| ==> es[k] == StyleEdge(AsEdge(steps[k]))
    ensures ForwardEdgeList(ws, start, maxDepth, order, es)
  {
  }

  /** The forward edge list holds exactly the forward edges, so every
      lemma about `ForwardEdges` speaks of what the forward builder draws. */
  lemma ForwardEdgeListMembers(ws: seq<Workflow>, start: int, maxDepth: int, order: seq<int>, es: seq<StyledEdge>)
    requires ForwardEdgeList(ws, start, maxDepth, order, es)
    ensures (set k | 0 <= k < |es| :: es[k].edge) == ForwardEdges(ws, start, maxDepth)
  {
    SearchedEdgeList(OutgoingMap(ws, NextLinks), start, maxDepth, order, es);
  }

  /** Styling the steps of the expanded nodes, in any order, draws the edges
      of the search's steps. */
  lemma SearchedEdgeList(adj: AdjacencyMap, start: int, maxDepth: int, order: seq<int>, es: seq<StyledEdge>)
    requires forall n :: n in order <==> n in Expanded(adj, start, Bound(maxDepth))
    requires |es| == |StepsOf(adj, order)| && forall k :: 0 <= k < |es| ==> es[k] == StyleEdge(AsEdge(StepsOf(adj, order)[k]))
    ensures (set k | 0 <= k < |es| :: es[k].edge) == Forward(Searched(adj, start, maxDepth))
  {
    StepsOfMembers(adj, order);
    var expanded, bound := (set n | n in order), Bound(maxDepth);
    assert expanded == Expanded(adj, start, bound) by {
      forall n ensures n in expanded <==> n in Expanded(adj, start, bound) {
        assert n in expanded <==> n in order;
      }
    }
    StyledStepsMembers(StepsOf(adj, order), Searched(adj, start, maxDepth), es);
  }

  /** Styling a list of steps edge by edge draws the edges of its members. */
  lemma StyledStepsMembers(steps: seq<Step>, ss: set<Step>, es: seq<StyledEdge>)
    requires forall s :: s in steps <==> s in ss
    requires |es| == |steps| && forall k :: 0 <= k < |es| ==> es[k] == StyleEdge(AsEdge(steps[k]))
    ensures (set k | 0 <= k < |es| :: es[k].edge) == Forward(ss)
  {
    var drawn := set k | 0 <= k < |es| :: es[k].edge;
    forall e | e in Forward(ss) ensures e in drawn {
      ForwardMember(ss, e);
      var st := Step(e.From, e.To, e.Condition);
      var k :| 0 <= k < |steps| && steps[k] == st;
      assert es[k].edge == e;
    }
    forall e | e in drawn ensures e in Forward(ss) {
      var k :| 0 <= k < |es| && es[k].edge == e;
      assert steps[k] in steps;
      ForwardMember(ss, e);
    }
  }

  /** Extraction in both directions from `startIndex`: the outgoing search
      bounded by `depthOutgoing`, the incoming one by `depthIncoming`, each
      with its own visited set; a depth of zero or less skips that search. */
  method BuildBidirectionalSubgraph(ws: seq<Workflow>, startIndex: int, depthIncoming: int, depthOutgoing: int)
    returns (r: Result<Built, BuildError>)
    ensures !UniqueIndices(ws) ==> r == Err(DuplicateIndex)
    ensures UniqueIndices(ws) ==>
      Outcome(r, ToDictionary(ws).value, startIndex, BidirectionalNodes(ws, startIndex, depthIncoming, depthOutgoing))
    ensures r.Ok? ==>
      EdgesDrawn(r.value.graph.edges, BidirectionalEdges(ws, startIndex, depthIncoming, depthOutgoing),
                 BidirectionalNodes(ws, startIndex, depthIncoming, depthOutgoing))
  {
    var dict := ToDictionary(ws);
    if dict.None? {
      return Err(DuplicateIndex);
    }
    var byIndex := dict.value;
    if startIndex !in byIndex {
      return Err(UnknownStartIndex(startIndex));
    }
    var outgoing, incoming := BuildAdjacency(ws);
    var nodes, edges := CollectBoth(ws, outgoing, incoming, startIndex, depthIncoming, depthOutgoing);
    var drawn := DrawNodes(nodes, byIndex, startIndex);
    if drawn.Err? {
      return Err(drawn.error);
    }
    var styledEdges := DrawEdges(edges, nodes);
    r := Ok(Built(Graph(drawn.value, styledEdges), byIndex));
  }

  /** The two searches of the bidirectional builder: the start, plus every
      node and edge each search that runs finds. */
  method CollectBoth(ghost ws: seq<Workflow>, outgoing: AdjacencyMap, incoming: AdjacencyMap,
                     startIndex: int, depthIncoming: int, depthOutgoing: int)
    returns (nodes: set<int>, edges: set<EdgeSpec>)
    requires outgoing == OutgoingMap(ws, NextLinks) && incoming == IncomingMap(ws, NextLinks)
    ensures nodes == BidirectionalNodes(ws, startIndex, depthIncoming, depthOutgoing)
    ensures edges == BidirectionalEdges(ws, startIndex, depthIncoming, depthOutgoing)
  {
    var outFound: set<Step> := {};
    var inFound: set<Step> := {};
    if depthOutgoing > 0 {
      outFound := Pass(outgoing, startIndex, depthOutgoing);
    } else {
      NoPass(outgoing, startIndex, depthOutgoing);
    }
    if depthIncoming > 0 {
      inFound := Pass(incoming, startIndex, depthIncoming);
    } else {
      NoPass(incoming, startIndex, depthIncoming);
    }
    nodes := {startIndex} + Targets(outFound) + Targets(inFound);
    edges := Forward(outFound) + Backward(inFound);
  }

  /** One search of the bidirectional builder: the steps it finds, whose
      targets together with the start are the nodes it reaches. */
  method Pass(adj: AdjacencyMap, start: int, depth: int) returns (found: set<Step>)
    requires depth > 0
    ensures found == Searched(adj, start, depth)
    ensures {start} + Targets(found) == Reach(adj, start, Bound(depth))
  {
    var visited, steps, order := Traverse(adj, start, depth);
    found := set s | s in steps;
    ReachFromSteps(adj, start, Bound(depth));
  }

  /** The node loop of both builders: the collected nodes in ascending
      order, each looked up and styled. */
  method DrawNodes(nodes: set<int>, byIndex: map<int, Workflow>, start: int) returns (r: Result<seq<StyledNode>, BuildError>)
    requires forall id :: id in byIndex ==> byIndex[id].Index == id
    ensures r.Ok? <==> nodes <= byIndex.Keys
    ensures r.Ok? ==> NodesDrawn(r.value, nodes, byIndex, start)
    ensures r.Err? ==> r.error.UnknownNode? && LeastMissing(r.error.index, nodes, byIndex)
  {
    var ids := Ascending(nodes);
    r := StyleNodes(ids, byIndex, start);
    if r.Err? {
      MissingIsLeast(ids, nodes, byIndex, r.error.index);
    } else {
      DrawnFromIds(ids, nodes, byIndex, start, r.value);
    }
  }

  /** The forward builder's edge loop: every recorded edge, styled, in order. */
  method StyleEdges(edges: seq<EdgeSpec>) returns (es: seq<StyledEdge>)
    ensures es == StyleAll(edges)
  {
    es := [];
    for k := 0 to |edges|
      invariant es == StyleAll(edges[..k])
    {
      assert edges[..k + 1][..k] == edges[..k];
      es := es + [StyleEdge(edges[k])];
    }
    assert edges[..|edges|] == edges;
  }

  /** The bidirectional builder's edge loop: the edges in `(From, To)`
      order, skipping any whose endpoints are not both nodes. */
  method DrawEdges(edges: set<EdgeSpec>, nodes: set<int>) returns (es: seq<StyledEdge>)
    ensures EdgesDrawn(es, edges, nodes)
  {
    var sorted := OrderByFromTo(edges);
    es := [];
    for k := 0 to |sorted|
      invariant es == StyleAll(Kept(sorted[..k], nodes))
    {
      var e := sorted[k];
      assert sorted[..k + 1][..k] == sorted[..k];
      if e.From !in nodes || e.To !in nodes {
        continue;
      }
      es := es + [StyleEdge(e)];
    }
    assert sorted[..|sorted|] == sorted;
    KeptMembers(sorted, nodes);
    KeptOrdered(sorted, nodes);
    StyleAllDrawn(Kept(sorted, nodes), edges, nodes);
  }

  // ---------------------------------------------------------------------
  // Ordering, styling and filtering

  /** The node loop: look each id up and style its record; the first id
      without a record stops the build. */
  method StyleNodes(ids: seq<int>, byIndex: map<int, Workflow>, start: int) returns (r: Result<seq<StyledNode>, BuildError>)
    ensures r.Ok? <==> forall k :: 0 <= k < |ids| ==> ids[k] in byIndex
    ensures r.Ok? ==> r.value == StyleEach(ids, byIndex, start)
    ensures r.Err? ==> exists k :: 0 <= k < |ids| && ids[k] !in byIndex && r.error == UnknownNode(ids[k]) &&
                                   forall j :: 0 <= j < k ==> ids[j] in byIndex
  {
    var nodes: seq<StyledNode> := [];
    for k := 0 to |ids|
      invariant forall j :: 0 <= j < k ==> ids[j] in byIndex
      invariant nodes == StyleEach(ids[..k], byIndex, start)
    {
      var idx := ids[k];
      if idx !in byIndex {
        r := Err(UnknownNode(idx));
        assert ids[k] !in byIndex && r.error == UnknownNode(ids[k]);
        return;
      }
      var wf := byIndex[idx];
      StyleEachSnoc(ids, byIndex, start, k);
      nodes := nodes + [StyleNode(wf, idx == start)];
    }
    assert ids[..|ids|] == ids;
    return Ok(nodes);
  }

  /** The nodes for `ids`, each styled from its record. */
  function StyleEach(ids: seq<int>, byIndex: map<int, Workflow>, start: int): (r: seq<StyledNode>)
    requires forall k :: 0 <= k < |ids| ==> ids[k] in byIndex
    ensures |r| == |ids| && forall k :: 0 <= k < |ids| ==> r[k] == StyleNode(byIndex[ids[k]], ids[k] == start)
  {
    if |ids| == 0 then []
    else StyleEach(ids[..|ids| - 1], byIndex, start) + [StyleNode(byIndex[ids[|ids| - 1]], ids[|ids| - 1] == start)]
  }

  lemma StyleEachSnoc(ids: seq<int>, byIndex: map<int, Workflow>, start: int, k: nat)
    requires k < |ids| && forall j :: 0 <= j <= k ==> ids[j] in byIndex
    ensures StyleEach(ids[..k + 1], byIndex, start) ==
      StyleEach(ids[..k], byIndex, start) + [StyleNode(byIndex[ids[k]], ids[k] == start)]
  {
    assert ids[..k + 1][..k] == ids[..k];
  }

  /** Each node styled from the record of its id carries that id. */
  lemma StyledIds(nodes: seq<StyledNode>, ids: seq<int>, byIndex: map<int, Workflow>, start: int)
    requires forall id :: id in byIndex ==> byIndex[id].Index == id
    requires |nodes| == |ids| && forall j :: 0 <= j < |ids| ==> ids[j] in byIndex
    requires forall j :: 0 <= j < |ids| ==> nodes[j] == StyleNode(byIndex[ids[j]], ids[j] == start)
    ensures forall k :: 0 <= k < |ids| ==> nodes[k].id == ids[k]
  {
    forall k | 0 <= k < |ids| ensures nodes[k].id == ids[k] {
      assert byIndex[ids[k]].Index == ids[k];
    }
  }

  function StyleAll(es: seq<EdgeSpec>): (r: seq<StyledEdge>)
    ensures |r| == |es| && forall k :: 0 <= k < |es| ==> r[k] == StyleEdge(es[k])
  {
    if |es| == 0 then [] else StyleAll(es[..|es| - 1]) + [StyleEdge(es[|es| - 1])]
  }

  /** The edges the defensive filter keeps: those with both endpoints among
      `nodes`, in their order. */
  function Kept(es: seq<EdgeSpec>, nodes: set<int>): seq<EdgeSpec> {
    if |es| == 0 then []
    else
      var e := es[|es| - 1];
      Kept(es[..|es| - 1], nodes) + (if e.From in nodes && e.To in nodes then [e] else [])
  }

  // ---------------------------------------------------------------------
  // Lemmas the builders use

  /** The first id without a record, in ascending order, is the smallest
      collected node without one. */
  lemma MissingIsLeast(ids: seq<int>, nodes: set<int>, byIndex: map<int, Workflow>, id: int)
    requires forall x :: x in ids <==> x in nodes
    requires forall i, j :: 0 <= i < j < |ids| ==> ids[i] < ids[j]
    requires exists k :: 0 <= k < |ids| && ids[k] !in byIndex && id == ids[k] && forall j :: 0 <= j < k ==> ids[j] in byIndex
    ensures LeastMissing(id, nodes, byIndex) && !(nodes <= byIndex.Keys)
  {
    var k :| 0 <= k < |ids| && ids[k] !in byIndex && id == ids[k] && forall j :: 0 <= j < k ==> ids[j] in byIndex;
    forall x | x in nodes && x !in byIndex ensures id <= x {
      var m :| 0 <= m < |ids| && ids[m] == x;
      if m < k { assert ids[m] in byIndex; }
    }
  }

  /** Styling the ascending ids draws exactly the collected nodes. */
  lemma DrawnFromIds(ids: seq<int>, nodes: set<int>, byIndex: map<int, Workflow>, start: int, ns: seq<StyledNode>)
    requires forall x :: x in ids <==> x in nodes
    requires forall i, j :: 0 <= i < j < |ids| ==> ids[i] < ids[j]
    requires |ns| == |ids| && forall k :: 0 <= k < |ids| ==>
      ids[k] in byIndex && ns[k].id == ids[k] && ns[k] == StyleNode(byIndex[ids[k]], ids[k] == start)
    ensures NodesDrawn(ns, nodes, byIndex, start) && nodes <= byIndex.Keys
  {
    forall x | x in nodes ensures x in (set k | 0 <= k < |ns| :: ns[k].id) && x in byIndex {
      var k :| 0 <= k < |ids| && ids[k] == x;
      assert ns[k].id == x;
    }
  }

  /** A search that does not run finds nothing and reaches only the start. */
  lemma NoPass(adj: AdjacencyMap, start: int, depth: int)
    requires depth <= 0
    ensures Searched(adj, start, depth) == {}
    ensures Reach(adj, start, Bound(depth)) == {start}
  {
  }

  /** With no depth to expand, the forward edge list is empty. */
  lemma ZeroDepth(ws: seq<Workflow>, start: int, maxDepth: int, order: seq<int>, es: seq<StyledEdge>)
    requires maxDepth <= 0 && ForwardEdgeList(ws, start, maxDepth, order, es)
    ensures es == []
  {
    assert Expanded(OutgoingMap(ws, NextLinks), start, Bound(maxDepth)) == {};
    assert multiset(order) == multiset{} by {
      forall n ensures multiset(order)[n] == 0 {
        assert n !in order;
      }
    }
    assert |order| == |multiset(order)| == 0;
  }

  /** With no depth to expand, the forward graph is the start alone. */
  lemma ZeroDepthGraph(ws: seq<Workflow>, start: int, maxDepth: int, order: seq<int>, g: Graph, byIndex: map<int, Workflow>)
    requires maxDepth <= 0 && ForwardEdgeList(ws, start, maxDepth, order, g.edges)
    requires NodesDrawn(g.nodes, ForwardNodes(ws, start, maxDepth), byIndex, start)
    ensures |g.nodes| == 1 && g.nodes[0].id == start && g.edges == []
  {
    ZeroDepth(ws, start, maxDepth, order, g.edges);
    SingleNode(g.nodes, start);
  }

  /** The forward edge list starts with the start's own successors, in the
      order its successor string lists them. */
  lemma StartEdgesFirst(ws: seq<Workflow>, start: int, maxDepth: int, order: seq<int>, es: seq<StyledEdge>)
    requires maxDepth > 0 && ForwardEdgeList(ws, start, maxDepth, order, es)
    ensures var adj := OutgoingMap(ws, NextLinks);
      start in adj ==>
        && |adj[start]| <= |es|
        && forall k :: 0 <= k < |adj[start]| ==> es[k] == StyleEdge(EdgeSpec(start, adj[start][k].peer, adj[start][k].cond))
  {
    var adj := OutgoingMap(ws, NextLinks);
    var steps := StepsOf(adj, order);
    assert |order| > 0 && order[0] == start;
    assert |es| == |steps| && forall k :: 0 <= k < |es| ==> es[k] == StyleEdge(AsEdge(steps[k]));
    StepsOfFirst(adj, order);
    if start in adj {
      forall k | 0 <= k < |adj[start]|
        ensures es[k] == StyleEdge(EdgeSpec(start, adj[start][k].peer, adj[start][k].cond))
      {
        assert steps[k] == EntrySteps(adj, start)[k];
      }
    }
  }

  /** The steps of an expansion order begin with the first node's entries. */
  lemma {:induction false} StepsOfFirst(adj: AdjacencyMap, order: seq<int>)
    requires |order| > 0
    ensures var first := EntrySteps(adj, order[0]);
      |first| <= |StepsOf(adj, order)| && StepsOf(adj, order)[..|first|] == first
  {
    var first := EntrySteps(adj, order[0]);
    if |order| > 1 {
      var front := order[..|order| - 1];
      assert front[0] == order[0];
      StepsOfFirst(adj, front);
      var a, b := StepsOf(adj, front), EntrySteps(adj, order[|order| - 1]);
      assert StepsOf(adj, order) == a + b;
      assert (a + b)[..|first|] == a[..|first|];
    } else {
      assert StepsOf(adj, order) == StepsOf(adj, []) + first;
    }
  }

  lemma SingleNode(ns: seq<StyledNode>, start: int)
    requires forall i, j :: 0 <= i < j < |ns| ==> ns[i].id < ns[j].id
    requires (set k | 0 <= k < |ns| :: ns[k].id) == {start}
    ensures |ns| == 1 && ns[0].id == start
  {
    IdCount(ns);
    assert ns[0].id in (set k | 0 <= k < |ns| :: ns[k].id);
  }

  /** Strictly ascending ids are as many as the nodes. */
  lemma {:induction false} IdCount(ns: seq<StyledNode>)
    requires forall i, j :: 0 <= i < j < |ns| ==> ns[i].id < ns[j].id
    ensures |set k | 0 <= k < |ns| :: ns[k].id| == |ns|
  {
    if |ns| > 0 {
      var n := |ns| - 1;
      IdCount(ns[..n]);
      IdsSnoc(ns);
    }
  }

  /** The ids of a non-empty run are those of its front plus a new last one. */
  lemma IdsSnoc(ns: seq<StyledNode>)
    requires |ns| > 0 && forall i, j :: 0 <= i < j < |ns| ==> ns[i].id < ns[j].id
    ensures var n := |ns| - 1;
      && (set k | 0 <= k < |ns| :: ns[k].id) == (set k | 0 <= k < n :: ns[..n][k].id) + {ns[n].id}
      && ns[n].id !in (set k | 0 <= k < n :: ns[..n][k].id)
  {
    var n := |ns| - 1;
    var front := ns[..n];
    var ids, frontIds := set k | 0 <= k < |ns| :: ns[k].id, set k | 0 <= k < n :: front[k].id;
    forall x | x in ids ensures x in frontIds + {ns[n].id} {
      var k :| 0 <= k < |ns| && ns[k].id == x;
      if k < n { assert front[k].id == x; }
    }
  }


  /** The nodes the search collects from its steps are the nodes it reaches. */
  lemma ReachFromSteps(adj: AdjacencyMap, start: int, bound: nat)
    requires bound > 0
    ensures {start} + Targets(StepsOut(adj, Expanded(adj, start, bound))) == Reach(adj, start, bound)
  {
    var r := Reach(adj, start, bound - 1);
    assert Targets(StepsOut(adj, r)) == Neighbours(adj, r) by {
      forall x | x in Neighbours(adj, r) ensures x in Targets(StepsOut(adj, r)) {
        var n, k :| n in r && n in adj && 0 <= k < |adj[n]| && x == adj[n][k].peer;
        assert Step(n, adj[n][k].peer, adj[n][k].cond) in StepsOut(adj, r);
      }
    }
    ReachWithinNext(adj, start, bound - 1);
  }

  /** Every node of a level is the start or a neighbour of that level. */
  lemma {:induction false} ReachWithinNext(adj: AdjacencyMap, start: int, d: nat)
    ensures Reach(adj, start, d) <= {start} + Neighbours(adj, Reach(adj, start, d))
  {
    if d > 0 {
      ReachWithinNext(adj, start, d - 1);
      ReachGrows(adj, start, d - 1, d);
      NeighboursGrow(adj, Reach(adj, start, d - 1), Reach(adj, start, d));
    }
  }

  /** The filter keeps exactly the edges with both endpoints among `nodes`. */
  lemma {:induction false} KeptMembers(es: seq<EdgeSpec>, nodes: set<int>)
    ensures forall e :: e in Kept(es, nodes) <==> e in es && e.From in nodes && e.To in nodes
  {
    if |es| > 0 {
      var front, e := es[..|es| - 1], es[|es| - 1];
      KeptMembers(front, nodes);
      assert es == front + [e];
    }
  }

  /** The filter keeps the order of what it keeps. */
  lemma {:induction false} KeptOrdered(es: seq<EdgeSpec>, nodes: set<int>)
    requires OrderedByFromTo(es)
    ensures OrderedByFromTo(Kept(es, nodes))
  {
    if |es| > 0 {
      var front, e := es[..|es| - 1], es[|es| - 1];
      assert OrderedByFromTo(front);
      KeptOrdered(front, nodes);
      KeptMembers(front, nodes);
      var kf := Kept(front, nodes);
      forall i | 0 <= i < |kf| ensures KeyLeq(kf[i], e) && kf[i] != e {
        var m :| 0 <= m < |front| && front[m] == kf[i];
        assert es[m] == kf[i];
      }
    }
  }

  lemma StyleAllDrawn(es: seq<EdgeSpec>, edges: set<EdgeSpec>, nodes: set<int>)
    requires OrderedByFromTo(es)
    requires forall e :: e in es <==> e in edges && e.From in nodes && e.To in nodes
    ensures EdgesDrawn(StyleAll(es), edges, nodes)
  {
    var ss := StyleAll(es);
    assert seq(|ss|, k requires 0 <= k < |ss| => ss[k].edge) == es;
    forall e | e in edges && e.From in nodes && e.To in nodes ensures e in (set k | 0 <= k < |ss| :: ss[k].edge) {
      var k :| 0 <= k < |es| && es[k] == e;
      assert ss[k].edge == e;
    }
  }

  // ---------------------------------------------------------------------
  // What the collected graphs are

  /** Workflow `e.From` lists `(e.To, e.Condition)` among its parsed
      successors. */
  ghost predicate Declared(ws: seq<Workflow>, e: EdgeSpec) {
    exists i :: 0 <= i < |ws| && ws[i].Index == e.From && Link(e.To, e.Condition) in NextLinks(ws[i].NextWorkflows)
  }

  lemma StepsOutMember(adj: AdjacencyMap, s: set<int>, st: Step)
    ensures st in StepsOut(adj, s) <==> st.cur in s && st.cur in adj && Link(st.other, st.cond) in adj[st.cur]
  {
    if st.cur in s && st.cur in adj && Link(st.other, st.cond) in adj[st.cur] {
      var k :| 0 <= k < |adj[st.cur]| && adj[st.cur][k] == Link(st.other, st.cond);
      assert st == Step(st.cur, adj[st.cur][k].peer, adj[st.cur][k].cond);
    }
  }

  lemma ForwardMember(ss: set<Step>, e: EdgeSpec)
    ensures e in Forward(ss) <==> Step(e.From, e.To, e.Condition) in ss
  {
    if Step(e.From, e.To, e.Condition) in ss {
      assert AsEdge(Step(e.From, e.To, e.Condition)) == e;
    }
  }

  lemma BackwardMember(ss: set<Step>, e: EdgeSpec)
    ensures e in Backward(ss) <==> Step(e.To, e.From, e.Condition) in ss
  {
    if Step(e.To, e.From, e.Condition) in ss {
      assert AsReversedEdge(Step(e.To, e.From, e.Condition)) == e;
    }
  }

  /** With unique indices, the outgoing index holds exactly the declared
      links. */
  lemma OutgoingDeclared(ws: seq<Workflow>, e: EdgeSpec)
    requires UniqueIndices(ws)
    ensures (e.From in OutgoingMap(ws, NextLinks) && Link(e.To, e.Condition) in OutgoingMap(ws, NextLinks)[e.From]) <==>
      Declared(ws, e)
  {
    OutgoingKeys(ws, NextLinks, e.From);
    if Declared(ws, e) {
      var i :| 0 <= i < |ws| && ws[i].Index == e.From && Link(e.To, e.Condition) in NextLinks(ws[i].NextWorkflows);
      OutgoingEntry(ws, NextLinks, i);
    }
    if e.From in OutgoingMap(ws, NextLinks) {
      var i :| 0 <= i < |ws| && ws[i].Index == e.From && NextLinks(ws[i].NextWorkflows) != [];
      OutgoingEntry(ws, NextLinks, i);
    }
  }

  /** The forward edges are exactly the declared links out of the nodes the
      search expands. */
  lemma ForwardEdgesExact(ws: seq<Workflow>, start: int, maxDepth: int, e: EdgeSpec)
    requires UniqueIndices(ws)
    ensures e in ForwardEdges(ws, start, maxDepth) <==>
      e.From in Expanded(OutgoingMap(ws, NextLinks), start, Bound(maxDepth)) && Declared(ws, e)
  {
    var adj := OutgoingMap(ws, NextLinks);
    ForwardMember(Searched(adj, start, maxDepth), e);
    StepsOutMember(adj, Expanded(adj, start, Bound(maxDepth)), Step(e.From, e.To, e.Condition));
    OutgoingDeclared(ws, e);
  }

  /** The bidirectional edges are exactly the declared links out of a node
      the outgoing search expands or into a node the incoming search
      expands. */
  lemma BidirectionalEdgesExact(ws: seq<Workflow>, start: int, depthIncoming: int, depthOutgoing: int, e: EdgeSpec)
    requires UniqueIndices(ws)
    ensures e in BidirectionalEdges(ws, start, depthIncoming, depthOutgoing) <==>
      Declared(ws, e) &&
      (e.From in Expanded(OutgoingMap(ws, NextLinks), start, Bound(depthOutgoing)) ||
       e.To in Expanded(IncomingMap(ws, NextLinks), start, Bound(depthIncoming)))
  {
    var outgoing := OutgoingMap(ws, NextLinks);
    var incoming := IncomingMap(ws, NextLinks);
    ForwardMember(Searched(outgoing, start, depthOutgoing), e);
    StepsOutMember(outgoing, Expanded(outgoing, start, Bound(depthOutgoing)), Step(e.From, e.To, e.Condition));
    OutgoingDeclared(ws, e);
    BackwardMember(Searched(incoming, start, depthIncoming), e);
    StepsOutMember(incoming, Expanded(incoming, start, Bound(depthIncoming)), Step(e.To, e.From, e.Condition));
    IncomingEntries(ws, NextLinks, e.To, Link(e.From, e.Condition));
  }

  /** Every forward edge joins two collected nodes. */
  lemma ForwardEdgesInside(ws: seq<Workflow>, start: int, maxDepth: int)
    ensures forall e :: e in ForwardEdges(ws, start, maxDepth) ==>
      e.From in ForwardNodes(ws, start, maxDepth) && e.To in ForwardNodes(ws, start, maxDepth)
  {
    var adj := OutgoingMap(ws, NextLinks);
    StepsInside(adj, start, Bound(maxDepth));
    forall e | e in ForwardEdges(ws, start, maxDepth)
      ensures e.From in ForwardNodes(ws, start, maxDepth) && e.To in ForwardNodes(ws, start, maxDepth)
    {
      ForwardMember(Searched(adj, start, maxDepth), e);
    }
  }

  /** Every bidirectional edge joins two collected nodes, so the final
      endpoint filter keeps every edge. */
  lemma BidirectionalEdgesInside(ws: seq<Workflow>, start: int, depthIncoming: int, depthOutgoing: int)
    ensures forall e :: e in BidirectionalEdges(ws, start, depthIncoming, depthOutgoing) ==>
      var nodes := BidirectionalNodes(ws, start, depthIncoming, depthOutgoing);
      e.From in nodes && e.To in nodes
  {
    var outgoing := OutgoingMap(ws, NextLinks);
    var incoming := IncomingMap(ws, NextLinks);
    StepsInside(outgoing, start, Bound(depthOutgoing));
    StepsInside(incoming, start, Bound(depthIncoming));
    forall e | e in BidirectionalEdges(ws, start, depthIncoming, depthOutgoing)
      ensures var nodes := BidirectionalNodes(ws, start, depthIncoming, depthOutgoing);
        e.From in nodes && e.To in nodes
    {
      ForwardMember(Searched(outgoing, start, depthOutgoing), e);
      BackwardMember(Searched(incoming, start, depthIncoming), e);
    }
  }

  /** The start is always among the collected nodes, whatever the depths. */
  lemma StartCollected(ws: seq<Workflow>, start: int, maxDepth: int, depthIncoming: int, depthOutgoing: int)
    ensures start in ForwardNodes(ws, start, maxDepth)
    ensures start in BidirectionalNodes(ws, start, depthIncoming, depthOutgoing)
  {
    ReachGrows(OutgoingMap(ws, NextLinks), start, 0, Bound(maxDepth));
    ReachGrows(OutgoingMap(ws, NextLinks), start, 0, Bound(depthOutgoing));
  }

  /** A larger depth limit collects at least the same nodes and edges. */
  lemma ForwardGrows(ws: seq<Workflow>, start: int, a: int, b: int)
    requires a <= b
    ensures ForwardNodes(ws, start, a) <= ForwardNodes(ws, start, b)
    ensures ForwardEdges(ws, start, a) <= ForwardEdges(ws, start, b)
  {
    var adj := OutgoingMap(ws, NextLinks);
    ReachGrows(adj, start, Bound(a), Bound(b));
    SearchedGrows(adj, start, a, b);
    var x, y := Searched(adj, start, a), Searched(adj, start, b);
    forall e | e in Forward(x) ensures e in Forward(y) {
      ForwardMember(x, e);
      ForwardMember(y, e);
    }
  }

  /** A larger depth limit searches at least the same entries. */
  lemma SearchedGrows(adj: AdjacencyMap, start: int, a: int, b: int)
    requires a <= b
    ensures Searched(adj, start, a) <= Searched(adj, start, b)
  {
    if Bound(a) > 0 {
      ReachGrows(adj, start, Bound(a) - 1, Bound(b) - 1);
    }
    var x, y := Expanded(adj, start, Bound(a)), Expanded(adj, start, Bound(b));
    assert x <= y;
    forall st | st in StepsOut(adj, x) ensures st in StepsOut(adj, y) {
      StepsOutMember(adj, x, st);
      StepsOutMember(adj, y, st);
    }
  }

  /** The forward nodes are those a walk of at most `maxDepth` parsed
      successor links leads to from the start. */
  lemma ForwardNodesByWalks(ws: seq<Workflow>, start: int, maxDepth: int, n: int)
    ensures n in ForwardNodes(ws, start, maxDepth) <==>
      exists p :: IsWalk(OutgoingMap(ws, NextLinks), start, n, p) && |p| <= Bound(maxDepth) + 1
  {
    ReachIsWalks(OutgoingMap(ws, NextLinks), start, Bound(maxDepth), n);
  }
}
