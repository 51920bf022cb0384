/** Worked examples: a four-workflow chain with one branching workflow, and
    a workflow that names a successor with no record. */
module Scenarios {
  import opened Wrappers
  import opened Text
  import opened Workflows
  import opened SuccessorParser
  import opened Adjacency
  import opened Traversal
  import opened Styling
  import opened GraphBuilder

  /** A workflow with only an index and a successor string. */
  function Bare(index: int, next: String): Workflow {
    Workflow(index, None, None, None, Some(next), 0, None, None)
  }

  /** 1 branches to 2 on "A" and to 3 on "B"; 3 continues to 4. */
  const Chain: seq<Workflow> := [Bare(1, "A:2;B:3"), Bare(2, ""), Bare(3, "4"), Bare(4, "")]

  lemma SingleTarget()
    ensures NextLinks(Some("4")) == [Link(4, None)]
  {
    assert IntToString(4) == "4";
    assert Encode([Link(4, None)]) == "4";
    RoundTrip([Link(4, None)]);
  }

  lemma ChainLinks()
    ensures NextLinks(Chain[0].NextWorkflows) == [Link(2, Some("A")), Link(3, Some("B"))]
    ensures NextLinks(Chain[1].NextWorkflows) == []
    ensures NextLinks(Chain[2].NextWorkflows) == [Link(4, None)]
    ensures NextLinks(Chain[3].NextWorkflows) == []
  {
    ConditionalPairExample();
    BlankHasNoLinks(Some(""));
    SingleTarget();
    assert Chain[0].NextWorkflows == Some("A:2;B:3");
    assert Chain[1].NextWorkflows == Some("") && Chain[3].NextWorkflows == Some("");
    assert Chain[2].NextWorkflows == Some("4");
  }

  /** A reader of successor strings that agrees with `NextLinks` on the
      chain. */
  ghost predicate ReadsChain(parse: Parser) {
    && parse(Chain[0].NextWorkflows) == [Link(2, Some("A")), Link(3, Some("B"))]
    && parse(Chain[1].NextWorkflows) == []
    && parse(Chain[2].NextWorkflows) == [Link(4, None)]
    && parse(Chain[3].NextWorkflows) == []
  }

  lemma ChainOutgoingBy(parse: Parser)
    requires ReadsChain(parse)
    ensures OutgoingMap(Chain, parse) == map[1 := [Link(2, Some("A")), Link(3, Some("B"))], 3 := [Link(4, None)]]
  {
    var m1 := map[1 := [Link(2, Some("A")), Link(3, Some("B"))]];
    assert OutgoingMap(Chain[..1], parse) == m1 by {
      MapsSnoc(Chain, parse, 0);
      assert Chain[..0] == [];
    }
    assert OutgoingMap(Chain[..2], parse) == m1 by {
      MapsSnoc(Chain, parse, 1);
    }
    assert OutgoingMap(Chain[..3], parse) == m1[3 := [Link(4, None)]] by {
      MapsSnoc(Chain, parse, 2);
    }
    assert OutgoingMap(Chain[..4], parse) == m1[3 := [Link(4, None)]] by {
      MapsSnoc(Chain, parse, 3);
    }
    assert Chain[..4] == Chain;
  }

  lemma ChainIncomingBy(parse: Parser)
    requires ReadsChain(parse)
    ensures IncomingMap(Chain, parse) == map[2 := [Link(1, Some("A"))], 3 := [Link(1, Some("B"))], 4 := [Link(3, None)]]
  {
    var m1 := map[2 := [Link(1, Some("A"))], 3 := [Link(1, Some("B"))]];
    assert IncomingMap(Chain[..1], parse) == m1 by {
      MapsSnoc(Chain, parse, 0);
      assert Chain[..0] == [];
      var links := [Link(2, Some("A")), Link(3, Some("B"))];
      assert links[..0] == [] && links[..2] == links;
      assert AddIncoming(map[], 1, links[..0]) == map[];
      AddIncomingSnoc(map[], 1, links, 0);
      assert [] + [Link(1, Some("A"))] == [Link(1, Some("A"))];
      assert AddIncoming(map[], 1, links[..1]) == map[2 := [Link(1, Some("A"))]];
      AddIncomingSnoc(map[], 1, links, 1);
      assert [] + [Link(1, Some("B"))] == [Link(1, Some("B"))];
      assert AddIncoming(map[], 1, links) == m1;
    }
    assert IncomingMap(Chain[..2], parse) == m1 by {
      MapsSnoc(Chain, parse, 1);
    }
    assert IncomingMap(Chain[..3], parse) == m1[4 := [Link(3, None)]] by {
      MapsSnoc(Chain, parse, 2);
      assert [Link(4, None)][..0] == [] && [Link(4, None)][..1] == [Link(4, None)];
      assert AddIncoming(m1, 3, [Link(4, None)][..0]) == m1;
      AddIncomingSnoc(m1, 3, [Link(4, None)], 0);
      assert [] + [Link(3, None)] == [Link(3, None)];
      assert AddIncoming(m1, 3, [Link(4, None)]) == m1[4 := [Link(3, None)]];
    }
    assert IncomingMap(Chain[..4], parse) == m1[4 := [Link(3, None)]] by {
      MapsSnoc(Chain, parse, 3);
    }
    assert Chain[..4] == Chain;
  }

  lemma ChainOutgoing()
    ensures OutgoingMap(Chain, NextLinks) == map[1 := [Link(2, Some("A")), Link(3, Some("B"))], 3 := [Link(4, None)]]
  {
    ChainLinks();
    ChainOutgoingBy(NextLinks);
  }

  lemma ChainIncoming()
    ensures IncomingMap(Chain, NextLinks) == map[2 := [Link(1, Some("A"))], 3 := [Link(1, Some("B"))], 4 := [Link(3, None)]]
  {
    ChainLinks();
    ChainIncomingBy(NextLinks);
  }

  /** The searches over the chain's outgoing index. */
  lemma OutgoingSearches(adj: AdjacencyMap)
    requires adj == map[1 := [Link(2, Some("A")), Link(3, Some("B"))], 3 := [Link(4, None)]]
    ensures Reach(adj, 1, 1) == {1, 2, 3}
    ensures Reach(adj, 1, 2) == {1, 2, 3, 4}
    ensures StepsOut(adj, {1}) == {Step(1, 2, Some("A")), Step(1, 3, Some("B"))}
    ensures StepsOut(adj, {1, 2, 3}) == {Step(1, 2, Some("A")), Step(1, 3, Some("B")), Step(3, 4, None)}
    ensures Reach(adj, 3, 1) == {3, 4}
    ensures StepsOut(adj, {3}) == {Step(3, 4, None)}
  {
    assert adj[1][0].peer == 2 && adj[1][1].peer == 3 && adj[3][0].peer == 4;
    assert Neighbours(adj, {1}) == {2, 3};
    assert Neighbours(adj, {1, 2, 3}) == {2, 3, 4};
    assert Neighbours(adj, {3}) == {4};
    assert Step(1, adj[1][0].peer, adj[1][0].cond) == Step(1, 2, Some("A"));
    assert Step(1, adj[1][1].peer, adj[1][1].cond) == Step(1, 3, Some("B"));
    assert Step(3, adj[3][0].peer, adj[3][0].cond) == Step(3, 4, None);
  }

  /** The search from 3 over the chain's incoming index. */
  lemma IncomingSearch(adj: AdjacencyMap)
    requires adj == map[2 := [Link(1, Some("A"))], 3 := [Link(1, Some("B"))], 4 := [Link(3, None)]]
    ensures Reach(adj, 3, 1) == {1, 3}
    ensures StepsOut(adj, {3}) == {Step(3, 1, Some("B"))}
  {
    assert adj[3][0].peer == 1;
    assert Neighbours(adj, {3}) == {1};
    assert Step(3, adj[3][0].peer, adj[3][0].cond) == Step(3, 1, Some("B"));
  }

  /** Forward from 1 with depths 1 and 2, for any collection whose outgoing
      index is the chain's. */
  lemma ForwardOverChain(ws: seq<Workflow>)
    requires OutgoingMap(ws, NextLinks) == map[1 := [Link(2, Some("A")), Link(3, Some("B"))], 3 := [Link(4, None)]]
    ensures ForwardNodes(ws, 1, 1) == {1, 2, 3}
    ensures ForwardEdges(ws, 1, 1) == {EdgeSpec(1, 2, Some("A")), EdgeSpec(1, 3, Some("B"))}
    ensures ForwardNodes(ws, 1, 2) == {1, 2, 3, 4}
    ensures ForwardEdges(ws, 1, 2) == {EdgeSpec(1, 2, Some("A")), EdgeSpec(1, 3, Some("B")), EdgeSpec(3, 4, None)}
  {
    var adj := OutgoingMap(ws, NextLinks);
    OutgoingSearches(adj);
    assert ForwardEdges(ws, 1, 1) == {EdgeSpec(1, 2, Some("A")), EdgeSpec(1, 3, Some("B"))} by {
      assert Searched(adj, 1, 1) == {Step(1, 2, Some("A")), Step(1, 3, Some("B"))};
      BranchEdges();
    }
    assert ForwardEdges(ws, 1, 2) == {EdgeSpec(1, 2, Some("A")), EdgeSpec(1, 3, Some("B")), EdgeSpec(3, 4, None)} by {
      assert Searched(adj, 1, 2) == {Step(1, 2, Some("A")), Step(1, 3, Some("B")), Step(3, 4, None)};
      BranchAndChainEdges();
    }
  }

  lemma BranchEdges()
    ensures Forward({Step(1, 2, Some("A")), Step(1, 3, Some("B"))}) == {EdgeSpec(1, 2, Some("A")), EdgeSpec(1, 3, Some("B"))}
  {
    assert AsEdge(Step(1, 2, Some("A"))) == EdgeSpec(1, 2, Some("A"));
    assert AsEdge(Step(1, 3, Some("B"))) == EdgeSpec(1, 3, Some("B"));
  }

  lemma BranchAndChainEdges()
    ensures Forward({Step(1, 2, Some("A")), Step(1, 3, Some("B")), Step(3, 4, None)}) ==
      {EdgeSpec(1, 2, Some("A")), EdgeSpec(1, 3, Some("B")), EdgeSpec(3, 4, None)}
  {
    assert AsEdge(Step(1, 2, Some("A"))) == EdgeSpec(1, 2, Some("A"));
    assert AsEdge(Step(1, 3, Some("B"))) == EdgeSpec(1, 3, Some("B"));
    assert AsEdge(Step(3, 4, None)) == EdgeSpec(3, 4, None);
  }

  lemma AroundThreeEdges()
    ensures Forward({Step(3, 4, None)}) + Backward({Step(3, 1, Some("B"))}) == {EdgeSpec(1, 3, Some("B")), EdgeSpec(3, 4, None)}
  {
    assert AsEdge(Step(3, 4, None)) == EdgeSpec(3, 4, None);
    assert AsReversedEdge(Step(3, 1, Some("B"))) == EdgeSpec(1, 3, Some("B"));
  }

  /** Forward from 1 with depth 2 expands 1 first, then 2 and 3. Since 2
      has no successors, the edge list is the same for either order of 2
      and 3: the start's two conditional edges in entry order, then 3's. */
  lemma ChainForwardList(order: seq<int>, es: seq<StyledEdge>)
    requires ForwardEdgeList(Chain, 1, 2, order, es)
    ensures es == [StyleEdge(EdgeSpec(1, 2, Some("A"))), StyleEdge(EdgeSpec(1, 3, Some("B"))), StyleEdge(EdgeSpec(3, 4, None))]
  {
    ChainOutgoing();
    ForwardListOverChain(Chain, order, es);
  }

  /** The same, for any collection whose outgoing index is the chain's. */
  lemma ForwardListOverChain(ws: seq<Workflow>, order: seq<int>, es: seq<StyledEdge>)
    requires OutgoingMap(ws, NextLinks) == map[1 := [Link(2, Some("A")), Link(3, Some("B"))], 3 := [Link(4, None)]]
    requires ForwardEdgeList(ws, 1, 2, order, es)
    ensures es == [StyleEdge(EdgeSpec(1, 2, Some("A"))), StyleEdge(EdgeSpec(1, 3, Some("B"))), StyleEdge(EdgeSpec(3, 4, None))]
  {
    ChainEdgeList(OutgoingMap(ws, NextLinks), order, es);
  }

  /** The same, stated over the chain's outgoing index. */
  lemma ChainEdgeList(adj: AdjacencyMap, order: seq<int>, es: seq<StyledEdge>)
    requires adj == map[1 := [Link(2, Some("A")), Link(3, Some("B"))], 3 := [Link(4, None)]]
    requires Distinct(order) && (forall n :: n in order <==> n in Expanded(adj, 1, Bound(2)))
    requires |order| > 0 && order[0] == 1
    requires |es| == |StepsOf(adj, order)| && forall k :: 0 <= k < |es| ==> es[k] == StyleEdge(AsEdge(StepsOf(adj, order)[k]))
    ensures es == [StyleEdge(EdgeSpec(1, 2, Some("A"))), StyleEdge(EdgeSpec(1, 3, Some("B"))), StyleEdge(EdgeSpec(3, 4, None))]
  {
    OutgoingSearches(adj);
    assert Expanded(adj, 1, Bound(2)) == {1, 2, 3};
    BranchFirst(order);
    ChainSteps(adj, order);
    ChainStyled(StepsOf(adj, order), es);
  }

  /** The chain's three steps, each styled. */
  lemma ChainStyled(steps: seq<Step>, es: seq<StyledEdge>)
    requires steps == [Step(1, 2, Some("A")), Step(1, 3, Some("B")), Step(3, 4, None)]
    requires |es| == |steps| && forall k :: 0 <= k < |es| ==> es[k] == StyleEdge(AsEdge(steps[k]))
    ensures es == [StyleEdge(EdgeSpec(1, 2, Some("A"))), StyleEdge(EdgeSpec(1, 3, Some("B"))), StyleEdge(EdgeSpec(3, 4, None))]
  {
    assert AsEdge(steps[0]) == EdgeSpec(1, 2, Some("A"));
    assert AsEdge(steps[1]) == EdgeSpec(1, 3, Some("B"));
    assert AsEdge(steps[2]) == EdgeSpec(3, 4, None);
  }

  /** The distinct orders of 1, 2 and 3 that start with 1. */
  lemma BranchFirst(order: seq<int>)
    requires Distinct(order) && (forall n :: n in order <==> n in {1, 2, 3})
    requires |order| > 0 && order[0] == 1
    ensures order == [1, 2, 3] || order == [1, 3, 2]
  {
    DistinctWithin(order, {1, 2, 3});
    assert 2 in order && 3 in order;
  }

  /** A sequence without repeats drawn from `s` is no longer than `s`. */
  lemma {:induction false} DistinctWithin(order: seq<int>, s: set<int>)
    requires Distinct(order) && forall n :: n in order ==> n in s
    ensures |order| <= |s|
  {
    if |order| > 0 {
      var init, last := order[..|order| - 1], order[|order| - 1];
      assert last in order;
      forall n | n in init ensures n in s - {last} {
        var i :| 0 <= i < |init| && init[i] == n;
        assert order[i] == n;
      }
      DistinctWithin(init, s - {last});
    }
  }

  /** The steps of the chain's outgoing index for both such orders. */
  lemma ChainSteps(adj: AdjacencyMap, order: seq<int>)
    requires adj == map[1 := [Link(2, Some("A")), Link(3, Some("B"))], 3 := [Link(4, None)]]
    requires order == [1, 2, 3] || order == [1, 3, 2]
    ensures StepsOf(adj, order) == [Step(1, 2, Some("A")), Step(1, 3, Some("B")), Step(3, 4, None)]
  {
    var first := [Step(1, 2, Some("A")), Step(1, 3, Some("B"))];
    assert EntrySteps(adj, 1) == first;
    assert EntrySteps(adj, 2) == [];
    assert EntrySteps(adj, 3) == [Step(3, 4, None)];
    assert StepsOf(adj, [1]) == first by {
      assert [1][..0] == [];
    }
    assert order[..1] == [1];
    assert StepsOf(adj, order[..2]) == first + EntrySteps(adj, order[1]);
    assert order[..3] == order;
  }

  /** Both directions from 3 with depth 1 each, for any collection whose
      indexes are the chain's. */
  lemma BidirectionalOverChain(ws: seq<Workflow>)
    requires OutgoingMap(ws, NextLinks) == map[1 := [Link(2, Some("A")), Link(3, Some("B"))], 3 := [Link(4, None)]]
    requires IncomingMap(ws, NextLinks) == map[2 := [Link(1, Some("A"))], 3 := [Link(1, Some("B"))], 4 := [Link(3, None)]]
    ensures BidirectionalNodes(ws, 3, 1, 1) == {1, 3, 4}
    ensures BidirectionalEdges(ws, 3, 1, 1) == {EdgeSpec(1, 3, Some("B")), EdgeSpec(3, 4, None)}
  {
    var outgoing := OutgoingMap(ws, NextLinks);
    var incoming := IncomingMap(ws, NextLinks);
    OutgoingSearches(outgoing);
    IncomingSearch(incoming);
    assert BidirectionalEdges(ws, 3, 1, 1) == {EdgeSpec(1, 3, Some("B")), EdgeSpec(3, 4, None)} by {
      assert Searched(outgoing, 3, 1) == {Step(3, 4, None)};
      assert Searched(incoming, 3, 1) == {Step(3, 1, Some("B"))};
      AroundThreeEdges();
    }
  }

  /** Forward from 1: depth 1 collects 1, 2, 3 and the two conditional edges;
      depth 2 adds 4 and the unconditional edge from 3. */
  lemma ChainForward()
    ensures ForwardNodes(Chain, 1, 1) == {1, 2, 3}
    ensures ForwardEdges(Chain, 1, 1) == {EdgeSpec(1, 2, Some("A")), EdgeSpec(1, 3, Some("B"))}
    ensures ForwardNodes(Chain, 1, 2) == {1, 2, 3, 4}
    ensures ForwardEdges(Chain, 1, 2) == {EdgeSpec(1, 2, Some("A")), EdgeSpec(1, 3, Some("B")), EdgeSpec(3, 4, None)}
  {
    ChainOutgoing();
    ForwardOverChain(Chain);
  }

  /** Both directions from 3 with depth 1 each: 1 comes in on "B", 4 goes
      out unconditionally, and 2 is not collected. */
  lemma ChainBidirectional()
    ensures BidirectionalNodes(Chain, 3, 1, 1) == {1, 3, 4}
    ensures BidirectionalEdges(Chain, 3, 1, 1) == {EdgeSpec(1, 3, Some("B")), EdgeSpec(3, 4, None)}
  {
    ChainOutgoing();
    ChainIncoming();
    BidirectionalOverChain(Chain);
  }

  /** 1 names 99, which has no record. */
  const Dangling: seq<Workflow> := [Bare(1, "99")]

  lemma DanglingOutgoing()
    ensures OutgoingMap(Dangling, NextLinks) == map[1 := [Link(99, None)]]
  {
    assert NextLinks(Dangling[0].NextWorkflows) == [Link(99, None)] by {
      assert IntToString(99) == "99";
      assert Encode([Link(99, None)]) == "99";
      RoundTrip([Link(99, None)]);
    }
    MapsSnoc(Dangling, NextLinks, 0);
    assert Dangling[..0] == [] && Dangling[..1] == Dangling;
  }

  /** One step from 1 over the adjacency `1 -> 99` reaches 99. */
  lemma DanglingReach(adj: AdjacencyMap)
    requires 1 in adj && adj[1] == [Link(99, None)]
    ensures Reach(adj, 1, 1) == {1, 99}
  {
    assert Neighbours(adj, {1}) == {99} by {
      assert adj[1][0].peer == 99;
    }
  }

  /** The only record of `Dangling` is 1. */
  lemma DanglingIndex()
    ensures UniqueIndices(Dangling)
    ensures ToDictionary(Dangling).value.Keys == {1}
  {
    assert Dangling[0].Index == 1;
  }

  /** When only 1 has a record and 1 and 99 were collected, a build from 1
      can only end by reporting 99. */
  lemma MissingTarget(byIndex: map<int, Workflow>, r: Result<Built, BuildError>)
    requires byIndex.Keys == {1}
    requires Outcome(r, byIndex, 1, {1, 99})
    ensures r == Err(UnknownNode(99))
  {
    assert 99 in {1, 99} && 99 !in byIndex;
  }

  /** The forward build from 1 with depth 1 over `Dangling` collects 99 and
      reports it as the node without a record. */
  lemma DanglingTarget()
    ensures UniqueIndices(Dangling)
    ensures ForwardNodes(Dangling, 1, 1) == {1, 99}
    ensures forall r :: Outcome(r, ToDictionary(Dangling).value, 1, ForwardNodes(Dangling, 1, 1)) ==>
      r == Err(UnknownNode(99))
  {
    DanglingOutgoing();
    DanglingReach(OutgoingMap(Dangling, NextLinks));
    DanglingIndex();
    forall r | Outcome(r, ToDictionary(Dangling).value, 1, ForwardNodes(Dangling, 1, 1))
      ensures r == Err(UnknownNode(99))
    {
      MissingTarget(ToDictionary(Dangling).value, r);
    }
  }
}
