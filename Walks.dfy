/** What the breadth-first level sets mean: a node is within `d` levels of
    the start exactly when a walk of at most `d` links leads to it, and the
    incoming index walks the outgoing links backwards. */
module Walks {
  import opened Wrappers
  import opened Text
  import opened Workflows
  import opened SuccessorParser
  import opened Adjacency
  import opened Traversal

  /** `adj` has an entry from `a` to `b`. */
  predicate Edge(adj: AdjacencyMap, a: int, b: int) {
    a in adj && exists k :: 0 <= k < |adj[a]| && adj[a][k].peer == b
  }

  /** `p` is a walk along `adj` from `start` to `n`. */
  ghost predicate IsWalk(adj: AdjacencyMap, start: int, n: int, p: seq<int>) {
    && |p| >= 1
    && p[0] == start
    && p[|p| - 1] == n
    && forall i :: 0 <= i < |p| - 1 ==> Edge(adj, p[i], p[i + 1])
  }

  /** The nodes the search reaches within `d` levels are exactly those a walk
      of at most `d` links leads to. */
  lemma ReachIsWalks(adj: AdjacencyMap, start: int, d: nat, n: int)
    ensures n in Reach(adj, start, d) <==> exists p :: IsWalk(adj, start, n, p) && |p| <= d + 1
  {
    if n in Reach(adj, start, d) {
      ReachToWalk(adj, start, d, n);
    }
    if exists p :: IsWalk(adj, start, n, p) && |p| <= d + 1 {
      var p :| IsWalk(adj, start, n, p) && |p| <= d + 1;
      WalkToReach(adj, start, n, p, d);
    }
  }

  lemma {:induction false} ReachToWalk(adj: AdjacencyMap, start: int, d: nat, n: int)
    requires n in Reach(adj, start, d)
    ensures exists p :: IsWalk(adj, start, n, p) && |p| <= d + 1
  {
    if d == 0 {
      assert IsWalk(adj, start, n, [start]);
    } else if n in Reach(adj, start, d - 1) {
      ReachToWalk(adj, start, d - 1, n);
    } else {
      var m, k :| m in Reach(adj, start, d - 1) && m in adj && 0 <= k < |adj[m]| && adj[m][k].peer == n;
      ReachToWalk(adj, start, d - 1, m);
      var p :| IsWalk(adj, start, m, p) && |p| <= d;
      var q := p + [n];
      assert Edge(adj, m, n);
      forall i | 0 <= i < |q| - 1 ensures Edge(adj, q[i], q[i + 1]) {
        if i < |p| - 1 {
          assert q[i] == p[i] && q[i + 1] == p[i + 1];
        }
      }
      assert IsWalk(adj, start, n, q);
    }
  }

  lemma {:induction false} WalkToReach(adj: AdjacencyMap, start: int, n: int, p: seq<int>, d: nat)
    requires IsWalk(adj, start, n, p) && |p| <= d + 1
    ensures n in Reach(adj, start, d)
    decreases |p|
  {
    if |p| == 1 {
      ReachGrows(adj, start, 0, d);
    } else {
      var q := p[..|p| - 1];
      var m := q[|q| - 1];
      forall i | 0 <= i < |q| - 1 ensures Edge(adj, q[i], q[i + 1]) {
        assert q[i] == p[i] && q[i + 1] == p[i + 1];
      }
      assert IsWalk(adj, start, m, q);
      WalkToReach(adj, start, m, q, d - 1);
      assert Edge(adj, p[|p| - 2], p[|p| - 1]);
      var k :| 0 <= k < |adj[m]| && adj[m][k].peer == n;
      assert n in Neighbours(adj, Reach(adj, start, d - 1));
    }
  }

  /** With unique indices, the incoming index has an entry from `a` to `b`
      exactly when the outgoing index has one from `b` to `a`. */
  lemma IncomingReversesOutgoing(ws: seq<Workflow>, a: int, b: int)
    requires UniqueIndices(ws)
    ensures Edge(IncomingMap(ws, NextLinks), a, b) <==> Edge(OutgoingMap(ws, NextLinks), b, a)
  {
    var incoming := IncomingMap(ws, NextLinks);
    var outgoing := OutgoingMap(ws, NextLinks);
    if Edge(incoming, a, b) {
      var k :| 0 <= k < |incoming[a]| && incoming[a][k].peer == b;
      var cond := incoming[a][k].cond;
      assert Link(b, cond) in incoming[a];
      Mirror(ws, NextLinks, b, a, cond);
      var j :| 0 <= j < |outgoing[b]| && outgoing[b][j] == Link(a, cond);
    }
    if Edge(outgoing, b, a) {
      var k :| 0 <= k < |outgoing[b]| && outgoing[b][k].peer == a;
      var cond := outgoing[b][k].cond;
      assert Link(a, cond) in outgoing[b];
      Mirror(ws, NextLinks, b, a, cond);
      var j :| 0 <= j < |incoming[a]| && incoming[a][j] == Link(b, cond);
    }
  }
}
