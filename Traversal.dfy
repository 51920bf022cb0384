/** The depth-bounded breadth-first search the builder runs over an
    adjacency map: from the start node, expand every dequeued node whose
    depth is below the bound, record one step per adjacency entry, and
    enqueue each node the first time it is seen. */
module Traversal {
  import opened Wrappers
  import opened Text
  import opened Workflows
  import opened Adjacency

  /** One recorded adjacency entry: the node being expanded, the node at the
      other end of the entry, and the entry's condition. */
  datatype Step = Step(cur: int, other: int, cond: Option<String>)

  /** A queue element: a node and the depth it was enqueued at. */
  type Entry = (int, int)

  /** The nodes one entry away from some node of `s`. */
  function Neighbours(adj: AdjacencyMap, s: set<int>): set<int> {
    set n, k | n in s && n in adj && 0 <= k < |adj[n]| :: adj[n][k].peer
  }

  /** The nodes at most `d` entries away from `start`. */
  function Reach(adj: AdjacencyMap, start: int, d: nat): set<int> {
    if d == 0 then {start}
    else Reach(adj, start, d - 1) + Neighbours(adj, Reach(adj, start, d - 1))
  }

  /** The depth bound as the loop applies it: a node at depth `d` is
      expanded exactly when `d < Bound(maxDepth)`. */
  function Bound(maxDepth: int): nat {
    if maxDepth <= 0 then 0 else maxDepth
  }

  /** The nodes a traversal bounded by `bound` expands: those less than
      `bound` entries away from the start. */
  function Expanded(adj: AdjacencyMap, start: int, bound: nat): set<int> {
    if bound == 0 then {} else Reach(adj, start, bound - 1)
  }

  /** Every node any traversal from `start` can reach. */
  function Universe(adj: AdjacencyMap, start: int): set<int> {
    {start} + Neighbours(adj, adj.Keys)
  }

  /** The steps recorded when node `n` is expanded, in entry order. */
  function EntrySteps(adj: AdjacencyMap, n: int): (r: seq<Step>)
    ensures |r| == if n in adj then |adj[n]| else 0
  {
    if n in adj then seq(|adj[n]|, k requires 0 <= k < |adj[n]| => Step(n, adj[n][k].peer, adj[n][k].cond))
    else []
  }

  /** The steps recorded when the nodes of `order` are expanded in turn. */
  function StepsOf(adj: AdjacencyMap, order: seq<int>): seq<Step> {
    if |order| == 0 then []
    else StepsOf(adj, order[..|order| - 1]) + EntrySteps(adj, order[|order| - 1])
  }

  /** The steps out of the nodes of `s`, as a set. */
  function StepsOut(adj: AdjacencyMap, s: set<int>): set<Step> {
    set n, k | n in s && n in adj && 0 <= k < |adj[n]| :: Step(n, adj[n][k].peer, adj[n][k].cond)
  }

  predicate Distinct(s: seq<int>) {
    forall i, j :: 0 <= i < j < |s| ==> s[i] != s[j]
  }

  function QNodes(q: seq<Entry>): set<int> {
    set i | 0 <= i < |q| :: q[i].0
  }

  function QNodesAt(q: seq<Entry>, d: int): set<int> {
    set i | 0 <= i < |q| && q[i].1 == d :: q[i].0
  }

  /** `n` is exactly `d` entries away from the start. */
  ghost predicate AtDistance(adj: AdjacencyMap, start: int, n: int, d: nat) {
    n in Reach(adj, start, d) && (d > 0 ==> n !in Reach(adj, start, d - 1))
  }

  /** The queue holds distinct nodes, each at its exact distance, with depths
      non-decreasing, all `level` or `level + 1`, and none beyond the bound. */
  ghost predicate QueueShape(adj: AdjacencyMap, start: int, bound: nat, q: seq<Entry>, level: nat) {
    && level <= bound
    && (forall i :: 0 <= i < |q| ==>
          level <= q[i].1 <= level + 1 && q[i].1 <= bound && AtDistance(adj, start, q[i].0, q[i].1))
    && (forall i, j :: 0 <= i < j < |q| ==> q[i].1 <= q[j].1 && q[i].0 != q[j].0)
  }

  /** `order` lists nodes level by level: a node never comes after one that
      is farther from the start. */
  ghost predicate ByLevels(adj: AdjacencyMap, start: int, order: seq<int>) {
    forall i, j, d: nat :: 0 <= i < j < |order| && order[j] in Reach(adj, start, d) ==> order[i] in Reach(adj, start, d)
  }

  /** What the order of expansion records. */
  ghost predicate OrderShape(adj: AdjacencyMap, start: int, bound: nat, done: set<int>, order: seq<int>) {
    && Distinct(order)
    && (forall n :: n in order <==> n in done && n in Expanded(adj, start, bound))
    && ByLevels(adj, start, order)
  }

  /** The outer loop invariant. `done` holds the dequeued nodes, `level` the
      depth of the queue's front. */
  ghost predicate Inv(adj: AdjacencyMap, start: int, bound: nat, q: seq<Entry>, visited: set<int>,
                      done: set<int>, level: nat, order: seq<int>, steps: seq<Step>) {
    && QueueShape(adj, start, bound, q, level)
    && visited == Reach(adj, start, level) + QNodesAt(q, level + 1)
    && done !! QNodes(q)
    && done + QNodes(q) == visited
    && done <= Reach(adj, start, level)
    && (level < bound ==> Neighbours(adj, done) <= visited)
    && visited <= Universe(adj, start)
    && steps == StepsOf(adj, order)
    && OrderShape(adj, start, bound, done, order)
  }

  /** The invariant while the entries of `cur`, the last node of `order`,
      are being recorded; the first `j` of them are done. */
  ghost predicate InnerInv(adj: AdjacencyMap, start: int, bound: nat, q: seq<Entry>, visited: set<int>,
                           done: set<int>, level: nat, order: seq<int>, steps: seq<Step>, cur: int, j: nat) {
    && QueueShape(adj, start, bound, q, level)
    && level < bound
    && cur in done && cur in adj && j <= |adj[cur]|
    && visited == Reach(adj, start, level) + QNodesAt(q, level + 1)
    && done !! QNodes(q)
    && done + QNodes(q) == visited
    && done <= Reach(adj, start, level)
    && Neighbours(adj, done - {cur}) <= visited
    && (forall k :: 0 <= k < j ==> adj[cur][k].peer in visited)
    && visited <= Universe(adj, start)
    && |order| > 0 && order[|order| - 1] == cur
    && steps == StepsOf(adj, order[..|order| - 1]) + EntrySteps(adj, cur)[..j]
    && OrderShape(adj, start, bound, done, order)
  }

  /** The search. `visited` is the node set (`nodes` in the forward
      builder, `visited` in each pass of the bidirectional one), `steps` the
      entries recorded, in the order the loop records them. */
  method Traverse(adj: AdjacencyMap, start: int, maxDepth: int)
    returns (visited: set<int>, steps: seq<Step>, ghost order: seq<int>)
    ensures visited == Reach(adj, start, Bound(maxDepth))
    ensures steps == StepsOf(adj, order)
    ensures Distinct(order) && forall n :: n in order <==> n in Expanded(adj, start, Bound(maxDepth))
    ensures ByLevels(adj, start, order) && (Bound(maxDepth) > 0 ==> |order| > 0 && order[0] == start)
    ensures forall s :: s in steps <==> s in StepsOut(adj, Expanded(adj, start, Bound(maxDepth)))
  {
    ghost var bound := Bound(maxDepth);
    visited := {start};
    steps := [];
    var q: seq<Entry> := [(start, 0)];
    ghost var level: nat := 0;
    ghost var done: set<int> := {};
    order := [];
    InitInv(adj, start, bound);
    while |q| > 0
      invariant Inv(adj, start, bound, q, visited, done, level, order, steps)
      decreases Universe(adj, start) - done
    {
      FrontLevel(adj, start, bound, q, visited, done, level, order, steps);
      if q[0].1 == level + 1 {
        NextLevel(adj, start, bound, q, visited, done, level, order, steps);
        level := level + 1;
      }
      var cur, depth := q[0].0, q[0].1;
      ghost var q0, done0 := q, done;
      q := q[1..];
      done := done + {cur};
      if depth >= maxDepth {
        SkipKeeps(adj, start, bound, q0, visited, done0, level, order, steps);
        continue;
      }
      if cur !in adj {
        NoEntriesKeeps(adj, start, bound, q0, visited, done0, level, order, steps);
        order := order + [cur];
        continue;
      }
      ExpandStarts(adj, start, bound, q0, visited, done0, level, order, steps);
      order := order + [cur];
      q, visited, steps := ExpandEntries(adj, cur, depth, q, visited, steps, start, bound, done, level, order);
    }
    Finish(adj, start, bound, visited, done, level, order, steps);
    StepsOfMembers(adj, order);
    if bound > 0 {
      ReachGrows(adj, start, 0, bound - 1);
      StartFirst(adj, start, order);
    }
  }

  /** The inner loop: record one step per adjacency entry of `cur`, which
      was dequeued at `depth`, and enqueue at `depth + 1` every node not
      seen before. */
  method ExpandEntries(adj: AdjacencyMap, cur: int, depth: int, q: seq<Entry>, visited: set<int>, steps: seq<Step>,
                       ghost start: int, ghost bound: nat, ghost done: set<int>, ghost level: nat,
                       ghost order: seq<int>)
    returns (q': seq<Entry>, visited': set<int>, steps': seq<Step>)
    requires cur in adj && depth == level
    requires InnerInv(adj, start, bound, q, visited, done, level, order, steps, cur, 0)
    ensures Inv(adj, start, bound, q', visited', done, level, order, steps')
  {
    q', visited', steps' := q, visited, steps;
    var outs := adj[cur];
    for j := 0 to |outs|
      invariant InnerInv(adj, start, bound, q', visited', done, level, order, steps', cur, j)
    {
      var to, cond := outs[j].peer, outs[j].cond;
      ghost var steps0 := steps';
      steps' := steps' + [Step(cur, to, cond)];
      if to !in visited' {
        InnerNew(adj, start, bound, q', visited', done, level, order, steps0, cur, j, to, cond, depth + 1);
        visited' := visited' + {to};
        q' := q' + [(to, depth + 1)];
      } else {
        InnerSeen(adj, start, bound, q', visited', done, level, order, steps0, cur, j, to, cond);
      }
    }
    InnerEnd(adj, start, bound, q', visited', done, level, order, steps', cur);
  }

  // ---------------------------------------------------------------------
  // Facts about reachability

  lemma {:induction false} ReachGrows(adj: AdjacencyMap, start: int, a: nat, b: nat)
    requires a <= b
    ensures Reach(adj, start, a) <= Reach(adj, start, b)
    decreases b - a
  {
    if a < b {
      ReachGrows(adj, start, a, b - 1);
    }
  }

  lemma NeighboursGrow(adj: AdjacencyMap, s: set<int>, t: set<int>)
    requires s <= t
    ensures Neighbours(adj, s) <= Neighbours(adj, t)
  {
  }

  /** Once a level adds nothing new, no later level does. */
  lemma {:induction false} ReachSettles(adj: AdjacencyMap, start: int, level: nat, d: nat)
    requires Neighbours(adj, Reach(adj, start, level)) <= Reach(adj, start, level)
    requires level <= d
    ensures Reach(adj, start, d) == Reach(adj, start, level)
    decreases d - level
  {
    if level < d {
      ReachSettles(adj, start, level, d - 1);
    }
  }

  lemma {:induction false} ReachInUniverse(adj: AdjacencyMap, start: int, d: nat)
    ensures Reach(adj, start, d) <= Universe(adj, start)
  {
    if d > 0 {
      ReachInUniverse(adj, start, d - 1);
      NeighboursGrow(adj, Reach(adj, start, d - 1) * adj.Keys, adj.Keys);
      assert Neighbours(adj, Reach(adj, start, d - 1)) == Neighbours(adj, Reach(adj, start, d - 1) * adj.Keys);
    }
  }

  /** The steps recorded for an expansion order are the steps out of its
      nodes. */
  lemma {:induction false} StepsOfMembers(adj: AdjacencyMap, order: seq<int>)
    ensures forall s :: s in StepsOf(adj, order) <==> s in StepsOut(adj, set n | n in order)
  {
    if |order| > 0 {
      var init, last := order[..|order| - 1], order[|order| - 1];
      StepsOfMembers(adj, init);
      assert order == init + [last];
      var es := EntrySteps(adj, last);
      forall s ensures s in StepsOf(adj, order) <==> s in StepsOut(adj, set n | n in order) {
        if s in StepsOut(adj, set n | n in order) {
          var n, k :| n in order && n in adj && 0 <= k < |adj[n]| && s == Step(n, adj[n][k].peer, adj[n][k].cond);
          if n == last {
            assert s == es[k];
          } else {
            assert n in init;
            assert s in StepsOut(adj, set n | n in init);
          }
        }
        if s in es {
          var k :| 0 <= k < |es| && es[k] == s;
          assert last in order;
        }
      }
    }
  }

  /** Every step of a bounded traversal joins two visited nodes. */
  lemma StepsInside(adj: AdjacencyMap, start: int, bound: nat)
    ensures forall s :: s in StepsOut(adj, Expanded(adj, start, bound)) ==>
      s.cur in Reach(adj, start, bound) && s.other in Reach(adj, start, bound)
  {
    if bound > 0 {
      var r := Reach(adj, start, bound - 1);
      forall s | s in StepsOut(adj, r) ensures s.cur in Reach(adj, start, bound) && s.other in Reach(adj, start, bound) {
        var n, k :| n in r && n in adj && 0 <= k < |adj[n]| && s == Step(n, adj[n][k].peer, adj[n][k].cond);
        assert s.other in Neighbours(adj, r);
      }
    }
  }

  // Queue bookkeeping

  lemma QueueAppend(q: seq<Entry>, e: Entry, d: int)
    ensures QNodes(q + [e]) == QNodes(q) + {e.0}
    ensures QNodesAt(q + [e], d) == QNodesAt(q, d) + (if e.1 == d then {e.0} else {})
  {
    var q' := q + [e];
    assert q'[|q|] == e;
    forall i | 0 <= i < |q| ensures q'[i] == q[i] {
    }
    forall x | x in QNodes(q') ensures x in QNodes(q) + {e.0} {
      var i :| 0 <= i < |q'| && q'[i].0 == x;
      if i < |q| { assert q[i] == q'[i]; }
    }
    forall x | x in QNodesAt(q', d) ensures x in QNodesAt(q, d) + (if e.1 == d then {e.0} else {}) {
      var i :| 0 <= i < |q'| && q'[i].1 == d && q'[i].0 == x;
      if i < |q| { assert q[i] == q'[i]; }
    }
  }

  lemma QueueTail(q: seq<Entry>, d: int)
    requires |q| > 0
    ensures QNodes(q) == {q[0].0} + QNodes(q[1..])
    ensures QNodesAt(q, d) == (if q[0].1 == d then {q[0].0} else {}) + QNodesAt(q[1..], d)
  {
    var q' := q[1..];
    forall x | x in QNodes(q) ensures x in {q[0].0} + QNodes(q') {
      var i :| 0 <= i < |q| && q[i].0 == x;
      if i > 0 { assert q'[i - 1] == q[i]; }
    }
    forall x | x in QNodesAt(q, d) ensures x in (if q[0].1 == d then {q[0].0} else {}) + QNodesAt(q', d) {
      var i :| 0 <= i < |q| && q[i].1 == d && q[i].0 == x;
      if i > 0 { assert q'[i - 1] == q[i]; }
    }
    forall x | x in QNodes(q') ensures x in QNodes(q) {
      var i :| 0 <= i < |q'| && q'[i].0 == x;
      assert q[i + 1] == q'[i];
    }
    forall x | x in QNodesAt(q', d) ensures x in QNodesAt(q, d) {
      var i :| 0 <= i < |q'| && q'[i].1 == d && q'[i].0 == x;
      assert q[i + 1] == q'[i];
    }
  }

  /** The front entry's node appears nowhere else in the queue. */
  lemma FrontUnique(adj: AdjacencyMap, start: int, bound: nat, q: seq<Entry>, level: nat)
    requires QueueShape(adj, start, bound, q, level) && |q| > 0
    ensures QueueShape(adj, start, bound, q[1..], level)
    ensures q[0].0 !in QNodes(q[1..])
    ensures AtDistance(adj, start, q[0].0, q[0].1)
  {
    var q' := q[1..];
    forall i | 0 <= i < |q'| ensures q'[i].0 != q[0].0 {
      assert q'[i] == q[i + 1];
    }
  }

  /** Queued nodes of the next level are new to the current one. */
  lemma QueueDistances(adj: AdjacencyMap, start: int, bound: nat, q: seq<Entry>, level: nat)
    requires QueueShape(adj, start, bound, q, level)
    ensures QNodesAt(q, level + 1) !! Reach(adj, start, level)
    ensures QNodes(q) <= Reach(adj, start, level + 1)
  {
    QueueWithin(adj, start, bound, q, level);
    QueueNextNew(adj, start, bound, q, level);
  }

  lemma QueueWithin(adj: AdjacencyMap, start: int, bound: nat, q: seq<Entry>, level: nat)
    requires QueueShape(adj, start, bound, q, level)
    ensures QNodes(q) <= Reach(adj, start, level + 1)
  {
    forall x | x in QNodes(q) ensures x in Reach(adj, start, level + 1) {
      var i :| 0 <= i < |q| && q[i].0 == x;
      assert AtDistance(adj, start, x, q[i].1);
      ReachGrows(adj, start, q[i].1, level + 1);
    }
  }

  lemma QueueNextNew(adj: AdjacencyMap, start: int, bound: nat, q: seq<Entry>, level: nat)
    requires QueueShape(adj, start, bound, q, level)
    ensures QNodesAt(q, level + 1) !! Reach(adj, start, level)
  {
    forall x | x in QNodesAt(q, level + 1) ensures x !in Reach(adj, start, level) {
      var i :| 0 <= i < |q| && q[i].1 == level + 1 && q[i].0 == x;
      assert AtDistance(adj, start, x, level + 1);
    }
  }

  /** A queue whose front is at the next level holds that level only. */
  lemma FrontLevelAll(adj: AdjacencyMap, start: int, bound: nat, q: seq<Entry>, level: nat)
    requires QueueShape(adj, start, bound, q, level)
    requires |q| > 0 && q[0].1 == level + 1
    ensures QueueShape(adj, start, bound, q, level + 1)
    ensures QNodesAt(q, level + 1) == QNodes(q)
    ensures QNodesAt(q, level + 2) == {}
  {
    forall i | 0 <= i < |q| ensures q[i].1 == level + 1 {
      if i > 0 { assert q[0].1 <= q[i].1; }
    }
  }

  /** Appending a node met for the first time at the next level. */
  lemma QueueShapeAppend(adj: AdjacencyMap, start: int, bound: nat, q: seq<Entry>, level: nat, to: int)
    requires QueueShape(adj, start, bound, q, level)
    requires level < bound && AtDistance(adj, start, to, level + 1) && to !in QNodes(q)
    ensures QueueShape(adj, start, bound, q + [(to, level + 1)], level)
  {
    var q' := q + [(to, level + 1)];
    forall i, i' | 0 <= i < i' < |q'| ensures q'[i].1 <= q'[i'].1 && q'[i].0 != q'[i'].0 {
      if i' == |q| {
        assert q[i].0 in QNodes(q);
      }
    }
  }

  // ---------------------------------------------------------------------
  // The invariant, step by step

  lemma InitInv(adj: AdjacencyMap, start: int, bound: nat)
    ensures Inv(adj, start, bound, [(start, 0)], {start}, {}, 0, [], [])
  {
    var q: seq<Entry> := [(start, 0)];
    assert QNodes(q) == {start} by { assert q[0].0 == start; }
    assert QNodesAt(q, 1) == {};
    ReachInUniverse(adj, start, 0);
  }

  /** All nodes of the front level are dequeued: the front moves one level on. */
  lemma NextLevel(adj: AdjacencyMap, start: int, bound: nat, q: seq<Entry>, visited: set<int>,
                  done: set<int>, level: nat, order: seq<int>, steps: seq<Step>)
    requires Inv(adj, start, bound, q, visited, done, level, order, steps)
    requires |q| > 0 && q[0].1 == level + 1
    ensures Inv(adj, start, bound, q, visited, done, level + 1, order, steps)
  {
    var r := Reach(adj, start, level);
    FrontLevelAll(adj, start, bound, q, level);
    QueueDistances(adj, start, bound, q, level);
    assert r <= done;
    NeighboursGrow(adj, r, done);
    ReachGrows(adj, start, level, level + 1);
    assert visited == Reach(adj, start, level + 1);
  }

  /** The front of the queue is at the current level or the next. */
  lemma FrontLevel(adj: AdjacencyMap, start: int, bound: nat, q: seq<Entry>, visited: set<int>,
                   done: set<int>, level: nat, order: seq<int>, steps: seq<Step>)
    requires Inv(adj, start, bound, q, visited, done, level, order, steps)
    requires |q| > 0
    ensures q[0].1 == level || q[0].1 == level + 1
  {
  }

  /** Facts about dequeuing the front entry at the front level. */
  lemma Dequeue(adj: AdjacencyMap, start: int, bound: nat, q: seq<Entry>, visited: set<int>,
                done: set<int>, level: nat, order: seq<int>, steps: seq<Step>)
    requires Inv(adj, start, bound, q, visited, done, level, order, steps)
    requires |q| > 0 && q[0].1 == level
    ensures QueueShape(adj, start, bound, q[1..], level)
    ensures QNodes(q) == {q[0].0} + QNodes(q[1..])
    ensures q[0].0 !in QNodes(q[1..]) && q[0].0 !in done && q[0].0 !in order
    ensures QNodesAt(q[1..], level + 1) == QNodesAt(q, level + 1)
    ensures q[0].0 in Reach(adj, start, level)
    ensures level > 0 ==> q[0].0 !in Reach(adj, start, level - 1)
    ensures q[0].0 in Universe(adj, start)
  {
    FrontUnique(adj, start, bound, q, level);
    QueueTail(q, level + 1);
  }

  /** Expanding a new node below the bound extends the order by it. */
  lemma OrderGrows(adj: AdjacencyMap, start: int, bound: nat, done: set<int>, order: seq<int>, cur: int, level: nat)
    requires OrderShape(adj, start, bound, done, order)
    requires cur !in done && cur in Reach(adj, start, level) && level < bound
    requires done <= Reach(adj, start, level)
    requires level > 0 ==> cur !in Reach(adj, start, level - 1)
    ensures OrderShape(adj, start, bound, done + {cur}, order + [cur])
  {
    ReachGrows(adj, start, level, bound - 1);
    forall n ensures n in order + [cur] <==> n in done + {cur} && n in Expanded(adj, start, bound) {
    }
    assert forall x :: x in order ==> x in Reach(adj, start, level);
    LevelsGrow(adj, start, order, cur, level);
  }

  /** Appending a node of the current level keeps `order` level by level. */
  lemma LevelsGrow(adj: AdjacencyMap, start: int, order: seq<int>, cur: int, level: nat)
    requires ByLevels(adj, start, order)
    requires forall x :: x in order ==> x in Reach(adj, start, level)
    requires level > 0 ==> cur !in Reach(adj, start, level - 1)
    ensures ByLevels(adj, start, order + [cur])
  {
    var o := order + [cur];
    forall i, j, d: nat | 0 <= i < j < |o| ensures o[j] in Reach(adj, start, d) ==> o[i] in Reach(adj, start, d) {
      if j == |order| {
        assert o[i] == order[i] && order[i] in order;
        if d >= level {
          ReachGrows(adj, start, level, d);
        } else {
          ReachGrows(adj, start, d, level - 1);
        }
      } else {
        assert o[i] == order[i] && o[j] == order[j];
      }
    }
  }

  /** A search below a positive bound expands the start first. */
  lemma StartFirst(adj: AdjacencyMap, start: int, order: seq<int>)
    requires ByLevels(adj, start, order) && start in order
    ensures order[0] == start
  {
    var k :| 0 <= k < |order| && order[k] == start;
    if k > 0 {
      assert order[k] in Reach(adj, start, 0);
    }
    assert order[0] in Reach(adj, start, 0);
  }

  /** A node dequeued at the bound is not expanded. */
  lemma SkipKeeps(adj: AdjacencyMap, start: int, bound: nat, q: seq<Entry>, visited: set<int>,
                  done: set<int>, level: nat, order: seq<int>, steps: seq<Step>)
    requires Inv(adj, start, bound, q, visited, done, level, order, steps)
    requires |q| > 0 && q[0].1 == level && level >= bound
    ensures Inv(adj, start, bound, q[1..], visited, done + {q[0].0}, level, order, steps)
    ensures q[0].0 in Universe(adj, start) - done
  {
    Dequeue(adj, start, bound, q, visited, done, level, order, steps);
    var cur := q[0].0;
    assert cur !in Expanded(adj, start, bound);
  }

  /** A node with no adjacency entry is expanded without recording a step. */
  lemma NoEntriesKeeps(adj: AdjacencyMap, start: int, bound: nat, q: seq<Entry>, visited: set<int>,
                       done: set<int>, level: nat, order: seq<int>, steps: seq<Step>)
    requires Inv(adj, start, bound, q, visited, done, level, order, steps)
    requires |q| > 0 && q[0].1 == level && level < bound && q[0].0 !in adj
    ensures Inv(adj, start, bound, q[1..], visited, done + {q[0].0}, level, order + [q[0].0], steps)
    ensures q[0].0 in Universe(adj, start) - done
  {
    Dequeue(adj, start, bound, q, visited, done, level, order, steps);
    var cur := q[0].0;
    OrderGrows(adj, start, bound, done, order, cur, level);
    assert (order + [cur])[..|order|] == order;
    assert Neighbours(adj, done + {cur}) == Neighbours(adj, done);
  }

  /** A node with entries, dequeued below the bound, starts being expanded. */
  lemma ExpandStarts(adj: AdjacencyMap, start: int, bound: nat, q: seq<Entry>, visited: set<int>,
                     done: set<int>, level: nat, order: seq<int>, steps: seq<Step>)
    requires Inv(adj, start, bound, q, visited, done, level, order, steps)
    requires |q| > 0 && q[0].1 == level && level < bound && q[0].0 in adj
    ensures InnerInv(adj, start, bound, q[1..], visited, done + {q[0].0}, level, order + [q[0].0], steps, q[0].0, 0)
    ensures q[0].0 in Universe(adj, start) - done
  {
    Dequeue(adj, start, bound, q, visited, done, level, order, steps);
    var cur := q[0].0;
    OrderGrows(adj, start, bound, done, order, cur, level);
    assert (order + [cur])[..|order|] == order;
    assert done + {cur} - {cur} == done;
  }

  /** Recording entry `j` of `cur`, whose node was seen before. */
  lemma InnerSeen(adj: AdjacencyMap, start: int, bound: nat, q: seq<Entry>, visited: set<int>,
                  done: set<int>, level: nat, order: seq<int>, steps: seq<Step>, cur: int, j: nat,
                  to: int, cond: Option<String>)
    requires InnerInv(adj, start, bound, q, visited, done, level, order, steps, cur, j)
    requires j < |adj[cur]| && adj[cur][j] == Link(to, cond) && to in visited
    ensures InnerInv(adj, start, bound, q, visited, done, level, order, steps + [Step(cur, to, cond)], cur, j + 1)
  {
    EntryRecorded(adj, cur, j, StepsOf(adj, order[..|order| - 1]), steps);
    assert forall k :: 0 <= k < j + 1 ==> adj[cur][k].peer in visited;
  }

  /** The sets after enqueuing a node met for the first time. */
  lemma NewNodeSets(adj: AdjacencyMap, start: int, bound: nat, q: seq<Entry>, visited: set<int>,
                    done: set<int>, level: nat, order: seq<int>, steps: seq<Step>, cur: int, j: nat)
    requires InnerInv(adj, start, bound, q, visited, done, level, order, steps, cur, j)
    requires j < |adj[cur]| && adj[cur][j].peer !in visited
    ensures var to := adj[cur][j].peer;
      var q' := q + [(to, level + 1)];
      && QueueShape(adj, start, bound, q', level)
      && visited + {to} == Reach(adj, start, level) + QNodesAt(q', level + 1)
      && done !! QNodes(q')
      && done + QNodes(q') == visited + {to}
      && visited + {to} <= Universe(adj, start)
  {
    var to := adj[cur][j].peer;
    var r := Reach(adj, start, level);
    assert to in Neighbours(adj, adj.Keys);
    assert to in Reach(adj, start, level + 1) by {
      assert cur in r;
      assert to in Neighbours(adj, r);
    }
    QueueShapeAppend(adj, start, bound, q, level, to);
    QueueAppend(q, (to, level + 1), level + 1);
  }

  /** Recording entry `j` of `cur`, whose node is new: it is enqueued one
      level further on. */
  lemma InnerNew(adj: AdjacencyMap, start: int, bound: nat, q: seq<Entry>, visited: set<int>,
                 done: set<int>, level: nat, order: seq<int>, steps: seq<Step>, cur: int, j: nat,
                 to: int, cond: Option<String>, next: int)
    requires InnerInv(adj, start, bound, q, visited, done, level, order, steps, cur, j)
    requires j < |adj[cur]| && adj[cur][j] == Link(to, cond) && to !in visited && next == level + 1
    ensures InnerInv(adj, start, bound, q + [(to, next)], visited + {to}, done, level, order,
                     steps + [Step(cur, to, cond)], cur, j + 1)
  {
    EntryRecorded(adj, cur, j, StepsOf(adj, order[..|order| - 1]), steps);
    assert forall k :: 0 <= k < j + 1 ==> adj[cur][k].peer in visited + {to};
    NewNodeSets(adj, start, bound, q, visited, done, level, order, steps, cur, j);
  }

  /** Recording entry `j` of `cur` extends the recorded prefix of its steps. */
  lemma EntryRecorded(adj: AdjacencyMap, cur: int, j: nat, before: seq<Step>, steps: seq<Step>)
    requires cur in adj && j < |adj[cur]|
    requires steps == before + EntrySteps(adj, cur)[..j]
    ensures steps + [Step(cur, adj[cur][j].peer, adj[cur][j].cond)] == before + EntrySteps(adj, cur)[..j + 1]
  {
    var es := EntrySteps(adj, cur);
    assert es[..j + 1] == es[..j] + [es[j]];
  }

  /** All entries of `cur` recorded: back to the outer invariant. */
  lemma InnerEnd(adj: AdjacencyMap, start: int, bound: nat, q: seq<Entry>, visited: set<int>,
                 done: set<int>, level: nat, order: seq<int>, steps: seq<Step>, cur: int)
    requires cur in adj
    requires InnerInv(adj, start, bound, q, visited, done, level, order, steps, cur, |adj[cur]|)
    ensures Inv(adj, start, bound, q, visited, done, level, order, steps)
  {
    var es := EntrySteps(adj, cur);
    assert es[..|adj[cur]|] == es;
    assert steps == StepsOf(adj, order);
    forall x | x in Neighbours(adj, done) ensures x in visited {
      var n, k :| n in done && n in adj && 0 <= k < |adj[n]| && x == adj[n][k].peer;
      if n != cur {
        assert x in Neighbours(adj, done - {cur});
      }
    }
  }

  /** The queue is empty: the visited set is the reach of the bound and the
      expanded nodes are those below it. */
  lemma Finish(adj: AdjacencyMap, start: int, bound: nat, visited: set<int>,
               done: set<int>, level: nat, order: seq<int>, steps: seq<Step>)
    requires Inv(adj, start, bound, [], visited, done, level, order, steps)
    ensures visited == Reach(adj, start, bound)
    ensures forall n :: n in order <==> n in Expanded(adj, start, bound)
  {
    assert QNodes([]) == {} && QNodesAt([], level + 1) == {};
    if level < bound {
      ReachSettles(adj, start, level, bound);
    }
    if bound > 0 {
      ReachGrows(adj, start, bound - 1, bound);
    }
  }
}
