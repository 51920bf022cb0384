/** The adjacency index over all workflows: `outgoing` maps a workflow to
    its parsed successors, `incoming` maps a target to the workflows that
    name it, with the same conditions. */
module Adjacency {
  import opened Wrappers
  import opened Text
  import opened Workflows
  import opened SuccessorParser

  type AdjacencyMap = map<int, seq<Link>>

  /** How a workflow's successor string is read; the builder uses
      `NextLinks`. The index is stated for any such reader, so that its
      proofs do not depend on the details of the text format. */
  type Parser = Option<String> -> seq<Link>

  /** The outgoing map once the workflows `ws` have been seen: a workflow
      with at least one parsed successor maps to its successor list. */
  function OutgoingMap(ws: seq<Workflow>, parse: Parser): AdjacencyMap {
    if |ws| == 0 then map[]
    else
      var m := OutgoingMap(ws[..|ws| - 1], parse);
      var w := ws[|ws| - 1];
      var outs := parse(w.NextWorkflows);
      if |outs| > 0 then m[w.Index := outs] else m
  }

  /** `m` after the successors `outs` of workflow `from` have been recorded
      at their targets. */
  function AddIncoming(m: AdjacencyMap, from: int, outs: seq<Link>): AdjacencyMap {
    if |outs| == 0 then m
    else
      var m' := AddIncoming(m, from, outs[..|outs| - 1]);
      var l := outs[|outs| - 1];
      var list := if l.peer in m' then m'[l.peer] else [];
      m'[l.peer := list + [Link(from, l.cond)]]
  }

  /** The incoming map once the workflows `ws` have been seen. */
  function IncomingMap(ws: seq<Workflow>, parse: Parser): AdjacencyMap {
    if |ws| == 0 then map[]
    else
      var w := ws[|ws| - 1];
      AddIncoming(IncomingMap(ws[..|ws| - 1], parse), w.Index, parse(w.NextWorkflows))
  }

  /** One more workflow seen: the maps grow by that workflow's entries. */
  lemma MapsSnoc(ws: seq<Workflow>, parse: Parser, i: nat)
    requires i < |ws|
    ensures OutgoingMap(ws[..i + 1], parse) ==
      if |parse(ws[i].NextWorkflows)| > 0
      then OutgoingMap(ws[..i], parse)[ws[i].Index := parse(ws[i].NextWorkflows)]
      else OutgoingMap(ws[..i], parse)
    ensures IncomingMap(ws[..i + 1], parse) ==
      AddIncoming(IncomingMap(ws[..i], parse), ws[i].Index, parse(ws[i].NextWorkflows))
  {
    assert ws[..i + 1][..i] == ws[..i];
  }

  /** One more successor recorded at its target. */
  lemma AddIncomingSnoc(m: AdjacencyMap, from: int, outs: seq<Link>, j: nat)
    requires j < |outs|
    ensures AddIncoming(m, from, outs[..j + 1]) ==
      var m' := AddIncoming(m, from, outs[..j]);
      m'[outs[j].peer := (if outs[j].peer in m' then m'[outs[j].peer] else []) + [Link(from, outs[j].cond)]]
  {
    assert outs[..j + 1][..j] == outs[..j];
  }

  /** The forward-only builder's adjacency loop. */
  method BuildOutgoing(ws: seq<Workflow>) returns (adj: AdjacencyMap)
    ensures adj == OutgoingMap(ws, NextLinks)
  {
    adj := map[];
    for i := 0 to |ws|
      invariant adj == OutgoingMap(ws[..i], NextLinks)
    {
      var w := ws[i];
      var outs := ParseNext(w.NextWorkflows);
      MapsSnoc(ws, NextLinks, i);
      if |outs| > 0 {
        adj := adj[w.Index := outs];
      }
    }
    assert ws[..|ws|] == ws;
  }

  /** The bidirectional builder's loop, filling both maps in one pass. */
  method BuildAdjacency(ws: seq<Workflow>) returns (outgoing: AdjacencyMap, incoming: AdjacencyMap)
    ensures outgoing == OutgoingMap(ws, NextLinks)
    ensures incoming == IncomingMap(ws, NextLinks)
  {
    outgoing := map[];
    incoming := map[];
    for i := 0 to |ws|
      invariant outgoing == OutgoingMap(ws[..i], NextLinks)
      invariant incoming == IncomingMap(ws[..i], NextLinks)
    {
      var w := ws[i];
      var outs := ParseNext(w.NextWorkflows);
      MapsSnoc(ws, NextLinks, i);
      if |outs| > 0 {
        outgoing := outgoing[w.Index := outs];
      }
      incoming := RecordIncoming(incoming, w.Index, outs);
    }
    assert ws[..|ws|] == ws;
  }

  /** The inner loop of `BuildAdjacency`: each successor of `from` gets
      `(from, cond)` appended to its incoming list, which is created when
      missing. */
  method RecordIncoming(incoming: AdjacencyMap, from: int, outs: seq<Link>) returns (r: AdjacencyMap)
    ensures r == AddIncoming(incoming, from, outs)
  {
    r := incoming;
    for j := 0 to |outs|
      invariant r == AddIncoming(incoming, from, outs[..j])
    {
      var to, cond := outs[j].peer, outs[j].cond;
      AddIncomingSnoc(incoming, from, outs, j);
      ghost var expected := r[to := (if to in r then r[to] else []) + [Link(from, cond)]];
      var list: seq<Link>;
      if to !in r {
        list := [];
        r := r[to := list];
      } else {
        list := r[to];
      }
      r := r[to := list + [Link(from, cond)]];
      assert r == expected;
    }
    assert outs[..|outs|] == outs;
  }

  /** A workflow has an outgoing entry exactly when some record with its
      index has at least one parsed successor. */
  lemma {:induction false} OutgoingKeys(ws: seq<Workflow>, parse: Parser, id: int)
    ensures id in OutgoingMap(ws, parse) <==>
      exists i :: 0 <= i < |ws| && ws[i].Index == id && parse(ws[i].NextWorkflows) != []
  {
    if |ws| > 0 {
      var front := ws[..|ws| - 1];
      OutgoingKeys(front, parse, id);
      if exists i :: 0 <= i < |ws| && ws[i].Index == id && parse(ws[i].NextWorkflows) != [] {
        var i :| 0 <= i < |ws| && ws[i].Index == id && parse(ws[i].NextWorkflows) != [];
        if i < |front| { assert front[i] == ws[i]; }
      }
      if exists i :: 0 <= i < |front| && front[i].Index == id && parse(front[i].NextWorkflows) != [] {
        var i :| 0 <= i < |front| && front[i].Index == id && parse(front[i].NextWorkflows) != [];
        assert ws[i] == front[i];
      }
    }
  }

  /** With unique indices, a workflow's outgoing entry is its own parsed
      successor list. */
  lemma {:induction false} OutgoingEntry(ws: seq<Workflow>, parse: Parser, i: nat)
    requires UniqueIndices(ws)
    requires i < |ws| && parse(ws[i].NextWorkflows) != []
    ensures ws[i].Index in OutgoingMap(ws, parse)
    ensures OutgoingMap(ws, parse)[ws[i].Index] == parse(ws[i].NextWorkflows)
  {
    var front := ws[..|ws| - 1];
    if i < |front| {
      assert front[i] == ws[i];
      OutgoingEntry(front, parse, i);
    }
  }

  /** Recording one workflow's successors adds exactly the reversed links. */
  lemma {:induction false} AddIncomingEntries(m: AdjacencyMap, from: int, outs: seq<Link>, to: int, l: Link)
    ensures (to in AddIncoming(m, from, outs) && l in AddIncoming(m, from, outs)[to]) <==>
      (to in m && l in m[to]) || (l.peer == from && Link(to, l.cond) in outs)
  {
    if |outs| > 0 {
      var front := outs[..|outs| - 1];
      AddIncomingEntries(m, from, front, to, l);
      assert outs == front + [outs[|outs| - 1]];
    }
  }

  /** Every incoming entry is non-empty. */
  lemma {:induction false} AddIncomingNonEmpty(m: AdjacencyMap, from: int, outs: seq<Link>)
    requires forall to :: to in m ==> m[to] != []
    ensures forall to :: to in AddIncoming(m, from, outs) ==> AddIncoming(m, from, outs)[to] != []
  {
    if |outs| > 0 {
      AddIncomingNonEmpty(m, from, outs[..|outs| - 1]);
    }
  }

  /** `incoming[to]` holds `(from, cond)` exactly when some workflow with
      index `from` lists `(to, cond)` among its parsed successors, and no
      incoming list is empty. */
  lemma {:induction false} IncomingEntries(ws: seq<Workflow>, parse: Parser, to: int, l: Link)
    ensures (to in IncomingMap(ws, parse) && l in IncomingMap(ws, parse)[to]) <==>
      exists i :: 0 <= i < |ws| && ws[i].Index == l.peer && Link(to, l.cond) in parse(ws[i].NextWorkflows)
    ensures to in IncomingMap(ws, parse) ==> IncomingMap(ws, parse)[to] != []
  {
    if |ws| > 0 {
      var front := ws[..|ws| - 1];
      var w := ws[|ws| - 1];
      IncomingEntries(front, parse, to, l);
      AddIncomingEntries(IncomingMap(front, parse), w.Index, parse(w.NextWorkflows), to, l);
      IncomingAllNonEmpty(front, parse);
      AddIncomingNonEmpty(IncomingMap(front, parse), w.Index, parse(w.NextWorkflows));
      if exists i :: 0 <= i < |ws| && ws[i].Index == l.peer && Link(to, l.cond) in parse(ws[i].NextWorkflows) {
        var i :| 0 <= i < |ws| && ws[i].Index == l.peer && Link(to, l.cond) in parse(ws[i].NextWorkflows);
        if i < |front| { assert front[i] == ws[i]; }
      }
      if exists i :: 0 <= i < |front| && front[i].Index == l.peer && Link(to, l.cond) in parse(front[i].NextWorkflows) {
        var i :| 0 <= i < |front| && front[i].Index == l.peer && Link(to, l.cond) in parse(front[i].NextWorkflows);
        assert ws[i] == front[i];
      }
    }
  }

  lemma {:induction false} IncomingAllNonEmpty(ws: seq<Workflow>, parse: Parser)
    ensures forall to :: to in IncomingMap(ws, parse) ==> IncomingMap(ws, parse)[to] != []
  {
    if |ws| > 0 {
      var w := ws[|ws| - 1];
      IncomingAllNonEmpty(ws[..|ws| - 1], parse);
      AddIncomingNonEmpty(IncomingMap(ws[..|ws| - 1], parse), w.Index, parse(w.NextWorkflows));
    }
  }

  /** With unique indices the two maps mirror each other: `(from, cond)` is
      in `incoming[to]` exactly when `(to, cond)` is in `outgoing[from]`. */
  lemma Mirror(ws: seq<Workflow>, parse: Parser, from: int, to: int, cond: Option<String>)
    requires UniqueIndices(ws)
    ensures (to in IncomingMap(ws, parse) && Link(from, cond) in IncomingMap(ws, parse)[to]) <==>
      (from in OutgoingMap(ws, parse) && Link(to, cond) in OutgoingMap(ws, parse)[from])
  {
    IncomingEntries(ws, parse, to, Link(from, cond));
    OutgoingKeys(ws, parse, from);
    if exists i :: 0 <= i < |ws| && ws[i].Index == from && Link(to, cond) in parse(ws[i].NextWorkflows) {
      var i :| 0 <= i < |ws| && ws[i].Index == from && Link(to, cond) in parse(ws[i].NextWorkflows);
      OutgoingEntry(ws, parse, i);
    }
    if from in OutgoingMap(ws, parse) && Link(to, cond) in OutgoingMap(ws, parse)[from] {
      var i :| 0 <= i < |ws| && ws[i].Index == from && parse(ws[i].NextWorkflows) != [];
      OutgoingEntry(ws, parse, i);
    }
  }
}
