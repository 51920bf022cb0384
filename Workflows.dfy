/** The records the graph builder works on. */
module Workflows {
  import opened Wrappers
  import opened Text

  /** One workflow step as loaded from the workflow file. `NextWorkflows`
      holds the encoded successor list; the fields the builder never reads
      (name, category, parameters, change marker) are carried along for the
      details view. */
  datatype Workflow = Workflow(
    Index: int,
    Name: Option<String>,
    Type: Option<String>,
    Category: Option<String>,
    NextWorkflows: Option<String>,
    FunctionIndex: int,
    FunctionParameters: Option<String>,
    Changed: Option<String>)

  /** One adjacency entry: the step at the other end of an edge (the target in
      an outgoing list, the source in an incoming list) and the edge's
      condition. */
  datatype Link = Link(peer: int, cond: Option<String>)

  /** An edge of the extracted subgraph. Value equality, as for the C#
      `record struct`, so a set of them removes exact duplicates only. */
  datatype EdgeSpec = EdgeSpec(From: int, To: int, Condition: Option<String>)

  predicate UniqueIndices(ws: seq<Workflow>) {
    forall i, j :: 0 <= i < j < |ws| ==> ws[i].Index != ws[j].Index
  }

  /** `workflows.ToDictionary(w => w.Index, w => w)`: the lookup from index
      to record, or None where two records share an index (the C# call
      throws). */
  function ToDictionary(ws: seq<Workflow>): (r: Option<map<int, Workflow>>)
    ensures r.Some? <==> UniqueIndices(ws)
    ensures r.Some? ==> forall id :: id in r.value <==> exists k :: 0 <= k < |ws| && ws[k].Index == id
    ensures r.Some? ==> forall k :: 0 <= k < |ws| ==> r.value[ws[k].Index] == ws[k]
    ensures r.Some? ==> forall id :: id in r.value ==> r.value[id].Index == id
  {
    if |ws| == 0 then Some(map[])
    else
      var front := ws[..|ws| - 1];
      var w := ws[|ws| - 1];
      match ToDictionary(front)
      case None => None
      case Some(m) =>
        if w.Index in m then
          None
        else Some(m[w.Index := w])
  }
}
