/** The attributes the builder gives each node and edge it adds to the
    graph: the node label, shape and fill colour, and the edge label, line
    colour and line width. */
module Styling {
  import opened Wrappers
  import opened Text
  import opened Workflows
  import opened SuccessorParser

  datatype Shape = Box | Diamond

  datatype Color = Red | Orange | LightBlue | Green

  /** A node as the builder adds it: its id, label, shape, fill colour
      (`None` keeps the renderer's default) and the workflow attached to it. */
  datatype StyledNode = StyledNode(id: int, caption: NodeLabel, shape: Shape, fill: Option<Color>, data: Workflow)

  /** An edge as the builder adds it: the edge, its label text, line colour
      and line width (`None` keeps the renderer's default). */
  datatype StyledEdge = StyledEdge(edge: EdgeSpec, labelText: Option<String>, color: Color, width: Option<int>)

  /** A node label: the workflow's index and function index, shown as
      `"{Index} ({FunctionIndex})"`. */
  datatype NodeLabel = NodeLabel(index: int, functionIndex: int) {
    function Text(): String {
      IntToString(index) + " (" + IntToString(functionIndex) + ")"
    }
  }

  /** The workflow's type, trimmed, is "Decision" in any ASCII case. */
  predicate IsDecision(w: Workflow) {
    EqualsIgnoreCase(Trim(w.Type.GetOr("")), "Decision")
  }

  /** The fill the FunctionIndex alone asks for. */
  function FunctionFill(functionIndex: int): Option<Color> {
    if functionIndex == 6 then Some(Red)
    else if functionIndex == 7 then Some(Orange)
    else None
  }

  /** The node for workflow `w`; `isStart` marks the start node. The start
      highlight is applied last, so it overrides the FunctionIndex colour. */
  function StyleNode(w: Workflow, isStart: bool): (n: StyledNode)
    ensures n.id == w.Index && n.data == w && n.caption == NodeLabel(w.Index, w.FunctionIndex)
    ensures n.shape == Diamond <==> IsDecision(w)
    ensures isStart ==> n.fill == Some(LightBlue)
    ensures !isStart ==>
      && (n.fill == Some(Red) <==> w.FunctionIndex == 6)
      && (n.fill == Some(Orange) <==> w.FunctionIndex == 7)
      && (n.fill == None <==> w.FunctionIndex != 6 && w.FunctionIndex != 7)
      && n.fill != Some(LightBlue)
  {
    var shape := if IsDecision(w) then Diamond else Box;
    var fill := FunctionFill(w.FunctionIndex);
    StyledNode(w.Index, NodeLabel(w.Index, w.FunctionIndex), shape, if isStart then Some(LightBlue) else fill, w)
  }

  /** The edge for `e`: a condition that is not blank labels the edge and
      draws it orange and two wide; any other edge is green. */
  function StyleEdge(e: EdgeSpec): (s: StyledEdge)
    ensures s.edge == e
    ensures s.color == Orange <==> !IsNullOrWhiteSpace(e.Condition)
    ensures s.color == Orange ==> s.labelText == e.Condition && s.width == Some(2)
    ensures s.color != Orange ==> s.color == Green && s.labelText == None && s.width == None
  {
    if !IsNullOrWhiteSpace(e.Condition) then StyledEdge(e, e.Condition, Orange, Some(2))
    else StyledEdge(e, None, Green, None)
  }

  /** Reads a node label back into the index and the function index. */
  function ParseLabel(text: String): Option<(int, int)> {
    var p := IndexOf(text, ' ');
    if p < 0 || |text| < p + 3 || text[p + 1] != '(' || text[|text| - 1] != ')' then None
    else
      match (ParseInt32(text[..p]), ParseInt32(text[p + 2..|text| - 1]))
      case (Some(index), Some(functionIndex)) => Some((index, functionIndex))
      case _ => None
  }

  /** The label text determines the workflow's index and function index. */
  lemma LabelRoundTrip(l: NodeLabel)
    requires InInt32(l.index) && InInt32(l.functionIndex)
    ensures ParseLabel(l.Text()) == Some((l.index, l.functionIndex))
  {
    var a, b := IntToString(l.index), IntToString(l.functionIndex);
    ParseIntToString(l.index);
    ParseIntToString(l.functionIndex);
    LabelPieces(a, b);
  }

  /** The label text splits back into the two numbers' texts. */
  lemma LabelPieces(a: String, b: String)
    requires a != [] && ' ' !in a
    ensures var text := a + " (" + b + ")";
      && IndexOf(text, ' ') == |a| && |text| >= |a| + 3
      && text[|a| + 1] == '(' && text[|text| - 1] == ')'
      && text[..|a|] == a && text[|a| + 2..|text| - 1] == b
  {
    var text := a + " (" + b + ")";
    assert text == a + [' '] + ['('] + b + [')'];
    assert text[..|a|] == a;
    assert text[|a|] == ' ';
    assert text[|a| + 2..|text| - 1] == b;
  }

  /** Every parsed successor's edge is drawn as a conditional edge exactly
      when the successor carries a condition: a parsed condition is never
      blank. */
  lemma ParsedEdgeColor(nextWorkflows: Option<String>, from: int, l: Link)
    requires l in NextLinks(nextWorkflows)
    ensures StyleEdge(EdgeSpec(from, l.peer, l.cond)).color == Orange <==> l.cond.Some?
    ensures l.cond.Some? ==> StyleEdge(EdgeSpec(from, l.peer, l.cond)).labelText == l.cond
  {
    if l.cond.Some? {
      NextLinkOrigin(nextWorkflows, l);
      var tokens := Tokens(nextWorkflows);
      var k :| 0 <= k < |tokens| && tokens[k] != [] && Trim(tokens[k]) == tokens[k] && ParseToken(tokens[k]) == Some(l);
      ParsedConditionNotBlank(tokens[k], l);
    }
  }
}
