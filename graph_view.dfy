/** The drawing decisions of the force-directed genealogy view
    (frontend/components/GraphView.tsx): how big a node is, how it is coloured, where
    and whether its label goes, how large its click target is, and when the view shows
    a placeholder instead of the graph. Canvas calls are recorded as a list of
    operations; node positions come from the force simulation and are parameters. */
module GraphView {
  import opened Types
  import SparqlService

  /** Fill used for a node without a colour. */
  const DefaultFill := "#64748b"
  /** Outline drawn behind a label: the canvas background colour. */
  const LabelOutline := "#0f172a"
  /** Labels are drawn only above this zoom level. */
  const LabelScale: real := 0.7

  /** The drawn radius for an importance: 8 for the selected node, 6 for a parent, 4 otherwise. */
  function Radius(val: int): (r: int)
    ensures r in {4, 6, 8}
    ensures val == 3 ==> r == 8
    ensures val == 2 ==> r == 6
    ensures val !in {2, 3} ==> r == 4
  {
    if val == 3 then 8 else if val == 2 then 6 else 4
  }

  /** The click target's radius, computed on its own in the pointer-area callback. */
  function HitRadius(val: int): int
  {
    var radius := if val == 3 then 8 else if val == 2 then 6 else 4;
    radius + 5
  }

  /** The click target is the drawn circle grown by exactly 5 on every side. */
  lemma HitAreaCoversNode(val: int)
    ensures HitRadius(val) == Radius(val) + 5
    ensures HitRadius(val) > Radius(val)
  {
  }

  /** A more important node is never drawn smaller, and the three importances the
      backend assigns get three different sizes. */
  lemma RadiusFollowsImportance(a: int, b: int)
    requires 1 <= a <= b <= 3
    ensures Radius(a) <= Radius(b)
    ensures a < b ==> Radius(a) < Radius(b)
  {
  }

  /** `node.color || '#64748b'`: an absent or empty colour falls back to slate. */
  function Fill(color: Option<string>): (f: string)
    ensures f != ""
    ensures Truthy(color) ==> f == color.value
    ensures !Truthy(color) ==> f == DefaultFill
  {
    if Truthy(color) then color.value else DefaultFill
  }

  /** Border colour, font weight and label colour of a node. */
  datatype Style = Style(border: string, weight: int, text: string)

  function StyleFor(val: int): Style
  {
    if val == 3 then Style("#ffffff", 700, "#ffffff") else Style("#1e293b", 600, "#e2e8f0")
  }

  /** Styling depends only on whether the node is the selected one, and the selected
      node differs from the others in border, weight and label colour. */
  lemma StyleOnlyMarksSelection(a: int, b: int)
    ensures (a == 3) == (b == 3) ==> StyleFor(a) == StyleFor(b)
    ensures a == 3 && b != 3 ==>
              && StyleFor(a).border != StyleFor(b).border
              && StyleFor(a).weight > StyleFor(b).weight
              && StyleFor(a).text != StyleFor(b).text
  {
  }

  /** One call on the canvas context. */
  datatype CanvasOp =
    | FillCircle(x: real, y: real, radius: int, color: string)
    | StrokeCircle(x: real, y: real, radius: int, color: string)
    | StrokeText(text: string, x: real, y: real, color: string, weight: int)
    | FillText(text: string, x: real, y: real, color: string, weight: int)

  predicate IsLabel(op: CanvasOp)
  {
    op.StrokeText? || op.FillText?
  }

  /** nodeCanvasObject: the circle, its border, then (when zoomed in far enough) the
      label, outlined first and filled second. */
  function DrawNode(node: GraphNode, x: real, y: real, scale: real): (ops: seq<CanvasOp>)
    ensures |ops| >= 2
    ensures ops[0].FillCircle? && ops[0].x == x && ops[0].y == y && ops[0].color == Fill(node.color)
    ensures ops[1].StrokeCircle? && ops[1].x == x && ops[1].y == y && ops[1].color == StyleFor(node.val).border
    ensures ops[0].radius == ops[1].radius == Radius(node.val)
    ensures (exists k :: 0 <= k < |ops| && IsLabel(ops[k])) <==> scale > LabelScale
    ensures scale <= LabelScale ==> |ops| == 2
    ensures scale > LabelScale ==>
              && |ops| == 4
              && ops[2].StrokeText? && ops[3].FillText?
              && ops[2].text == ops[3].text == node.name
              && ops[2].x == ops[3].x == x
              && ops[2].y == ops[3].y == y + ops[0].radius as real + 4.0
              && ops[2].color == LabelOutline && ops[3].color == StyleFor(node.val).text
              && ops[2].weight == ops[3].weight == StyleFor(node.val).weight
  {
    var radius := Radius(node.val);
    var style := StyleFor(node.val);
    var circle := [FillCircle(x, y, radius, Fill(node.color)), StrokeCircle(x, y, radius, style.border)];
    if scale > LabelScale then
      var ly := y + radius as real + 4.0;
      circle + [StrokeText(node.name, x, ly, LabelOutline, style.weight),
                FillText(node.name, x, ly, style.text, style.weight)]
    else circle
  }

  /** nodePointerAreaPaint: a disc in the picking colour, centered on the node. */
  function PointerArea(node: GraphNode, x: real, y: real, pickColor: string): CanvasOp
  {
    FillCircle(x, y, HitRadius(node.val), pickColor)
  }

  /** The node's click target is concentric with the drawn circle and strictly larger. */
  lemma PointerAreaContainsNode(node: GraphNode, x: real, y: real, scale: real, pickColor: string)
    ensures var drawn := DrawNode(node, x, y, scale)[0];
            var hit := PointerArea(node, x, y, pickColor);
            && hit.FillCircle? && hit.color == pickColor
            && hit.x == drawn.x && hit.y == drawn.y && hit.radius == drawn.radius + 5
  {
    HitAreaCoversNode(node.val);
  }

  /** What the view shows. */
  datatype View = Placeholder | ForceGraph(data: GraphData)

  function Render(data: GraphData): (v: View)
    ensures v.Placeholder? <==> data.nodes == []
    ensures v.ForceGraph? ==> v.data == data
  {
    if |data.nodes| == 0 then Placeholder else ForceGraph(data)
  }

  /** A node the backend built is filled with its own colour, never the fallback
      slate, and drawn at one of the three sizes for importance 1, 2 or 3. */
  lemma ServedNodesKeepTheirColour(center: Option<string>, answer: SparqlService.QueryOutcome, n: GraphNode,
                                   x: real, y: real, scale: real)
    requires n in SparqlService.GraphOf(center, answer).nodes
    ensures n.color.Some? && DrawNode(n, x, y, scale)[0].color == n.color.value
    ensures DrawNode(n, x, y, scale)[0].radius == 2 * n.val + 2
  {
    SparqlService.GraphOfShape(center, answer);
  }
}
