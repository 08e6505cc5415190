/**
 `visualize_dag` end to end (dagviz.py:6-61): lay the nodes out, draw the
 connectors, then emit one line per row.
 */
module Dagviz {
  import opened Graphs
  import opened Layering
  import opened Canvas
  import opened Render
  import opened RenderFacts
  import opened Text

  /** The text of one row: its buffer, the bullet and the label on one line. */
  function Line(buf: seq<char>, text: string): string {
    buf + "• " + Flatten(text)
  }

  /** `zip(a, rows)` turned into lines (dagviz.py:60). */
  function Lines(a: Grid, rows: seq<Node>, show: Node -> string): (r: seq<string>)
    requires |a| == |rows|
    ensures |r| == |rows|
    ensures forall i :: 0 <= i < |rows| ==> r[i] == Line(a[i], show(rows[i]))
  {
    seq(|rows|, i requires 0 <= i < |rows| => Line(a[i], show(rows[i])))
  }

  /** A layering of the whole graph is something the renderer can draw. */
  lemma LayeredDrawable(g: Graph, L: Layout)
    requires Layered(g.edges, g.nodes, 0, L)
    ensures Drawable(g.edges, L)
  {
  }

  /** The text of a drawn layout: its lines joined with `'\n'`
      (dagviz.py:60-61). */
  function Output(L: Layout, E: set<(Node, Node)>, show: Node -> string, roundAngle: bool): string
    requires Drawable(E, L)
  {
    Join(Lines(Picture(L, E, roundAngle), L.rows, show), '\n')
  }

  /** The lines of a drawn layout contain no line break, so splitting the
      output at `'\n'` gives back one line per row: the row's buffer, the
      bullet, then the flattened text of its node. */
  lemma {:induction false} OutputLines(L: Layout, E: set<(Node, Node)>, show: Node -> string, roundAngle: bool)
    requires Drawable(E, L) && |L.rows| > 0
    ensures var a := Picture(L, E, roundAngle);
      var lines := Split(Output(L, E, show, roundAngle), '\n');
      lines == Lines(a, L.rows, show) &&
      |lines| == |L.rows| &&
      forall i :: 0 <= i < |lines| ==>
        lines[i] == a[i] + "• " + Flatten(show(L.rows[i])) &&
        |lines[i]| == 2 * L.indents[i] + 2 + |show(L.rows[i])|
  {
    var a := Picture(L, E, roundAngle);
    var lines := Lines(a, L.rows, show);
    PicturePainted(L, E, roundAngle);
    forall i | 0 <= i < |lines|
      ensures '\n' !in lines[i]
    {
      assert '\n' !in a[i];
      assert '\n' !in Flatten(show(L.rows[i]));
    }
    SplitJoin(lines, '\n');
    forall i | 0 <= i < |lines|
      ensures |lines[i]| == 2 * L.indents[i] + 2 + |show(L.rows[i])|
    {
      assert lines[i] == a[i] + "• " + Flatten(show(L.rows[i]));
    }
  }

  /** The lines `round` are the lines `square`, one per row of `L`, with every
      `└` left of the bullet turned into `╰` and nothing else changed. */
  ghost predicate CornersOnly(square: seq<string>, round: seq<string>, L: Layout) {
    |L.rows| == |L.indents| &&
    |square| == |round| == |L.rows| &&
    forall i :: 0 <= i < |square| ==>
      |round[i]| == |square[i]| &&
      forall k :: 0 <= k < |square[i]| ==>
        round[i][k] == (if k < 2 * L.indents[i] then RoundChar(square[i][k]) else square[i][k])
  }

  /** Rounding the buffers rounds the lines left of the bullet and nothing
      else. */
  lemma LinesRounded(a: Grid, L: Layout, show: Node -> string)
    requires Shaped(a, L)
    ensures CornersOnly(Lines(a, L.rows, show), Lines(Rounded(a), L.rows, show), L)
  {
    var square := Lines(a, L.rows, show);
    var round := Lines(Rounded(a), L.rows, show);
    forall i | 0 <= i < |square|
      ensures |round[i]| == |square[i]|
      ensures forall k :: 0 <= k < |square[i]| ==>
        round[i][k] == (if k < 2 * L.indents[i] then RoundChar(square[i][k]) else square[i][k])
    {
      RoundLine(a[i], "• " + Flatten(show(L.rows[i])));
    }
  }

  lemma RoundLine(buf: seq<char>, tail: string)
    ensures |RoundRow(buf) + tail| == |buf + tail|
    ensures forall k :: 0 <= k < |buf + tail| ==>
      (RoundRow(buf) + tail)[k] == (if k < |buf| then RoundChar((buf + tail)[k]) else (buf + tail)[k])
  {
  }

  /** `round_angle` changes nothing but the corners drawn in the buffers: the
      two outputs have as many lines, of the same lengths, and differ only
      where the square output has a `└` left of the bullet. */
  lemma OutputRounded(L: Layout, E: set<(Node, Node)>, show: Node -> string)
    requires Drawable(E, L) && |L.rows| > 0
    ensures CornersOnly(Split(Output(L, E, show, false), '\n'), Split(Output(L, E, show, true), '\n'), L)
  {
    var sq := Picture(L, E, false);
    OutputLines(L, E, show, false);
    OutputLines(L, E, show, true);
    PictureRounded(L, E);
    assert Split(Output(L, E, show, false), '\n') == Lines(sq, L.rows, show);
    assert Split(Output(L, E, show, true), '\n') == Lines(Rounded(sq), L.rows, show);
    LinesRounded(sq, L, show);
  }

  /** `visualize_dag(g, round_angle)`. `order` is the order in which the
      graph library enumerates the nodes and `show` is `str`. The output is
      empty for an empty graph; otherwise it has exactly one line per node,
      and the line of row `i` is the drawn buffer of that row, the bullet,
      and the text `show` gives the node on that row with its line breaks
      turned into spaces. */
  function VisualizeDag(g: Graph, order: seq<Node>, show: Node -> string, roundAngle: bool): (out: string)
    requires Acyclic(g) && Enumerates(order, g.nodes)
    ensures g.nodes == {} ==> out == []
    ensures g.nodes != {} ==>
      var L := Layer(g, order);
      var lines := Split(out, '\n');
      |lines| == |g.nodes| &&
      forall i :: 0 <= i < |lines| ==>
        lines[i] == Picture(L, g.edges, roundAngle)[i] + "• " + Flatten(show(L.rows[i])) &&
        |lines[i]| == 2 * L.indents[i] + 2 + |show(L.rows[i])|
  {
    var L := Layer(g, order);
    LayeredDrawable(g, L);
    if g.nodes == {} then
      Output(L, g.edges, show, roundAngle)
    else
      OutputLines(L, g.edges, show, roundAngle);
      Output(L, g.edges, show, roundAngle)
  }

  /** The lines fix the text: the output of `visualize_dag` is the only text
      that splits at `'\n'` into the drawn lines, one per row. */
  lemma OutputDetermined(g: Graph, order: seq<Node>, show: Node -> string, roundAngle: bool, t: string)
    requires Acyclic(g) && Enumerates(order, g.nodes) && g.nodes != {}
    requires var L := Layer(g, order);
      Drawable(g.edges, L) &&
      Split(t, '\n') == Lines(Picture(L, g.edges, roundAngle), L.rows, show)
    ensures t == VisualizeDag(g, order, show, roundAngle)
  {
    var L := Layer(g, order);
    assert VisualizeDag(g, order, show, roundAngle) == Output(L, g.edges, show, roundAngle);
    OutputLines(L, g.edges, show, roundAngle);
    SplitInjective(t, VisualizeDag(g, order, show, roundAngle), '\n');
  }

  /** The same for the two outputs of one graph with and without
      `round_angle`. */
  lemma RoundAngleOnlyCorners(g: Graph, order: seq<Node>, show: Node -> string)
    requires Acyclic(g) && Enumerates(order, g.nodes) && g.nodes != {}
    ensures CornersOnly(Split(VisualizeDag(g, order, show, false), '\n'),
                        Split(VisualizeDag(g, order, show, true), '\n'), Layer(g, order))
  {
    var L := Layer(g, order);
    LayeredDrawable(g, L);
    assert VisualizeDag(g, order, show, false) == Output(L, g.edges, show, false);
    assert VisualizeDag(g, order, show, true) == Output(L, g.edges, show, true);
    OutputRounded(L, g.edges, show);
  }
}
