/**
 A worked example: the two-node graph `a → b`, laid out, drawn and turned
 into text, end to end through the definitions of the model.
 */
module Examples {
  import opened Graphs
  import opened Layering
  import opened Canvas
  import opened Render
  import opened Text
  import opened Dagviz

  const Pair: Layout := Layout([1, 2], [0, 1])
  const OneEdge: set<(Node, Node)> := {(1, 2)}

  lemma PairDrawable()
    ensures Drawable(OneEdge, Pair)
  {
  }

  lemma PairBlank()
    ensures Blank(Pair) == [[], [' ', ' ']]
  {
    var a0 := Blank(Pair);
    assert |a0| == 2 && |a0[0]| == 0 && |a0[1]| == 2;
    assert a0[1][0] == ' ' && a0[1][1] == ' ';
    assert a0[1] == [' ', ' '];
  }

  lemma PairFirst()
    requires Drawable(OneEdge, Pair)
    ensures DrawNode([[], [' ', ' ']], Pair, OneEdge, 0, false) == [[], [Corner, Dash]]
  {
    var a0: Grid := [[], [' ', ' ']];
    var a1 := DrawNode(a0, Pair, OneEdge, 0, false);
    assert LastRow(OneEdge, Pair.rows, 0) == 1;
    DrawNodeRow(a0, Pair, OneEdge, 0, false, 0);
    DrawNodeRow(a0, Pair, OneEdge, 0, false, 1);
    CornerRow();
    assert a1[1] == [Corner, Dash];
  }

  lemma CornerRow()
    ensures Connected([' ', ' '], 0, TerminalGlyph(0, [' ', ' '], false)) == [Corner, Dash]
  {
    assert Run(1, Dash) == [Dash];
  }

  lemma PairSecond()
    requires Drawable(OneEdge, Pair)
    ensures DrawNode([[], [Corner, Dash]], Pair, OneEdge, 1, false) == [[], [Corner, Dash]]
  {
    assert LastRow(OneEdge, Pair.rows, 1) == 1;
    DrawNodeEffect([[], [Corner, Dash]], Pair, OneEdge, 1, false);
  }

  lemma SingleEdge()
    ensures Drawable(OneEdge, Pair)
    ensures Picture(Pair, OneEdge, false) == [[], [Corner, Dash]]
  {
    PairDrawable();
    PairBlank();
    PairFirst();
    PairSecond();
    assert DrawRows(Blank(Pair), Pair, OneEdge, false, 1) == [[], [Corner, Dash]];
  }

  const Arrow: Graph := Graph({1, 2}, OneEdge)

  lemma ArrowAcyclic()
    ensures Acyclic(Arrow)
  {
    forall p | IsPath(Arrow.edges, p) && |p| >= 2
      ensures p[0] != p[|p| - 1]
    {
      var m := |p| - 2;
      assert (p[0], p[1]) in OneEdge;
      assert (p[m], p[m + 1]) in OneEdge;
    }
  }

  lemma ArrowComponent()
    ensures Component(OneEdge, {1, 2}, 1) == {1, 2}
  {
    var C := Component(OneEdge, {1, 2}, 1);
    assert 1 in C;
    assert (1, 2) in OneEdge;
  }

  lemma ArrowSources()
    ensures Sources(OneEdge, {1, 2}, [1, 2]) == [1]
  {
    assert !IsSource(OneEdge, {1, 2}, 2) by {
      assert 1 in {1, 2} && (1, 2) in OneEdge;
    }
    assert IsSource(OneEdge, {1, 2}, 1);
  }

  lemma ArrowOrder()
    ensures Enumerates([1, 2], Arrow.nodes)
  {
  }

  /** A layout covering one node is that node on one row. */
  lemma Single(L: Layout, v: Node)
    requires Covers(L, {v}) && |L.indents| > 0
    ensures L == Layout([v], [L.indents[0]])
  {
    DistinctCard(L.rows, {v});
    assert L.rows[0] in {v};
  }

  lemma ArrowRest()
    requires Acyclic(Arrow) && Enumerates([1, 2], Arrow.nodes)
    ensures LayerDag(Arrow, {2}, [1, 2], 1) == Layout([2], [1])
  {
    Single(LayerDag(Arrow, {2}, [1, 2], 1), 2);
  }

  lemma ArrowComp()
    requires Acyclic(Arrow) && Enumerates([1, 2], Arrow.nodes)
    ensures LayerComp(Arrow, {1, 2}, [1, 2], 0) == Pair
  {
    ArrowSources();
    assert {1, 2} - Members([1]) == {2};
    assert LayerComp(Arrow, {1, 2}, [1, 2], 0) ==
      Append(Layout([1], Ladder(0, 1)), LayerDag(Arrow, {2}, [1, 2], 1));
    ArrowRest();
    assert Ladder(0, 1) == [0];
    PairAppend();
  }

  lemma ArrowDag()
    requires Acyclic(Arrow) && Enumerates([1, 2], Arrow.nodes)
    ensures LayerDag(Arrow, {1, 2}, [1, 2], 0) == Pair
  {
    ArrowComponent();
    assert FirstIn([1, 2], {1, 2}) == 1;
    ArrowComp();
    assert {1, 2} - {1, 2} == {};
    assert LayerDag(Arrow, {}, [1, 2], 0) == Layout([], []);
  }

  lemma ArrowLayer()
    ensures Acyclic(Arrow) && Enumerates([1, 2], Arrow.nodes)
    ensures Layer(Arrow, [1, 2]) == Pair
  {
    ArrowAcyclic();
    ArrowOrder();
    ArrowDag();
  }

  /** Names the two nodes `a` and `b`. */
  function Name(v: Node): string {
    if v == 1 then "a" else "b"
  }

  lemma ArrowLines()
    requires Drawable(OneEdge, Pair)
    ensures Lines(Picture(Pair, OneEdge, false), Pair.rows, Name) == ["• a", "└─• b"]
  {
    SingleEdge();
    PairLines(Picture(Pair, OneEdge, false));
  }

  lemma PairLines(a: Grid)
    requires a == [[], [Corner, Dash]]
    ensures Lines(a, Pair.rows, Name) == ["• a", "└─• b"]
  {
    var r := Lines(a, Pair.rows, Name);
    assert Flatten("a") == "a";
    assert Flatten("b") == "b";
    assert r[0] == [] + "• " + "a" == "• a";
    assert r[1] == [Corner, Dash] + "• " + "b" == "└─• b";
  }

  /** `a → b` is drawn as `a` on top at indent 0 and `b` below it at indent
      1, hooked on with a corner. */
  lemma ArrowOutput()
    ensures Acyclic(Arrow) && Enumerates([1, 2], Arrow.nodes)
    ensures VisualizeDag(Arrow, [1, 2], Name, false) == "• a\n└─• b"
  {
    ArrowLayer();
    PairDrawable();
    PairOutput();
  }

  lemma PairOutput()
    requires Drawable(OneEdge, Pair)
    ensures Output(Pair, OneEdge, Name, false) == "• a\n└─• b"
  {
    ArrowLines();
    JoinTwo("• a", "└─• b", '\n');
  }

  lemma PairAppend()
    ensures Append(Layout([1], [0]), Layout([2], [1])) == Pair
  {
  }

  lemma JoinTwo(x: string, y: string, sep: char)
    ensures Join([x, y], sep) == x + [sep] + y
  {
    assert [x, y][1..] == [y];
  }

  /** Without edges every node is a component of its own, so every row
      restarts at the baseline. */
  lemma EdgelessFlat(S: set<Node>, b: nat, L: Layout)
    requires Restarts({}, S, b, L)
    ensures forall k :: 0 <= k < |L.indents| ==> L.indents[k] == b
  {
    forall k | 0 <= k < |L.indents|
      ensures L.indents[k] == b
    {
      assert Closed({}, S, Members(L.rows[..k]));
    }
  }

  /** A graph without edges has no walk of two or more nodes. */
  lemma EdgelessAcyclic(S: set<Node>)
    ensures Acyclic(Graph(S, {}))
  {
    var g := Graph(S, {});
    assert forall p :: IsPath(g.edges, p) && |p| >= 2 ==> (p[0], p[1]) in g.edges;
  }

  /** Two nodes and no edge: both are drawn at indent 0, whichever order the
      graph library lists them in. */
  lemma TwoIsolated(order: seq<Node>)
    requires Enumerates(order, {1, 2})
    ensures Acyclic(Graph({1, 2}, {}))
    ensures Layer(Graph({1, 2}, {}), order).indents == [0, 0]
  {
    EdgelessAcyclic({1, 2});
    var L := Layer(Graph({1, 2}, {}), order);
    assert |{1, 2}| == 2;
    EdgelessFlat({1, 2}, 0, L);
    FlatPair(L.indents);
  }

  lemma FlatPair(s: seq<nat>)
    requires |s| == 2 && forall k :: 0 <= k < |s| ==> s[k] == 0
    ensures s == [0, 0]
  {
  }

  /** A fork `1 → 2`, `1 → 3` beside an isolated node `4`: listing `4`
      between the fork's rows, indented like them, is not a layout the
      model allows, since `4` starts a component of its own and so must sit
      at the baseline. */
  lemma InterleavedRejected()
    ensures !Restarts({(1, 2), (1, 3)}, {1, 2, 3, 4}, 0, Layout([1, 2, 4, 3], [0, 1, 1, 1]))
  {
    var E := {(1, 2), (1, 3)};
    var S := {1, 2, 3, 4};
    var L := Layout([1, 2, 4, 3], [0, 1, 1, 1]);
    assert Closed(E, S, {4});
    assert Component(E, S, 4) == {4};
    assert L.rows[..2] == [1, 2];
    assert Members(L.rows[..2]) !! Component(E, S, L.rows[2]);
    assert NewComponent(E, S, L.rows, 2);
  }
}
