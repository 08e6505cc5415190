/**
 Properties of the finished canvas that relate the drawing of several nodes:
 the unguarded left-neighbour read at indent 0, the characters a canvas can
 hold, and what the `round_angle` flag changes.
 */
module RenderFacts {
  import opened Graphs
  import opened Layering
  import opened Canvas
  import opened Render

  /** A row at indent 0 separates the rows above it from the rows below:
      no edge leaves a row above it for it or a row below it. */
  lemma IndentZeroSeparates(E: set<(Node, Node)>, L: Layout, m: nat)
    requires Drawable(E, L) && m < |L.rows| && L.indents[m] == 0
    ensures forall w, j :: 0 <= w < m <= j < |L.rows| ==> (L.rows[w], L.rows[j]) !in E
  {
  }

  /** The farthest successor of a row above an indent-0 row is above it too. */
  lemma LastRowAbove(E: set<(Node, Node)>, L: Layout, m: nat, i: nat)
    requires Drawable(E, L) && m < |L.rows| && L.indents[m] == 0 && i < m
    ensures LastRow(E, L.rows, i) < m
  {
    IndentZeroSeparates(E, L, m);
  }

  /** Drawing the rows above an indent-0 row leaves that row and every row
      below it as allocated. */
  lemma {:induction false} UntouchedBelowIndentZero(L: Layout, E: set<(Node, Node)>, roundAngle: bool, m: nat, k: nat, j: nat)
    requires Drawable(E, L) && m < |L.rows| && L.indents[m] == 0 && k <= m <= j < |L.rows|
    ensures DrawRows(Blank(L), L, E, roundAngle, k)[j] == Blank(L)[j]
    decreases k
  {
    if k > 0 {
      UntouchedBelowIndentZero(L, E, roundAngle, m, k - 1, j);
      var a := DrawRows(Blank(L), L, E, roundAngle, k - 1);
      LastRowAbove(E, L, m, k - 1);
      DrawNodeRow(a, L, E, k - 1, roundAngle, j);
    }
  }

  /** dagviz.py:55 reads the left neighbour of the trunk column without the
      `indents[i] > 0` guard of dagviz.py:50, so at indent 0 Python's index -1
      reads the last cell of the farthest successor's row. That row is still
      blank at that moment, so the read never sees `─`: a node at indent 0
      always ends its edges with `└` (or `╰`), exactly as if the guard were
      there. */
  lemma IndentZeroTerminal(L: Layout, E: set<(Node, Node)>, roundAngle: bool, i: nat)
    requires Drawable(E, L) && i < |L.rows| && L.indents[i] == 0
    requires LastRow(E, L.rows, i) > i
    ensures var last := LastRow(E, L.rows, i);
      TerminalGlyph(0, DrawRows(Blank(L), L, E, roundAngle, i)[last], roundAngle) ==
        (if roundAngle then RoundCorner else Corner)
    ensures DrawRows(Blank(L), L, E, roundAngle, i + 1)[LastRow(E, L.rows, i)][0] ==
      (if roundAngle then RoundCorner else Corner)
  {
    var last := LastRow(E, L.rows, i);
    var a := DrawRows(Blank(L), L, E, roundAngle, i);
    UntouchedBelowIndentZero(L, E, roundAngle, i, i, last);
    assert a[last] == Blank(L)[last];
    assert L.indents[last] > 0;
    assert a[last][|a[last]| - 1] == ' ';
    DrawNodeEffect(a, L, E, i, roundAngle);
    ConnectedCells(a[last], 0, TerminalGlyph(0, a[last], roundAngle));
  }

  /** A connection drawn with a glyph of the style over a row of the style
      leaves only glyphs of the style. */
  lemma ConnectedPainted(row: seq<char>, indent: nat, glyph: char, roundAngle: bool)
    requires 2 * indent < |row|
    requires forall k :: 0 <= k < |row| ==> row[k] in Glyphs(roundAngle)
    requires glyph in Glyphs(roundAngle)
    ensures forall k :: 0 <= k < |row| ==> Connected(row, indent, glyph)[k] in Glyphs(roundAngle)
  {
    ConnectedCells(row, indent, glyph);
  }

  /** The glyphs every style has, and the corner of its own. */
  lemma StyleGlyphs(roundAngle: bool)
    ensures ' ' in Glyphs(roundAngle) && Bar in Glyphs(roundAngle) && Tee in Glyphs(roundAngle)
    ensures Cross in Glyphs(roundAngle) && Up in Glyphs(roundAngle) && Dash in Glyphs(roundAngle)
    ensures (if roundAngle then RoundCorner else Corner) in Glyphs(roundAngle)
  {
  }

  /** Row `j` after the node on row `i` is drawn holds glyphs of the style
      when it did before. */
  lemma RowAfterPainted(a: Grid, L: Layout, E: set<(Node, Node)>, i: nat, roundAngle: bool, j: nat)
    requires Drawable(E, L) && Shaped(a, L) && i < |a| && j < |a|
    requires forall k :: 0 <= k < |a[j]| ==> a[j][k] in Glyphs(roundAngle)
    ensures forall k :: 0 <= k < |RowAfter(a, L, E, i, roundAngle, j)| ==>
      RowAfter(a, L, E, i, roundAngle, j)[k] in Glyphs(roundAngle)
  {
    var last := LastRow(E, L.rows, i);
    var ind := L.indents[i];
    StyleGlyphs(roundAngle);
    if i < j <= last {
      DeeperBelow(E, L, i, last);
      if j == last {
        ConnectedPainted(a[j], ind, TerminalGlyph(ind, a[j], roundAngle), roundAngle);
      } else if (L.rows[i], L.rows[j]) in E {
        ConnectedPainted(a[j], ind, BranchGlyph(ind, a[j]), roundAngle);
      } else {
        BarPainted(a[j], a[j][2 * ind := Bar], 2 * ind, roundAngle);
      }
    }
  }

  /** A trunk cell over a row of the style leaves the row in the style. */
  lemma BarPainted(row: seq<char>, barred: seq<char>, c: nat, roundAngle: bool)
    requires c < |row| && barred == row[c := Bar]
    requires forall k :: 0 <= k < |row| ==> row[k] in Glyphs(roundAngle)
    ensures forall k :: 0 <= k < |barred| ==> barred[k] in Glyphs(roundAngle)
  {
    StyleGlyphs(roundAngle);
  }

  /** Drawing one node onto a canvas of the style keeps row `j` in the style. */
  lemma DrawNodeRowPainted(a: Grid, L: Layout, E: set<(Node, Node)>, i: nat, roundAngle: bool, j: nat)
    requires Drawable(E, L) && Shaped(a, L) && i < |a| && j < |a|
    requires forall k :: 0 <= k < |a[j]| ==> a[j][k] in Glyphs(roundAngle)
    ensures forall k :: 0 <= k < |DrawNode(a, L, E, i, roundAngle)[j]| ==>
      DrawNode(a, L, E, i, roundAngle)[j][k] in Glyphs(roundAngle)
  {
    DrawNodeRow(a, L, E, i, roundAngle, j);
    RowAfterPainted(a, L, E, i, roundAngle, j);
  }

  /** The canvas only ever holds spaces and the glyphs of its style: in
      particular no line break, and no corner of the other style. */
  lemma {:induction false} DrawRowsPainted(L: Layout, E: set<(Node, Node)>, roundAngle: bool, k: nat)
    requires Drawable(E, L) && k <= |L.rows|
    ensures Painted(DrawRows(Blank(L), L, E, roundAngle, k), roundAngle)
  {
    if k > 0 {
      DrawRowsPainted(L, E, roundAngle, k - 1);
      var a := DrawRows(Blank(L), L, E, roundAngle, k - 1);
      var r := DrawNode(a, L, E, k - 1, roundAngle);
      forall j | 0 <= j < |r|
        ensures forall c :: 0 <= c < |r[j]| ==> r[j][c] in Glyphs(roundAngle)
      {
        DrawNodeRowPainted(a, L, E, k - 1, roundAngle, j);
      }
      assert DrawRows(Blank(L), L, E, roundAngle, k) == r;
    } else {
      assert ' ' in Glyphs(roundAngle);
    }
  }

  /** The finished canvas holds spaces and glyphs of its style only. */
  lemma PicturePainted(L: Layout, E: set<(Node, Node)>, roundAngle: bool)
    requires Drawable(E, L)
    ensures Painted(Picture(L, E, roundAngle), roundAngle)
    ensures forall j, k :: 0 <= j < |L.rows| && 0 <= k < |Picture(L, E, roundAngle)[j]| ==>
      Picture(L, E, roundAngle)[j][k] != '\n'
  {
    DrawRowsPainted(L, E, roundAngle, |L.rows|);
  }

  /** The one character `round_angle` changes. */
  function RoundChar(ch: char): char {
    if ch == Corner then RoundCorner else ch
  }

  /** A row with every `└` turned into `╰`. */
  function RoundRow(row: seq<char>): (r: seq<char>)
    ensures |r| == |row|
    ensures forall k :: 0 <= k < |row| ==> r[k] == RoundChar(row[k])
  {
    seq(|row|, k requires 0 <= k < |row| => RoundChar(row[k]))
  }

  /** A canvas with every `└` turned into `╰`. */
  function Rounded(a: Grid): (r: Grid)
    ensures |r| == |a|
    ensures forall j :: 0 <= j < |a| ==> r[j] == RoundRow(a[j])
  {
    seq(|a|, j requires 0 <= j < |a| => RoundRow(a[j]))
  }

  /** Rounding commutes with a connection; the glyph is rounded with the row. */
  lemma RoundConnected(row: seq<char>, indent: nat, glyph: char)
    requires 2 * indent < |row|
    ensures RoundRow(Connected(row, indent, glyph)) == Connected(RoundRow(row), indent, RoundChar(glyph))
  {
    ConnectedCells(row, indent, glyph);
    ConnectedCells(RoundRow(row), indent, RoundChar(glyph));
  }

  /** The terminal glyph of the rounded style on a rounded row is the rounded
      terminal glyph of the square style: the `─` test is unaffected. */
  lemma TerminalRounded(row: seq<char>, indent: nat)
    requires 2 * indent < |row|
    ensures TerminalGlyph(indent, RoundRow(row), true) == RoundChar(TerminalGlyph(indent, row, false))
  {
    assert LeftCell(RoundRow(row), 2 * indent) == RoundChar(LeftCell(row, 2 * indent));
  }

  /** Rounding never creates or removes a `─`, so junction glyphs are kept. */
  lemma BranchRounded(row: seq<char>, indent: nat)
    requires 2 * indent < |row|
    ensures BranchGlyph(indent, RoundRow(row)) == BranchGlyph(indent, row)
    ensures RoundChar(BranchGlyph(indent, row)) == BranchGlyph(indent, row)
  {
  }

  lemma TrunkRounded(row: seq<char>, c: nat)
    requires c < |row|
    ensures RoundRow(row[c := Bar]) == RoundRow(row)[c := Bar]
  {
  }

  /** Row `j` after drawing node `i`, rounded style against square style. */
  lemma DrawNodeRowRounded(a: Grid, L: Layout, E: set<(Node, Node)>, i: nat, j: nat)
    requires Drawable(E, L) && Shaped(a, L) && i < |a| && j < |a|
    ensures Shaped(Rounded(a), L)
    ensures DrawNode(Rounded(a), L, E, i, true)[j] == RoundRow(DrawNode(a, L, E, i, false)[j])
  {
    var ra := Rounded(a);
    assert Shaped(ra, L);
    var last := LastRow(E, L.rows, i);
    var ind := L.indents[i];
    DrawNodeRow(a, L, E, i, false, j);
    DrawNodeRow(ra, L, E, i, true, j);
    if i < j <= last {
      assert (L.rows[i], L.rows[last]) in E;
      assert L.indents[j] > ind;
      if j == last {
        TerminalRounded(a[j], ind);
        RoundConnected(a[j], ind, TerminalGlyph(ind, a[j], false));
      } else if (L.rows[i], L.rows[j]) in E {
        BranchRounded(a[j], ind);
        RoundConnected(a[j], ind, BranchGlyph(ind, a[j]));
      } else {
        TrunkRounded(a[j], 2 * ind);
      }
    }
  }

  /** Rounding commutes with drawing one node: junction glyphs only look for
      `─`, which rounding leaves alone, and the terminal glyph of the rounded
      style is the rounded terminal glyph of the square style. */
  lemma DrawNodeRounded(a: Grid, L: Layout, E: set<(Node, Node)>, i: nat)
    requires Drawable(E, L) && Shaped(a, L) && i < |a|
    ensures Shaped(Rounded(a), L)
    ensures DrawNode(Rounded(a), L, E, i, true) == Rounded(DrawNode(a, L, E, i, false))
  {
    var ra := Rounded(a);
    assert Shaped(ra, L);
    var r1 := DrawNode(ra, L, E, i, true);
    var r0 := DrawNode(a, L, E, i, false);
    forall j | 0 <= j < |a|
      ensures r1[j] == RoundRow(r0[j])
    {
      DrawNodeRowRounded(a, L, E, i, j);
    }
    assert r1 == Rounded(r0);
  }

  /** Drawing in the rounded style is drawing in the square style and then
      turning every `└` into `╰`. */
  lemma {:induction false} DrawRowsRounded(L: Layout, E: set<(Node, Node)>, k: nat)
    requires Drawable(E, L) && k <= |L.rows|
    ensures DrawRows(Blank(L), L, E, true, k) == Rounded(DrawRows(Blank(L), L, E, false, k))
  {
    if k == 0 {
      forall j | 0 <= j < |L.rows|
        ensures Blank(L)[j] == RoundRow(Blank(L)[j])
      {
      }
      assert Blank(L) == Rounded(Blank(L));
    } else {
      DrawRowsRounded(L, E, k - 1);
      DrawNodeRounded(DrawRows(Blank(L), L, E, false, k - 1), L, E, k - 1);
    }
  }

  /** The style property: the only difference `round_angle` makes to
      the canvas is that every `└` becomes `╰`; the square canvas holds no
      `╰` and the rounded one no `└`. */
  lemma PictureRounded(L: Layout, E: set<(Node, Node)>)
    requires Drawable(E, L)
    ensures Picture(L, E, true) == Rounded(Picture(L, E, false))
    ensures Painted(Picture(L, E, false), false) && Painted(Picture(L, E, true), true)
  {
    DrawRowsRounded(L, E, |L.rows|);
    PicturePainted(L, E, false);
    PicturePainted(L, E, true);
  }
}
