/**
 The edge-drawing phase of `visualize_dag` (dagviz.py:36-58): one buffer of
 `2 * indent` spaces per row, then, node by node in row order, a trunk from
 the node down to its farthest successor, a junction glyph and a dash run
 on every successor's row.
 */
module Render {
  import opened Graphs
  import opened Layering
  import opened Canvas

  /** What the renderer needs of a layout: one indent per row, no node twice,
      edges pointing downwards and every row spanned by an edge indented
      deeper than the edge's tail. */
  ghost predicate Drawable(E: set<(Node, Node)>, L: Layout) {
    |L.rows| == |L.indents| && Distinct(L.rows) && Topological(E, L.rows) && Nested(E, L)
  }

  /** Every buffer is as wide as twice its row's indent. */
  ghost predicate Shaped(a: Grid, L: Layout) {
    |L.rows| == |L.indents| && |a| == |L.rows| &&
    forall j :: 0 <= j < |a| ==> |a[j]| == 2 * L.indents[j]
  }

  /** The buffers allocated at dagviz.py:36-39: row `j` holds `2 * indents[j]`
      spaces. */
  function Blank(L: Layout): (a: Grid)
    requires |L.rows| == |L.indents|
    ensures Shaped(a, L)
    ensures forall j, k :: 0 <= j < |a| && 0 <= k < |a[j]| ==> a[j][k] == ' '
  {
    seq(|L.rows|, j requires 0 <= j < |L.rows| => Run(2 * L.indents[j], ' '))
  }

  /** The rows from `j` on that hold a successor of `u`, ascending. */
  function SuccRowsFrom(E: set<(Node, Node)>, rows: seq<Node>, u: Node, j: nat): (r: seq<nat>)
    requires j <= |rows|
    ensures forall k :: 0 <= k < |r| ==> j <= r[k] < |rows| && (u, rows[r[k]]) in E
    ensures forall k, k' :: 0 <= k < k' < |r| ==> r[k] < r[k']
    ensures forall x :: j <= x < |rows| && (u, rows[x]) in E ==> x in r
    decreases |rows| - j
  {
    if j == |rows| then []
    else (if (u, rows[j]) in E then [j] else []) + SuccRowsFrom(E, rows, u, j + 1)
  }

  /** dagviz.py:41: the successors of the node on row `i`, sorted by
      `node_to_row`, given by their rows. */
  function SuccRows(E: set<(Node, Node)>, rows: seq<Node>, i: nat): (r: seq<nat>)
    requires Distinct(rows) && i < |rows|
    ensures forall k, k' :: 0 <= k < k' < |r| ==> r[k] < r[k']
    ensures forall k :: 0 <= k < |r| ==> r[k] < |rows| && (rows[i], rows[r[k]]) in E
    ensures forall v :: v in rows && (rows[i], v) in E ==> RowIndex(rows)[v] in r
  {
    var r := SuccRowsFrom(E, rows, rows[i], 0);
    forall v | v in rows && (rows[i], v) in E
      ensures RowIndex(rows)[v] in r
    {
      assert rows[RowIndex(rows)[v]] == v;
    }
    r
  }

  /** dagviz.py:44: the row of the farthest successor of row `i`; a node
      without successors gets its own row. */
  function LastRow(E: set<(Node, Node)>, rows: seq<Node>, i: nat): (last: nat)
    requires Distinct(rows) && i < |rows|
    ensures last < |rows|
    ensures forall j :: 0 <= j < |rows| && (rows[i], rows[j]) in E ==> j <= last
    ensures last == i || (rows[i], rows[last]) in E
    ensures (exists j :: 0 <= j < |rows| && (rows[i], rows[j]) in E) ==> (rows[i], rows[last]) in E
  {
    var s := SuccRows(E, rows, i);
    if |s| == 0 then
      assert forall j :: 0 <= j < |rows| && (rows[i], rows[j]) in E ==> RowIndex(rows)[rows[j]] in s;
      i
    else
      forall j | 0 <= j < |rows| && (rows[i], rows[j]) in E
        ensures j <= s[|s| - 1]
      {
        assert rows[j] in rows;
        assert RowIndex(rows)[rows[j]] == j;
        var k :| 0 <= k < |s| && s[k] == j;
        if k < |s| - 1 { assert s[k] < s[|s| - 1]; }
      }
      s[|s| - 1]
  }

  /** Python's `row[c - 1]`, where `c - 1 == -1` reads the last cell: a
      negative index counts from the end of the row. */
  function LeftCell(row: seq<char>, c: int): char
    requires 0 <= c <= |row| && |row| > 0
  {
    if c >= 1 then row[c - 1] else row[|row| - 1]
  }

  /** dagviz.py:49-51: the junction glyph for a successor other than the
      farthest one. The left neighbour is only consulted at a positive indent. */
  function BranchGlyph(indent: nat, row: seq<char>): char
    requires 2 * indent <= |row|
  {
    if indent > 0 && row[2 * indent - 1] == Dash then Cross else Tee
  }

  /** dagviz.py:54-56: the glyph for the farthest successor. Its left-neighbour
      read has no guard, so at indent 0 it reads the row's last cell. */
  function TerminalGlyph(indent: nat, row: seq<char>, roundAngle: bool): char
    requires 2 * indent < |row|
  {
    if LeftCell(row, 2 * indent) == Dash then Up
    else if roundAngle then RoundCorner
    else Corner
  }

  /** The left neighbour is Python's index `c - 1` taken modulo the row's
      length: the cell before `c`, or the last cell when `c` is 0. */
  lemma LeftCellIndex(row: seq<char>, c: int)
    requires 0 <= c <= |row| && |row| > 0
    ensures LeftCell(row, c) == row[(c - 1) % |row|]
  {
  }

  /** The junction glyph is `┼` exactly when the indent is positive and the
      cell left of the trunk column holds `─`, and `├` otherwise. */
  lemma BranchGlyphRule(indent: nat, row: seq<char>)
    requires 2 * indent <= |row|
    ensures BranchGlyph(indent, row) == Cross || BranchGlyph(indent, row) == Tee
    ensures BranchGlyph(indent, row) == Cross <==> indent > 0 && row[2 * indent - 1] == Dash
  {
  }

  /** The terminal glyph is `┴` exactly when the cell at Python index
      `2 * indent - 1` holds `─`; otherwise it is the corner of the style. */
  lemma TerminalGlyphRule(indent: nat, row: seq<char>, roundAngle: bool)
    requires 2 * indent < |row|
    ensures TerminalGlyph(indent, row, roundAngle) == Up <==> row[(2 * indent - 1) % |row|] == Dash
    ensures TerminalGlyph(indent, row, roundAngle) != Up ==>
      TerminalGlyph(indent, row, roundAngle) == (if roundAngle then RoundCorner else Corner)
  {
    LeftCellIndex(row, 2 * indent);
  }

  /** What row `j` holds once the node at indent `indent` has connected to it
      with `glyph`: the cells left of the trunk untouched, the glyph on the
      trunk column, dashes up to the end of the buffer. */
  function Connected(row: seq<char>, indent: nat, glyph: char): seq<char>
    requires 2 * indent < |row|
  {
    row[..2 * indent] + [glyph] + Run(|row| - 2 * indent - 1, Dash)
  }

  /** The cells of a written run are cells of the run. */
  lemma ConnectedCells(row: seq<char>, indent: nat, glyph: char)
    requires 2 * indent < |row|
    ensures |Connected(row, indent, glyph)| == |row|
    ensures forall k :: 0 <= k < |row| ==>
      Connected(row, indent, glyph)[k] ==
        (if k < 2 * indent then row[k] else if k == 2 * indent then glyph else Dash)
  {
  }

  /** A connection only depends on the cells left of the trunk column. */
  lemma ConnectedPrefix(row1: seq<char>, row2: seq<char>, indent: nat, glyph: char)
    requires 2 * indent < |row1| == |row2|
    requires row1[..2 * indent] == row2[..2 * indent]
    ensures Connected(row1, indent, glyph) == Connected(row2, indent, glyph)
  {
  }

  /** dagviz.py:48-53 (and 54-58 with the terminal glyph): the glyph on the
      trunk column of row `j`, then dashes from the trunk up to `j`'s own
      column `2 * indents[j]`, which is the end of `j`'s buffer. */
  function Connect(a: Grid, L: Layout, i: nat, j: nat, glyph: char): (r: Grid)
    requires Shaped(a, L) && i < |a| && j < |a| && L.indents[i] < L.indents[j]
    ensures Shaped(r, L)
    ensures forall j' :: 0 <= j' < |a| && j' != j ==> r[j'] == a[j']
    ensures r[j] == Connected(a[j], L.indents[i], glyph)
  {
    var c := 2 * L.indents[i];
    var a1 := Write(a, j, c, glyph);
    var r := FillRow(a1, j, c + 1, 2 * L.indents[j], Dash);
    ConnectedCells(a[j], L.indents[i], glyph);
    assert r[j] == Connected(a[j], L.indents[i], glyph);
    r
  }

  /** dagviz.py:47-53: the successors other than the farthest one, each given
      a junction glyph chosen from the canvas as it stands and a dash run. */
  function DrawBranches(a: Grid, L: Layout, i: nat, js: seq<nat>): (r: Grid)
    requires Shaped(a, L) && i < |a|
    requires forall k :: 0 <= k < |js| ==> js[k] < |a| && L.indents[i] < L.indents[js[k]]
    requires forall k, k' :: 0 <= k < k' < |js| ==> js[k] < js[k']
    ensures Shaped(r, L)
    ensures forall j :: 0 <= j < |a| && j !in js ==> r[j] == a[j]
    ensures forall k :: 0 <= k < |js| ==>
      r[js[k]] == Connected(a[js[k]], L.indents[i], BranchGlyph(L.indents[i], a[js[k]]))
    decreases |js|, 1
  {
    if |js| == 0 then a
    else
      BranchesStep(a, L, i, js);
      DrawBranches(Connect(a, L, i, js[0], BranchGlyph(L.indents[i], a[js[0]])), L, i, js[1..])
  }

  /** One branch, then the rest: the first successor row is connected once
      and the later branches leave it alone. */
  lemma BranchesStep(a: Grid, L: Layout, i: nat, js: seq<nat>)
    requires Shaped(a, L) && i < |a| && |js| > 0
    requires forall k :: 0 <= k < |js| ==> js[k] < |a| && L.indents[i] < L.indents[js[k]]
    requires forall k, k' :: 0 <= k < k' < |js| ==> js[k] < js[k']
    ensures var a1 := Connect(a, L, i, js[0], BranchGlyph(L.indents[i], a[js[0]]));
      var r := DrawBranches(a1, L, i, js[1..]);
      Shaped(r, L) &&
      (forall j :: 0 <= j < |a| && j !in js ==> r[j] == a[j]) &&
      (forall k :: 0 <= k < |js| ==>
        r[js[k]] == Connected(a[js[k]], L.indents[i], BranchGlyph(L.indents[i], a[js[k]])))
    decreases |js|, 0
  {
    var j := js[0];
    var ind := L.indents[i];
    var a1 := Connect(a, L, i, j, BranchGlyph(ind, a[j]));
    var tail := js[1..];
    assert forall k :: 0 <= k < |tail| ==> tail[k] == js[k + 1];
    var r := DrawBranches(a1, L, i, tail);
    assert r[j] == a1[j] by {
      assert j !in tail;
    }
    forall k | 0 <= k < |js|
      ensures r[js[k]] == Connected(a[js[k]], ind, BranchGlyph(ind, a[js[k]]))
    {
      if k > 0 {
        assert js[k] == tail[k - 1] && js[k] != j;
        assert a1[js[k]] == a[js[k]];
      }
    }
  }

  /** What drawing the edges of row `i` needs of its successor rows `succ`:
      at least one, ascending, all below row `i`, and every row from `i + 1`
      down to the farthest one indented deeper than row `i`. */
  ghost predicate Fan(L: Layout, i: nat, succ: seq<nat>) {
    |L.rows| == |L.indents| && i < |L.rows| && |succ| > 0 &&
    (forall k :: 0 <= k < |succ| ==> i < succ[k] < |L.rows|) &&
    (forall k, k' :: 0 <= k < k' < |succ| ==> succ[k] < succ[k']) &&
    (forall r :: i < r <= succ[|succ| - 1] ==> L.indents[r] > L.indents[i])
  }

  /** The successor rows of a drawable layout form a fan. */
  lemma SuccessorsFan(E: set<(Node, Node)>, L: Layout, i: nat)
    requires Drawable(E, L) && i < |L.rows|
    requires |SuccRows(E, L.rows, i)| > 0
    ensures Fan(L, i, SuccRows(E, L.rows, i))
    ensures SuccRows(E, L.rows, i)[|SuccRows(E, L.rows, i)| - 1] == LastRow(E, L.rows, i)
  {
    var succ := SuccRows(E, L.rows, i);
    var last := succ[|succ| - 1];
    assert (L.rows[i], L.rows[last]) in E;
    forall k | 0 <= k < |succ|
      ensures i < succ[k]
    {
      assert (L.rows[i], L.rows[succ[k]]) in E;
    }
    DeeperBelow(E, L, i, last);
  }

  /** dagviz.py:44-58 for one node: the trunk down to the farthest successor,
      the branches to every other successor, then the terminal connection to
      the farthest one. */
  function DrawFan(a: Grid, L: Layout, i: nat, succ: seq<nat>, roundAngle: bool): (r: Grid)
    requires Shaped(a, L) && Fan(L, i, succ)
    ensures Shaped(r, L)
  {
    var last := succ[|succ| - 1];
    var ind := L.indents[i];
    var a1 := FillColumn(a, i + 1, last, 2 * ind, Bar);
    var js := succ[..|succ| - 1];
    assert forall k :: 0 <= k < |js| ==> js[k] == succ[k];
    var a2 := DrawBranches(a1, L, i, js);
    Connect(a2, L, i, last, TerminalGlyph(ind, a2[last], roundAngle))
  }

  /** Drawing the edges of the node on row `i` (dagviz.py:41-58). A node
      without successors draws nothing; `DrawNodeEffect` states the rest. */
  function DrawNode(a: Grid, L: Layout, E: set<(Node, Node)>, i: nat, roundAngle: bool): (r: Grid)
    requires Drawable(E, L) && Shaped(a, L) && i < |a|
    ensures Shaped(r, L)
  {
    var succ := SuccRows(E, L.rows, i);
    if |succ| == 0 then a
    else
      SuccessorsFan(E, L, i);
      DrawFan(a, L, i, succ, roundAngle)
  }

  /** Every row below row `i`, down to a successor's row, is indented deeper
      than row `i`. */
  lemma DeeperBelow(E: set<(Node, Node)>, L: Layout, i: nat, last: nat)
    requires Nested(E, L) && i < last < |L.rows|
    requires (L.rows[i], L.rows[last]) in E
    ensures forall r :: i < r <= last ==> L.indents[r] > L.indents[i]
  {
  }

  /** Row `j` after a fan is drawn: untouched outside `i+1 .. last`, the
      terminal connection on `last`, a branch on the other successor rows, the
      trunk `│` on the rest. */
  lemma FanRow(a: Grid, L: Layout, i: nat, succ: seq<nat>, roundAngle: bool, j: nat)
    requires Shaped(a, L) && Fan(L, i, succ) && j < |a|
    ensures var last := succ[|succ| - 1];
      var ind := L.indents[i];
      DrawFan(a, L, i, succ, roundAngle)[j] ==
        if !(i < j <= last) then a[j]
        else if j == last then Connected(a[j], ind, TerminalGlyph(ind, a[j], roundAngle))
        else if j in succ then Connected(a[j], ind, BranchGlyph(ind, a[j]))
        else a[j][2 * ind := Bar]
  {
    var last := succ[|succ| - 1];
    if j == last {
      FanLast(a, L, i, succ, roundAngle);
    } else if i < j < last && j in succ {
      var k :| 0 <= k < |succ| && succ[k] == j;
      FanBranch(a, L, i, succ, roundAngle, k);
    } else {
      FanOther(a, L, i, succ, roundAngle, j);
    }
  }

  /** The rows of a fan before its terminal connection: the trunk, then the
      branches. */
  function FanBranches(a: Grid, L: Layout, i: nat, succ: seq<nat>): (r: Grid)
    requires Shaped(a, L) && Fan(L, i, succ)
    ensures Shaped(r, L)
    ensures forall j :: 0 <= j < |a| && j !in succ[..|succ| - 1] ==>
      r[j] == (if i < j < succ[|succ| - 1] then a[j][2 * L.indents[i] := Bar] else a[j])
    ensures forall k :: 0 <= k < |succ| - 1 ==>
      r[succ[k]] == Connected(a[succ[k]], L.indents[i], BranchGlyph(L.indents[i], a[succ[k]]))
  {
    var last := succ[|succ| - 1];
    var ind := L.indents[i];
    var a1 := FillColumn(a, i + 1, last, 2 * ind, Bar);
    var js := succ[..|succ| - 1];
    assert forall k :: 0 <= k < |js| ==> js[k] == succ[k];
    var r := DrawBranches(a1, L, i, js);
    forall k | 0 <= k < |js|
      ensures r[succ[k]] == Connected(a[succ[k]], ind, BranchGlyph(ind, a[succ[k]]))
    {
      BranchOverTrunk(a[succ[k]], ind);
    }
    r
  }

  lemma FanUnfold(a: Grid, L: Layout, i: nat, succ: seq<nat>, roundAngle: bool)
    requires Shaped(a, L) && Fan(L, i, succ)
    ensures var last := succ[|succ| - 1];
      var a2 := FanBranches(a, L, i, succ);
      DrawFan(a, L, i, succ, roundAngle) ==
        Connect(a2, L, i, last, TerminalGlyph(L.indents[i], a2[last], roundAngle))
  {
  }

  lemma FanLast(a: Grid, L: Layout, i: nat, succ: seq<nat>, roundAngle: bool)
    requires Shaped(a, L) && Fan(L, i, succ)
    ensures var last := succ[|succ| - 1];
      var ind := L.indents[i];
      DrawFan(a, L, i, succ, roundAngle)[last] == Connected(a[last], ind, TerminalGlyph(ind, a[last], roundAngle))
  {
    var last := succ[|succ| - 1];
    FanUnfold(a, L, i, succ, roundAngle);
    assert last !in succ[..|succ| - 1];
  }

  lemma FanBranch(a: Grid, L: Layout, i: nat, succ: seq<nat>, roundAngle: bool, k: nat)
    requires Shaped(a, L) && Fan(L, i, succ) && k < |succ| - 1
    ensures var ind := L.indents[i];
      DrawFan(a, L, i, succ, roundAngle)[succ[k]] == Connected(a[succ[k]], ind, BranchGlyph(ind, a[succ[k]]))
  {
    FanUnfold(a, L, i, succ, roundAngle);
  }

  lemma FanOther(a: Grid, L: Layout, i: nat, succ: seq<nat>, roundAngle: bool, j: nat)
    requires Shaped(a, L) && Fan(L, i, succ) && j < |a|
    requires j != succ[|succ| - 1] && !(i < j < succ[|succ| - 1] && j in succ)
    ensures DrawFan(a, L, i, succ, roundAngle)[j] ==
      (if i < j < succ[|succ| - 1] then a[j][2 * L.indents[i] := Bar] else a[j])
  {
    FanUnfold(a, L, i, succ, roundAngle);
    assert j !in succ[..|succ| - 1];
  }

  /** What drawing the node on row `i` does to the canvas. A node without
      successors leaves it as it is. Otherwise, with `last` its farthest
      successor's row and `c == 2 * indents[i]` its trunk column:
      - no row outside `i+1 .. last` changes;
      - rows strictly between `i` and `last` that hold no successor get `│`
        in column `c` and nothing else;
      - every other successor row keeps its cells left of `c`, gets `┼` in
        column `c` when the indent is positive and the cell left of `c` held
        `─`, `├` otherwise, and dashes from there to the end of its buffer;
      - row `last` likewise gets `┴` when the cell read as its left
        neighbour held `─`, else `╰` or `└` according to `roundAngle`.
      Glyphs are chosen from the canvas as it stood before the node was
      drawn. */
  lemma DrawNodeEffect(a: Grid, L: Layout, E: set<(Node, Node)>, i: nat, roundAngle: bool)
    requires Drawable(E, L) && Shaped(a, L) && i < |a|
    ensures LastRow(E, L.rows, i) == i ==> DrawNode(a, L, E, i, roundAngle) == a
    ensures forall j :: 0 <= j < |a| && !(i < j <= LastRow(E, L.rows, i)) ==>
      DrawNode(a, L, E, i, roundAngle)[j] == a[j]
    ensures forall j :: i < j < LastRow(E, L.rows, i) && (L.rows[i], L.rows[j]) !in E ==>
      DrawNode(a, L, E, i, roundAngle)[j] == a[j][2 * L.indents[i] := Bar]
    ensures forall j :: i < j < LastRow(E, L.rows, i) && (L.rows[i], L.rows[j]) in E ==>
      DrawNode(a, L, E, i, roundAngle)[j] == Connected(a[j], L.indents[i], BranchGlyph(L.indents[i], a[j]))
    ensures var last := LastRow(E, L.rows, i);
      i < last ==>
      DrawNode(a, L, E, i, roundAngle)[last] ==
        Connected(a[last], L.indents[i], TerminalGlyph(L.indents[i], a[last], roundAngle))
  {
    var r := DrawNode(a, L, E, i, roundAngle);
    var last := LastRow(E, L.rows, i);
    var ind := L.indents[i];
    forall j | 0 <= j < |a| && !(i < j <= last)
      ensures r[j] == a[j]
    {
      DrawNodeRow(a, L, E, i, roundAngle, j);
    }
    forall j | i < j < last && (L.rows[i], L.rows[j]) !in E
      ensures r[j] == a[j][2 * ind := Bar]
    {
      DrawNodeRow(a, L, E, i, roundAngle, j);
    }
    forall j | i < j < last && (L.rows[i], L.rows[j]) in E
      ensures r[j] == Connected(a[j], ind, BranchGlyph(ind, a[j]))
    {
      DrawNodeRow(a, L, E, i, roundAngle, j);
    }
    if i < last {
      DrawNodeRow(a, L, E, i, roundAngle, last);
    }
  }

  /** Row `j` of the canvas once the node on row `i` is drawn. */
  function RowAfter(a: Grid, L: Layout, E: set<(Node, Node)>, i: nat, roundAngle: bool, j: nat): seq<char>
    requires Drawable(E, L) && Shaped(a, L) && i < |a| && j < |a|
  {
    var last := LastRow(E, L.rows, i);
    var ind := L.indents[i];
    if !(i < j <= last) then a[j]
    else
      assert (L.rows[i], L.rows[last]) in E;
      assert L.indents[j] > ind;
      if j == last then Connected(a[j], ind, TerminalGlyph(ind, a[j], roundAngle))
      else if (L.rows[i], L.rows[j]) in E then Connected(a[j], ind, BranchGlyph(ind, a[j]))
      else a[j][2 * ind := Bar]
  }

  /** `DrawNodeEffect` one row at a time. */
  lemma DrawNodeRow(a: Grid, L: Layout, E: set<(Node, Node)>, i: nat, roundAngle: bool, j: nat)
    requires Drawable(E, L) && Shaped(a, L) && i < |a| && j < |a|
    ensures DrawNode(a, L, E, i, roundAngle)[j] == RowAfter(a, L, E, i, roundAngle, j)
  {
    var succ := SuccRows(E, L.rows, i);
    var last := LastRow(E, L.rows, i);
    if |succ| == 0 {
      assert last == i;
    } else {
      SuccessorsFan(E, L, i);
      FanRow(a, L, i, succ, roundAngle, j);
      SuccRowsExact(E, L.rows, i, j);
    }
  }

  /** Row `j` is among the successor rows of row `i` exactly when its node is
      a successor. */
  lemma SuccRowsExact(E: set<(Node, Node)>, rows: seq<Node>, i: nat, j: nat)
    requires Distinct(rows) && i < |rows| && j < |rows|
    ensures j in SuccRows(E, rows, i) <==> (rows[i], rows[j]) in E
  {
    assert rows[j] in rows;
    assert RowIndex(rows)[rows[j]] == j;
  }

  /** A branch drawn over the trunk's `│` looks as if the trunk were not there:
      the glyph reads the cell left of the trunk column, and the connection
      overwrites the trunk column itself. */
  lemma BranchOverTrunk(row: seq<char>, indent: nat)
    requires 2 * indent < |row|
    ensures var barred := row[2 * indent := Bar];
      Connected(barred, indent, BranchGlyph(indent, barred)) ==
      Connected(row, indent, BranchGlyph(indent, row))
  {
    var barred := row[2 * indent := Bar];
    assert BranchGlyph(indent, barred) == BranchGlyph(indent, row);
    assert barred[..2 * indent] == row[..2 * indent];
    ConnectedPrefix(barred, row, indent, BranchGlyph(indent, row));
  }

  /** dagviz.py:40: the nodes on rows `0 .. k-1`, drawn in row order. */
  function DrawRows(a: Grid, L: Layout, E: set<(Node, Node)>, roundAngle: bool, k: nat): (r: Grid)
    requires Drawable(E, L) && Shaped(a, L) && k <= |L.rows|
    ensures Shaped(r, L)
    decreases k
  {
    if k == 0 then a else DrawNode(DrawRows(a, L, E, roundAngle, k - 1), L, E, k - 1, roundAngle)
  }

  /** The finished canvas: every node drawn onto blank buffers. */
  function Picture(L: Layout, E: set<(Node, Node)>, roundAngle: bool): (a: Grid)
    requires Drawable(E, L)
    ensures Shaped(a, L)
  {
    DrawRows(Blank(L), L, E, roundAngle, |L.rows|)
  }
}
