# dagviz in Dafny

A model of `visualize_dag` from py-dagviz. The function renders a directed
acyclic graph as text, one line per node. Each line holds the node's
connector glyphs, a bullet `• ` and the node's label.

The model follows the function's two phases.

- **Layering** (`Layering`, built on `Graphs`). The graph is split into
  weakly-connected components. In each component, the nodes of in-degree 0
  take the next rows at consecutive indents from the component's baseline.
  The rest of the component is then laid out the same way, from the
  baseline plus the number of sources. Every component starts again at the
  same baseline.
- **Drawing and text** (`Canvas`, `Render`, `RenderFacts`, `Text`, `Dagviz`).
  - Every row gets a buffer of `2 * indent` spaces.
  - Then, node by node in row order, the renderer draws:
    - a `│` trunk down to the node's farthest successor;
    - a `├`/`┼` junction and a `─` run on every other successor's row;
    - a `└`/`╰`/`┴` junction and a `─` run on the farthest successor's row.
  - Finally each buffer is joined with the bullet and the label. Newlines in
    the label become spaces, and the lines are joined with `'\n'`.

Every operation is a pure function. Cell writes and runs are functions on
`seq<seq<char>>`. Each write requires its cell to lie inside the row's
buffer, so the verified model shows that no write of `visualize_dag` can go out
of range. The code allocates each buffer once, at exactly `2 * indent` cells,
and never grows it. The model does the same. No buffer growth is modelled,
because the proofs show that none is ever needed: every row spanned by an
edge is indented deeper than the edge's tail (`Layering.Layer`,
`Render.SuccessorsFan`).

`Examples` works through the graph `a → b` end to end. The output is
`"• a\n└─• b"`.

## Model

| member | source | states |
|---|---|---|
| Graphs.SourceExists | dagviz.py:25-33 | every non-empty node set of an acyclic graph has a node with no edge into it from the set, so each peeling step emits at least one node and the recursion ends |
| Graphs.Component | dagviz.py:21 | the component of `x` contains `x`, lies in the current node set, has no edge leaving or entering it within that set, and is contained in every such closed set holding `x` (it is the least one) |
| Graphs.Grow | dagviz.py:21 | closing a node set under adjacency gives the least closed superset within the current node set |
| Graphs.FirstIn | dagviz.py:21 | the component search starts from the first node of the enumeration that is still unplaced; every earlier node is already placed |
| Layering.Sources | dagviz.py:25 | the listed nodes are exactly the in-degree-0 nodes of the induced subgraph, each drawn from the enumeration and listed once |
| Layering.LayerDag | dagviz.py:20-22 | laying out the components of a node set from baseline `indent` lists every node exactly once, in topological order, with no indent below the baseline and every row under an edge deeper than its tail; a non-empty set's first row is at the baseline |
| Layering.LayerDagRestarts | dagviz.py:20-22 | the layout of the components of a node set from baseline `indent` satisfies `Restarts`: row `k` is at the baseline exactly when the rows above it make up whole components, and exactly when none of the rows above it lies in its own component, so each component's first row and no other row sits at the baseline |
| Layering.AppendRestarts | dagviz.py:20-22 | a component whose first row is at the baseline and whose other rows are deeper, followed by a layout of the remaining nodes satisfying `Restarts` over those nodes, satisfies `Restarts` over the whole set: a row is at the baseline exactly when the rows above it form whole components, and exactly when none of them is in its component |
| Layering.LeadsHead | dagviz.py:20-22 | inside the first component, a row is at the baseline exactly when no row above it belongs to its component, which holds only for the component's first row |
| Layering.LeadsTail | dagviz.py:20-22 | past the first component, a row is at the baseline of the whole exactly when no row above it shares its component, given the same among the remaining nodes |
| Graphs.ComponentOfMember | dagviz.py:21 | every member of a weakly-connected component has that same component |
| Graphs.ComponentBeside | dagviz.py:21-22 | removing a closed set (a finished component) leaves the component of every remaining node unchanged, so the recursion on the rest finds the graph's own components |
| Graphs.ComponentIndivisible | dagviz.py:21 | no non-empty proper part of a weakly-connected component is closed, so a component cannot be split across two runs of `_process_dag` |
| Layering.Ladder | dagviz.py:26-29 | the indents given to a layer of `n` sources are `from, from + 1, ..., from + n - 1` |
| Layering.LayerComp | dagviz.py:24-33 | a component's sources come first, at indents `indent, indent+1, ...`; every later row has indent at least `indent + len(sources)`; a non-empty component has a source; the whole is a valid layering of the component |
| Layering.LayerCompRestarts | dagviz.py:24-33 | inside a component, the rows after the sources satisfy `Restarts` over the rest of the component from `indent + len(sources)`: each component of the rest starts at that indent, and no other row of the rest does |
| Layering.AppendComponent | dagviz.py:20-22 | a closed component and the rest, each laid out from the same baseline, laid out one after the other, form a valid layering of the union |
| Layering.SourcesThenRest | dagviz.py:26-33 | the sources at consecutive indents followed by a layering of the rest from `indent + len(sources)` is a valid layering of the component |
| Layering.Layer | dagviz.py:16-35 | rows are a permutation of the graph's nodes, one indent per row, all indents non-negative, every edge points to a later row, every row from just below an edge's tail down to its head is indented deeper than the tail; and (`Restarts` from 0) a row is at indent 0 exactly when the rows above it form whole weakly-connected components, and exactly when none of them lies in its component, so each component's first row and no other is at indent 0 |
| Layering.RowIndex | dagviz.py:17 | `node_to_row` is defined exactly on the listed nodes and is the inverse of `rows` in both directions |
| Canvas.Write | dagviz.py:46 | a single cell write changes that cell and nothing else, and may only touch a cell inside its row |
| Canvas.FillRow | dagviz.py:52-53 | a row run writes exactly columns `lo .. hi-1` of one row; an empty range writes nothing |
| Canvas.FillColumn | dagviz.py:45-46 | a column run writes exactly column `k` of rows `lo .. hi-1` |
| Render.Blank | dagviz.py:36-39 | row `j` starts as `2 * indents[j]` spaces |
| Render.SuccRows | dagviz.py:41 | the successor rows of a node, strictly ascending by row, each holding a successor, with every successor's row among them |
| Render.LastRow | dagviz.py:44 | the farthest successor's row is a successor's row at or below every other successor's row (the node's own row when it has none) |
| Render.LeftCellIndex | dagviz.py:55 | the left-neighbour read is Python's index `c - 1` taken modulo the row length: the previous cell, or the last cell when `c` is 0 |
| Render.BranchGlyphRule | dagviz.py:49-51 | the junction glyph is `┼` exactly when the indent is positive and the cell left of the trunk column is `─`; otherwise `├` |
| Render.TerminalGlyphRule | dagviz.py:54-56 | the terminal glyph is `┴` exactly when the cell at Python index `2 * indent - 1` is `─`; otherwise `╰` with `round_angle` and `└` without |
| Render.LeftCell | dagviz.py:55 | Python's `a[j][c - 1]` with negative indices; its meaning is stated by `LeftCellIndex` |
| Render.BranchGlyph | dagviz.py:49-51 | the glyph choice for a non-last successor; stated by `BranchGlyphRule` |
| Render.TerminalGlyph | dagviz.py:54-56 | the glyph choice for the farthest successor; stated by `TerminalGlyphRule` and, at indent 0, `IndentZeroTerminal` |
| Render.Connect | dagviz.py:47-58 | connecting row `j` puts the glyph on the trunk column and dashes up to the end of row `j`'s buffer, keeps the cells left of the trunk, and leaves every other row alone |
| Render.DrawBranches | dagviz.py:47-53 | every listed successor row gets its junction glyph, read from the canvas it is given (inside `DrawFan`, the canvas after the trunk is drawn), followed by dashes; no other row changes; `FanBranches` with `BranchOverTrunk` shows the trunk does not change the glyph |
| Render.SuccRowsExact | dagviz.py:41 | a row is among the successor rows of row `i` exactly when its node is a successor of row `i`'s node |
| Render.FanBranches | dagviz.py:45-53 | after the trunk and the branches, every non-last successor row holds its junction glyph chosen from the canvas before the node is drawn, the other spanned rows hold `│` in the trunk column, and all other rows are unchanged |
| Render.DrawFan | dagviz.py:44-58 | the drawing of one node with successors keeps every buffer's width; its row-by-row effect is stated by `FanRow` |
| Render.DrawNode | dagviz.py:41-58 | the drawing of one node keeps every buffer's width; its effect, including that a leaf draws nothing, is stated by `DrawNodeEffect` |
| Render.SuccessorsFan | dagviz.py:41-46 | in a valid layering, every successor row lies below the node, and every row down to the farthest successor is deeper than the node, so all of the node's writes land in their buffers |
| Render.FanRow | dagviz.py:44-58 | the row-by-row result of drawing one node: untouched outside its span, `│` on spanned rows without a successor, a branch connection on other successor rows, the terminal connection on the farthest one |
| Render.DrawNodeEffect | dagviz.py:40-58 | a leaf changes nothing; otherwise no row outside `i+1 .. last` changes, non-successor rows in the span get exactly `│` in the trunk column, branch rows get `┼` when the indent is positive and the left cell holds `─` and `├` otherwise, and the last row gets `┴` when its left cell holds `─` and `╰`/`└` otherwise, each followed by dashes |
| Render.DrawNodeRow | dagviz.py:40-58 | the same effect for one row `j` at a time |
| Render.BranchOverTrunk | dagviz.py:45-51 | a branch drawn over the node's own trunk `│` gives the same row as if the trunk were not there |
| Render.DrawRows | dagviz.py:40 | drawing the nodes of rows `0 .. k-1` in row order keeps every buffer's width; what it leaves is stated by `DrawRowsPainted`, `DrawRowsRounded` and `UntouchedBelowIndentZero` |
| Render.Picture | dagviz.py:36-58 | the finished canvas keeps every buffer's width; its content is stated by `PicturePainted`, `PictureRounded` and `IndentZeroTerminal` |
| RenderFacts.UntouchedBelowIndentZero | dagviz.py:40-58 | drawing the nodes above an indent-0 row never touches that row or any row below it |
| RenderFacts.IndentZeroTerminal | dagviz.py:54-56 | at indent 0 the unguarded left-cell read (Python index -1) always sees a space, so the terminal glyph is `└` (or `╰`), as if the guard of line 50 were there |
| RenderFacts.PicturePainted | dagviz.py:36-58 | the finished canvas holds only spaces and glyphs of the chosen style, and never a line break |
| RenderFacts.DrawNodeRounded | dagviz.py:54-56 | drawing one node in the rounded style is drawing it in the square style and then turning `└` into `╰` |
| RenderFacts.PictureRounded | dagviz.py:36-58 | the rounded canvas is the square canvas with every `└` turned into `╰`; the square canvas holds no `╰` and the rounded one no `└` |
| Text.Flatten | dagviz.py:60 | `replace('\n', ' ')` keeps the length, turns every line break into a space, keeps every other character, and leaves no line break |
| Text.Split | dagviz.py:61 | splitting at a separator gives at least one piece, and no piece holds the separator |
| Text.Join | dagviz.py:61 | `'\n'.join(lines)`; its meaning is stated by the two round trips `SplitJoin` and `JoinSplit` |
| Text.JoinSplit | dagviz.py:61 | joining the pieces of a split with the separator gives the text back |
| Text.SplitInjective | dagviz.py:61 | two texts that split into the same pieces are equal |
| Text.SplitJoin | dagviz.py:61 | splitting at `'\n'` undoes joining with `'\n'` when no line holds a line break |
| Dagviz.Lines | dagviz.py:60 | one line per row, each being the row's buffer, the bullet and the flattened label of the row's node |
| Dagviz.Line | dagviz.py:60 | one row's text: buffer, `• `, flattened label; stated by `Lines` and `OutputLines` |
| Dagviz.Output | dagviz.py:60-61 | the drawn lines joined with `'\n'`; stated by `OutputLines` |
| Dagviz.OutputLines | dagviz.py:60-61 | the output splits back into exactly one line per row, in row order; line `i` is buffer `i`, `• `, and the flattened label, of length `2 * indent + 2 + len(label)` |
| Dagviz.VisualizeDag | dagviz.py:6-61 | the empty graph gives the empty string; otherwise there is exactly one line per node, in the layering's row order, made of the row's drawn buffer, the bullet and the node's label with line breaks flattened |
| Dagviz.OutputDetermined | dagviz.py:60-61 | the output is the only text that splits at `'\n'` into the drawn lines, so the line-by-line description of `VisualizeDag` fixes it completely |
| Dagviz.OutputRounded | dagviz.py:54-61 | the outputs with and without `round_angle` have the same lines and line lengths, and differ only where the square output has `└` left of the bullet |
| Dagviz.RoundAngleOnlyCorners | dagviz.py:6-61 | the same for `visualize_dag` itself on any acyclic graph |
| Examples.ArrowLayer | dagviz.py:16-35 | the graph `a → b` lays out as `a` on row 0 at indent 0 and `b` on row 1 at indent 1 |
| Examples.SingleEdge | dagviz.py:36-58 | that layout draws as an empty buffer over `└─` |
| Examples.ArrowOutput | dagviz.py:6-61 | `visualize_dag` of `a → b` is `"• a\n└─• b"` |
| Examples.EdgelessFlat | dagviz.py:20-22 | without edges every node is its own component, so every row is at the baseline |
| Examples.TwoIsolated | dagviz.py:16-35 | two nodes without an edge both get indent 0, in either enumeration order |
| Examples.InterleavedRejected | dagviz.py:20-22 | a layout that lists an isolated node between the rows of a fork, indented like them, violates `Restarts`: the isolated node starts its own component and would have to be at the baseline |

## Left out

- The graph library calls are replaced by definitions in the model, because they are foreign code:
  - `is_directed_acyclic_graph` becomes the `Acyclic` precondition;
  - `weakly_connected_components` becomes `Component`, a least closed set computed by `Grow`;
  - `subgraph` becomes reading the original edge set through the current node set;
  - `successors` and `in_degree` become edge-set membership.
- The graph library's iteration order over node sets is not specified by the algorithm. It is the parameter `order`, any enumeration of the nodes. The order of sources and the order in which components are met both follow it, and every property holds for every enumeration.
- The `AssertionError` raised at dagviz.py:14 for a cyclic graph is not modelled; only its meaning, acyclicity, is kept, as a precondition.
- `str(node)` is the parameter `show: Node -> string`, because Python's string conversion is foreign code. Nodes are integers: the algorithm only compares them for equality and passes them to `show`.
- `array.array('u', ...)` and `tounicode()` are plain `seq<char>`; there are no Unicode encoding questions in the model.
- The `round_angle` default value is not modelled; callers pass the flag explicitly.
- The index -1 read at dagviz.py:55 is modelled as written, reading the last cell of the row. `RenderFacts.IndentZeroTerminal` shows it never changes the outcome.
- Recursion depth is unbounded in the model. `_process_dag` and `_process_component` call each other once per peeled layer (dagviz.py:22, 30). Under CPython's default recursion limit, a graph with a long enough path raises `RecursionError` instead of returning. The model leaves this interpreter limit out, as it does the `AssertionError`, and returns a text for every acyclic graph.
