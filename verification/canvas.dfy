/**
 The character canvas of the renderer: one buffer of characters per output
 row, changed only through single-cell writes and the row and column runs
 built from them. Every write states, as its precondition, that the cell it
 touches lies inside its buffer, so a model that verifies never indexes out
 of range.
 */
module Canvas {

  /** One character buffer per output row. */
  type Grid = seq<seq<char>>

  /** The box-drawing characters of the renderer. */
  const Bar: char := '│'
  const Tee: char := '├'
  const Cross: char := '┼'
  const Corner: char := '└'
  const RoundCorner: char := '╰'
  const Up: char := '┴'
  const Dash: char := '─'

  /** The characters a canvas drawn in one style can come to hold: the blank,
      the box-drawing glyphs, and only the corner of that style. */
  function Glyphs(roundAngle: bool): set<char> {
    {' ', Bar, Tee, Cross, Up, Dash} + (if roundAngle then {RoundCorner} else {Corner})
  }

  /** Every cell of the canvas holds a glyph of the style. */
  ghost predicate Painted(a: Grid, roundAngle: bool) {
    forall j, k :: 0 <= j < |a| && 0 <= k < |a[j]| ==> a[j][k] in Glyphs(roundAngle)
  }

  /** `n` copies of `ch`. */
  function Run(n: nat, ch: char): (r: seq<char>)
    ensures |r| == n
    ensures forall k :: 0 <= k < n ==> r[k] == ch
  {
    seq(n, _ => ch)
  }

  /** `a[j][k] = ch`: a single cell write, which must land inside row `j`. */
  function Write(a: Grid, j: int, k: int, ch: char): (r: Grid)
    requires 0 <= j < |a| && 0 <= k < |a[j]|
    ensures |r| == |a|
    ensures forall j' :: 0 <= j' < |a| && j' != j ==> r[j'] == a[j']
    ensures r[j] == a[j][k := ch]
  {
    a[j := a[j][k := ch]]
  }

  /** `for k in range(lo, hi): a[j][k] = ch`. Columns `lo .. hi-1` of row `j`
      end up holding `ch`; every other cell keeps its character. An empty
      range writes nothing. */
  function FillRow(a: Grid, j: int, lo: int, hi: int, ch: char): (r: Grid)
    requires 0 <= j < |a| && 0 <= lo && hi <= |a[j]|
    ensures |r| == |a|
    ensures forall j' :: 0 <= j' < |a| && j' != j ==> r[j'] == a[j']
    ensures |r[j]| == |a[j]|
    ensures forall k :: 0 <= k < |a[j]| ==> r[j][k] == (if lo <= k < hi then ch else a[j][k])
    decreases hi - lo
  {
    if lo >= hi then a else FillRow(Write(a, j, lo, ch), j, lo + 1, hi, ch)
  }

  /** `for j in range(lo, hi): a[j][k] = ch`. Column `k` of rows `lo .. hi-1`
      ends up holding `ch`; every other cell keeps its character. */
  function FillColumn(a: Grid, lo: int, hi: int, k: int, ch: char): (r: Grid)
    requires 0 <= lo && hi <= |a| && 0 <= k
    requires forall j :: lo <= j < hi ==> k < |a[j]|
    ensures |r| == |a|
    ensures forall j :: 0 <= j < |a| ==> r[j] == (if lo <= j < hi then a[j][k := ch] else a[j])
    decreases hi - lo
  {
    if lo >= hi then a else FillColumn(Write(a, lo, k, ch), lo + 1, hi, k, ch)
  }
}
