/** Board geometry, the colour palette and the seven piece templates of the game. */
module Catalog {

  const WIDTH: nat := 300
  const HEIGHT: nat := 600
  const GRID_SIZE: nat := 30
  /** Board columns and rows: 300/30 x 600/30 cells (see BoardInCells). */
  const COLUMNS: nat := 10
  const ROWS: nat := 20

  /** A board cell holds EMPTY or a colour 1..COLOR_COUNT, one per palette entry. */
  const EMPTY: int := 0
  const COLOR_COUNT: nat := 7

  /** The index a uniform random draw over the seven shapes or the seven colours yields. */
  type Choice = i: int | 0 <= i < 7

  /** A piece template: rows of 0/1 flags, the top-left entry at the piece's (x, y). */
  type Shape = seq<seq<int>>

  /** The board is the window measured in grid cells. */
  lemma BoardInCells()
    ensures COLUMNS == WIDTH / GRID_SIZE && ROWS == HEIGHT / GRID_SIZE
  {
  }

  /** The I, O, T, J, L, Z and S templates, in catalog order. */
  const SHAPES: seq<Shape> := [
    [[1, 1, 1, 1]],
    [[1, 1], [1, 1]],
    [[0, 1, 0], [1, 1, 1]],
    [[1, 0, 0], [1, 1, 1]],
    [[0, 0, 1], [1, 1, 1]],
    [[1, 1, 0], [0, 1, 1]],
    [[0, 1, 1], [1, 1, 0]]
  ]

  /** A non-empty rectangular matrix of 0/1 flags. */
  predicate IsShape(s: Shape) {
    |s| > 0 && |s[0]| > 0 &&
    (forall r :: 0 <= r < |s| ==> |s[r]| == |s[0]|) &&
    (forall r, c :: 0 <= r < |s| && 0 <= c < |s[r]| ==> s[r][c] == 0 || s[r][c] == 1)
  }

  /** The shape occupies at least one cell. */
  predicate HasCell(s: Shape) {
    exists r, c :: 0 <= r < |s| && 0 <= c < |s[r]| && s[r][c] != 0
  }

  function Width(s: Shape): nat
    requires |s| > 0
  {
    |s[0]|
  }

  /** Every template is a well-formed shape with a cell and fits on the board. */
  lemma CatalogShapes(i: Choice)
    ensures IsShape(SHAPES[i]) && HasCell(SHAPES[i])
    ensures Width(SHAPES[i]) <= COLUMNS && |SHAPES[i]| <= ROWS
  {
    var s := SHAPES[i];
    if i == 0 {
      assert s[0][0] != 0;
    } else {
      assert s[1][1] != 0;
    }
  }
}
