/** The settled-cell grid: legality of a piece position, merging a piece, clearing full rows. */
module Board {
  import opened Catalog
  import opened Pieces

  type Row = seq<int>
  type Grid = seq<Row>

  /** ROWS rows of COLUMNS cells each. */
  predicate IsGrid(g: Grid) {
    |g| == ROWS && forall r :: 0 <= r < |g| ==> |g[r]| == COLUMNS
  }

  /** Every cell is empty or holds a palette colour. */
  predicate IsColoured(g: Grid) {
    forall r, c :: 0 <= r < |g| && 0 <= c < |g[r]| ==> 0 <= g[r][c] <= COLOR_COUNT
  }

  function EmptyRow(): Row {
    seq(COLUMNS, _ => EMPTY)
  }

  function EmptyRows(n: nat): Grid {
    seq(n, _ => EmptyRow())
  }

  function EmptyGrid(): (g: Grid)
    ensures IsGrid(g) && IsColoured(g)
    ensures forall r, c :: 0 <= r < ROWS && 0 <= c < COLUMNS ==> g[r][c] == EMPTY
  {
    EmptyRows(ROWS)
  }

  // ---------------------------------------------------------------------------
  // Legality

  /**
   * A shape cell landing at column nx, row ny is allowed: inside the side walls,
   * above the floor, and on an empty cell unless it is above the visible board.
   */
  predicate CellFree(g: Grid, nx: int, ny: int)
    requires IsGrid(g)
  {
    0 <= nx < COLUMNS && ny < ROWS && (ny >= 0 ==> g[ny][nx] == EMPTY)
  }

  /** Every occupied cell of p, shifted by (dx, dy), lands on an allowed cell. */
  predicate Legal(g: Grid, p: Piece, dx: int, dy: int)
    requires IsGrid(g)
  {
    forall r, c :: 0 <= r < |p.shape| && 0 <= c < |p.shape[r]| && p.shape[r][c] != 0 ==>
      CellFree(g, p.x + c + dx, p.y + r + dy)
  }

  /** Moving the piece's x by d is the same as asking about the shift (d, 0). */
  lemma LegalShift(g: Grid, p: Piece, d: int)
    requires IsGrid(g)
    ensures Legal(g, p.(x := p.x + d), 0, 0) == Legal(g, p, d, 0)
  {
  }

  /** Moving the piece's y down by one is the same as asking about the shift (0, 1). */
  lemma LegalDrop(g: Grid, p: Piece)
    requires IsGrid(g)
    ensures Legal(g, p.(y := p.y + 1), 0, 0) == Legal(g, p, 0, 1)
  {
  }

  /** Legal at (0, 0) with y >= 0: every occupied cell lies inside the board. */
  lemma LegalInside(g: Grid, p: Piece, r: int, c: int)
    requires IsGrid(g) && Legal(g, p, 0, 0) && p.y >= 0
    requires 0 <= r < |p.shape| && 0 <= c < |p.shape[r]| && p.shape[r][c] != 0
    ensures 0 <= p.y + r < ROWS && 0 <= p.x + c < COLUMNS
    ensures g[p.y + r][p.x + c] == EMPTY
  {
    assert CellFree(g, p.x + c + 0, p.y + r + 0);
  }

  /**
   * A catalog piece at its spawn position lies inside the board, so it is legal
   * on an empty board.
   */
  lemma SpawnLegal(shapeChoice: Choice, colorChoice: Choice)
    ensures var p := NewPiece(shapeChoice, colorChoice);
      (forall r, c :: 0 <= r < |p.shape| && 0 <= c < |p.shape[r]| && p.shape[r][c] != 0 ==>
        0 <= p.x + c < COLUMNS && 0 <= p.y + r < ROWS) &&
      Legal(EmptyGrid(), p, 0, 0)
  {
    CatalogShapes(shapeChoice);
  }

  // ---------------------------------------------------------------------------
  // Merge

  /** Board cell (r, c) is one of the piece's occupied cells. */
  predicate Covers(p: Piece, r: int, c: int) {
    0 <= r - p.y < |p.shape| && 0 <= c - p.x < |p.shape[r - p.y]| && p.shape[r - p.y][c - p.x] != 0
  }

  /** The board after writing the piece's colour into each cell it occupies. */
  function Merged(g: Grid, p: Piece): (m: Grid)
    requires IsGrid(g)
    ensures IsGrid(m)
  {
    seq(ROWS, r requires 0 <= r < ROWS =>
      seq(COLUMNS, c requires 0 <= c < COLUMNS => if Covers(p, r, c) then p.color else g[r][c]))
  }

  /**
   * Merging a legal piece colours each of its occupied cells, and no other cell
   * changes.
   */
  lemma MergedCells(g: Grid, p: Piece)
    requires IsGrid(g) && Legal(g, p, 0, 0) && p.y >= 0
    ensures forall r, c :: 0 <= r < |p.shape| && 0 <= c < |p.shape[r]| && p.shape[r][c] != 0 ==>
      Merged(g, p)[p.y + r][p.x + c] == p.color
    ensures forall r, c :: 0 <= r < ROWS && 0 <= c < COLUMNS && !Covers(p, r, c) ==>
      Merged(g, p)[r][c] == g[r][c]
  {
    forall r, c | 0 <= r < |p.shape| && 0 <= c < |p.shape[r]| && p.shape[r][c] != 0
      ensures Merged(g, p)[p.y + r][p.x + c] == p.color
    {
      LegalInside(g, p, r, c);
      assert Covers(p, p.y + r, p.x + c);
    }
  }

  /** A merged piece with a non-empty colour occupies its own cells: it is no longer legal there. */
  lemma MergedBlocks(g: Grid, p: Piece)
    requires IsGrid(g) && Legal(g, p, 0, 0) && p.y >= 0
    requires HasCell(p.shape) && p.color != EMPTY
    ensures !Legal(Merged(g, p), p, 0, 0)
  {
    var r, c :| 0 <= r < |p.shape| && 0 <= c < |p.shape[r]| && p.shape[r][c] != 0;
    MergedCells(g, p);
    assert !CellFree(Merged(g, p), p.x + c + 0, p.y + r + 0);
  }

  /** Merging a piece of a palette colour keeps every cell empty or a palette colour. */
  lemma MergedColoured(g: Grid, p: Piece)
    requires IsGrid(g) && IsColoured(g) && 1 <= p.color <= COLOR_COUNT
    ensures IsColoured(Merged(g, p))
  {
  }

  // ---------------------------------------------------------------------------
  // Line clearing

  /** A row with no empty cell. */
  predicate IsFull(row: Row) {
    forall c :: 0 <= c < |row| ==> row[c] != EMPTY
  }

  function CountFull(rows: Grid): nat {
    if rows == [] then 0
    else (if IsFull(rows[0]) then 1 else 0) + CountFull(rows[1..])
  }

  /** The rows that are not full, in their order. */
  function KeepNonFull(rows: Grid): (kept: Grid)
    ensures |kept| + CountFull(rows) == |rows|
    ensures forall row :: row in kept ==> row in rows && !IsFull(row)
  {
    if rows == [] then []
    else (if IsFull(rows[0]) then [] else [rows[0]]) + KeepNonFull(rows[1..])
  }

  /** Indices from..|rows|-1 of the rows that are not full, ascending. */
  function NonFullIndices(rows: Grid, from: nat): seq<int>
    requires from <= |rows|
    decreases |rows| - from
  {
    if from == |rows| then []
    else (if IsFull(rows[from]) then [] else [from]) + NonFullIndices(rows, from + 1)
  }

  /** NonFullIndices lists, strictly ascending, exactly the indices >= from of non-full rows. */
  lemma {:induction false} NonFullIndicesExact(rows: Grid, from: nat)
    requires from <= |rows|
    decreases |rows| - from
    ensures var ix := NonFullIndices(rows, from);
      (forall k :: 0 <= k < |ix| ==> from <= ix[k] < |rows|) &&
      (forall k, l :: 0 <= k < l < |ix| ==> ix[k] < ix[l]) &&
      (forall i :: from <= i < |rows| ==> (i in ix <==> !IsFull(rows[i])))
  {
    if from < |rows| {
      NonFullIndicesExact(rows, from + 1);
    }
  }

  /** Filtering rows[from..] yields, position by position, the rows NonFullIndices names. */
  lemma {:induction false} KeptAtIndices(rows: Grid, from: nat)
    requires from <= |rows|
    decreases |rows| - from
    ensures var ix := NonFullIndices(rows, from);
      var kept := KeepNonFull(rows[from..]);
      |ix| == |kept| &&
      forall k :: 0 <= k < |ix| ==> 0 <= ix[k] < |rows| && kept[k] == rows[ix[k]]
  {
    if from < |rows| {
      KeptAtIndices(rows, from + 1);
      NonFullIndicesExact(rows, from + 1);
      var ix1 := NonFullIndices(rows, from + 1);
      var kept1 := KeepNonFull(rows[from + 1..]);
      assert rows[from..][1..] == rows[from + 1..];
      if IsFull(rows[from]) {
        assert NonFullIndices(rows, from) == ix1;
        assert KeepNonFull(rows[from..]) == kept1;
      } else {
        assert NonFullIndices(rows, from) == [from] + ix1;
        assert KeepNonFull(rows[from..]) == [rows[from]] + kept1;
      }
    }
  }

  /**
   * The kept rows are exactly the non-full rows of rows[from..], unchanged and in
   * their original order: kept[k] is row ix[k] for a strictly ascending ix that
   * lists precisely the non-full indices.
   */
  lemma KeptInOrder(rows: Grid, from: nat)
    requires from <= |rows|
    ensures var ix := NonFullIndices(rows, from);
      var kept := KeepNonFull(rows[from..]);
      |ix| == |kept| &&
      (forall k :: 0 <= k < |ix| ==> from <= ix[k] < |rows| && kept[k] == rows[ix[k]]) &&
      (forall k, l :: 0 <= k < l < |ix| ==> ix[k] < ix[l]) &&
      (forall i :: from <= i < |rows| ==> (i in ix <==> !IsFull(rows[i])))
  {
    NonFullIndicesExact(rows, from);
    KeptAtIndices(rows, from);
  }

  /** With no full row, filtering keeps every row. */
  lemma {:induction false} KeepAll(rows: Grid)
    requires forall k :: 0 <= k < |rows| ==> !IsFull(rows[k])
    ensures KeepNonFull(rows) == rows && CountFull(rows) == 0
  {
    if rows != [] {
      KeepAll(rows[1..]);
    }
  }

  /** The board after removing full rows and padding empty rows at the top, and how many were removed. */
  datatype Cleared = Cleared(grid: Grid, cleared: nat)

  /** Clearing keeps the board's dimensions and removes one row per full row. */
  function ClearLines(g: Grid): (res: Cleared)
    requires IsGrid(g)
    ensures IsGrid(res.grid)
    ensures res.cleared == CountFull(g) <= ROWS
  {
    var kept := KeepNonFull(g);
    var cleared := ROWS - |kept|;
    var grid := EmptyRows(cleared) + kept;
    assert forall r :: cleared <= r < ROWS ==> grid[r] in kept;
    Cleared(grid, cleared)
  }

  /**
   * After clearing, the top rows (one per full row removed) are empty, the rest
   * are the filtered rows, and no row is full.
   */
  lemma ClearLinesShape(g: Grid)
    requires IsGrid(g)
    ensures var res := ClearLines(g);
      (forall r :: 0 <= r < res.cleared ==> res.grid[r] == EmptyRow()) &&
      res.grid[res.cleared..] == KeepNonFull(g) &&
      (forall r :: 0 <= r < ROWS ==> !IsFull(res.grid[r]))
  {
    var res := ClearLines(g);
    assert !IsFull(EmptyRow()) by { assert EmptyRow()[0] == EMPTY; }
    assert forall r :: res.cleared <= r < ROWS ==> res.grid[r] in KeepNonFull(g);
  }

  /** The rows below the padding are precisely the non-full rows of g, in order. */
  lemma ClearLinesKeepsOrder(g: Grid)
    requires IsGrid(g)
    ensures var res := ClearLines(g);
      var ix := NonFullIndices(g, 0);
      |ix| == ROWS - res.cleared &&
      (forall k :: 0 <= k < |ix| ==> 0 <= ix[k] < ROWS && res.grid[res.cleared + k] == g[ix[k]]) &&
      (forall k, l :: 0 <= k < l < |ix| ==> ix[k] < ix[l]) &&
      (forall i :: 0 <= i < ROWS ==> (i in ix <==> !IsFull(g[i])))
  {
    KeptInOrder(g, 0);
    ClearLinesShape(g);
    assert g[0..] == g;
  }

  /** Clearing a second time takes nothing away and leaves the board as it is. */
  lemma ClearLinesIdempotent(g: Grid)
    requires IsGrid(g)
    ensures var once := ClearLines(g);
      ClearLines(once.grid) == Cleared(once.grid, 0)
  {
    var once := ClearLines(g);
    ClearLinesShape(g);
    KeepAll(once.grid);
    var twice := ClearLines(once.grid);
    assert twice.cleared == 0;
    assert twice.grid == EmptyRows(0) + once.grid == once.grid;
  }

  /** Clearing keeps every cell empty or a palette colour. */
  lemma ClearLinesColoured(g: Grid)
    requires IsGrid(g) && IsColoured(g)
    ensures IsColoured(ClearLines(g).grid)
  {
    var res := ClearLines(g);
    ClearLinesShape(g);
    forall r, c | 0 <= r < ROWS && 0 <= c < COLUMNS
      ensures 0 <= res.grid[r][c] <= COLOR_COUNT
    {
      if r >= res.cleared {
        assert res.grid[r] == res.grid[res.cleared..][r - res.cleared];
        assert res.grid[r] in KeepNonFull(g);
      }
    }
  }
}
