/** The falling piece: a shape, a colour and the board offset of the shape's top-left cell. */
module Pieces {
  import opened Catalog

  datatype Piece = Piece(shape: Shape, color: int, x: int, y: int)

  /** Column i of a matrix, read top to bottom. */
  function Column(s: Shape, i: nat): seq<int>
    requires forall r :: 0 <= r < |s| ==> i < |s[r]|
  {
    seq(|s|, r requires 0 <= r < |s| => s[r][i])
  }

  function Reverse(t: seq<int>): seq<int> {
    seq(|t|, k requires 0 <= k < |t| => t[|t| - 1 - k])
  }

  /** Clockwise quarter turn: row i of the result is column i of s read bottom to top. */
  function Rotate(s: Shape): (r: Shape)
    requires IsShape(s)
    ensures IsShape(r)
    ensures |r| == Width(s) && Width(r) == |s|
    ensures forall i, j :: 0 <= i < |r| && 0 <= j < |r[i]| ==> r[i][j] == s[|s| - 1 - j][i]
  {
    seq(|s[0]|, i requires 0 <= i < |s[0]| => Reverse(Column(s, i)))
  }

  /** A quarter turn keeps an occupied cell. */
  lemma RotateHasCell(s: Shape)
    requires IsShape(s) && HasCell(s)
    ensures HasCell(Rotate(s))
  {
    var r, c :| 0 <= r < |s| && 0 <= c < |s[r]| && s[r][c] != 0;
    var t := Rotate(s);
    assert t[c][|s| - 1 - r] == s[r][c];
  }

  /** Two quarter turns rotate by half: entry (i, j) comes from the opposite corner. */
  lemma RotateTwice(s: Shape)
    requires IsShape(s)
    ensures |Rotate(Rotate(s))| == |s| && Width(Rotate(Rotate(s))) == Width(s)
    ensures forall i, j :: 0 <= i < |s| && 0 <= j < |s[i]| ==>
      Rotate(Rotate(s))[i][j] == s[|s| - 1 - i][Width(s) - 1 - j]
  {
    var t := Rotate(s);
    var u := Rotate(t);
    forall i, j | 0 <= i < |s| && 0 <= j < |s[i]|
      ensures u[i][j] == s[|s| - 1 - i][Width(s) - 1 - j]
    {
      assert u[i][j] == t[|t| - 1 - j][i];
    }
  }

  /** Four quarter turns give back the original matrix. */
  lemma RotateFour(s: Shape)
    requires IsShape(s)
    ensures Rotate(Rotate(Rotate(Rotate(s)))) == s
  {
    var h := Rotate(Rotate(s));
    RotateTwice(s);
    RotateTwice(h);
    var f := Rotate(Rotate(h));
    forall i | 0 <= i < |s|
      ensures f[i] == s[i]
    {
      assert |f[i]| == |s[i]|;
      forall j | 0 <= j < |s[i]|
        ensures f[i][j] == s[i][j]
      {
        assert f[i][j] == h[|h| - 1 - i][Width(h) - 1 - j];
      }
    }
  }

  /**
   * A freshly drawn piece: the chosen template and colour, at the top row (y = 0),
   * centred horizontally under integer division.
   */
  function NewPiece(shapeChoice: Choice, colorChoice: Choice): (p: Piece)
    ensures p.shape == SHAPES[shapeChoice] && 1 <= p.color <= COLOR_COUNT && p.y == 0
    ensures var free := COLUMNS - Width(p.shape);
      2 * p.x == free || 2 * p.x == free + 1
  {
    var s := SHAPES[shapeChoice];
    Piece(s, colorChoice + 1, COLUMNS / 2 - |s[0]| / 2, 0)
  }

  /** The catalog's first template, the horizontal bar, spawns at x = 3. */
  lemma SpawnBar(colorChoice: Choice)
    ensures NewPiece(0, colorChoice).x == 3
  {
  }

  /** The square template is unchanged by a quarter turn. */
  lemma SquareSymmetric()
    ensures Rotate(SHAPES[1]) == SHAPES[1]
  {
    var t := Rotate(SHAPES[1]);
    assert t[0] == [1, 1] && t[1] == [1, 1];
  }
}
