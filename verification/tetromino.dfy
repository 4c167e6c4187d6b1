/**
 * The falling piece: spawning from the template table, the three unit moves
 * and the rotation, which transposes the shape and then reverses its rows
 * once per row, so that the reversal only takes effect for an odd side.
 */
module Tetrominoes {
  import opened Matrix
  import opened Constants

  /** A piece: its shape (a copy of a template, possibly rotated), the board position of its top-left corner, and its colour. */
  datatype Tetromino = Tetromino(shape: Matrix, x: int, y: int, color: string)

  /** The spawned piece for the template drawn at random; the draw is the parameter `index`. */
  function CreateTetromino(index: int): (t: Tetromino)
    requires 0 <= index < |TETROMINOES|
    ensures t.y == 0
    ensures t.shape == TETROMINOES[index].shape && t.color == TETROMINOES[index].color
    ensures IsSquare(t.shape) && 2 <= |t.shape| <= 4
    // centred on the outer side: the right margin equals the left one or exceeds it by one
    ensures 0 <= (BOARD_COLS - t.x - |t.shape|) - t.x <= 1
    ensures |t.shape| == 4 ==> t.x == 5
    ensures |t.shape| < 4 ==> t.x == 6
  {
    TemplatesAreSquare();
    var info := TETROMINOES[index];
    Tetromino(info.shape, (BOARD_COLS - |info.shape|) / 2, 0, info.color)
  }

  function MoveDown(t: Tetromino): (r: Tetromino)
    ensures r.y == t.y + 1 && r.x == t.x && r.shape == t.shape && r.color == t.color
  {
    t.(y := t.y + 1)
  }

  function MoveLeft(t: Tetromino): (r: Tetromino)
    ensures r.x == t.x - 1 && r.y == t.y && r.shape == t.shape && r.color == t.color
  {
    t.(x := t.x - 1)
  }

  function MoveRight(t: Tetromino): (r: Tetromino)
    ensures r.x == t.x + 1 && r.y == t.y && r.shape == t.shape && r.color == t.color
  {
    t.(x := t.x + 1)
  }

  /** A left move undoes a right move and the other way round. */
  lemma MoveLeftRightInverse(t: Tetromino)
    ensures MoveLeft(MoveRight(t)) == t && MoveRight(MoveLeft(t)) == t
  {
  }

  /**
   * The shape after one rotation: the transpose, with its rows reversed only
   * when the side is odd (an even number of reversals cancels out).
   */
  function RotateShape(m: Matrix): (r: Matrix)
    requires IsSquare(m)
    ensures IsSquare(r) && |r| == |m|
    ensures |m| % 2 == 1 ==> forall i, j :: 0 <= i < |m| && 0 <= j < |m| ==> r[i][j] == m[j][|m| - 1 - i]
    ensures |m| % 2 == 0 ==> forall i, j :: 0 <= i < |m| && 0 <= j < |m| ==> r[i][j] == m[j][i]
    ensures Count(r) == Count(m)
  {
    TransposeCount(m);
    var t := Transpose(m);
    if |m| % 2 == 1 then
      ReverseSquare(t);
      ReverseCount(t);
      Reverse(t)
    else
      t
  }

  function Rotate(t: Tetromino): (r: Tetromino)
    requires IsSquare(t.shape)
    ensures r.x == t.x && r.y == t.y && r.color == t.color
    ensures IsSquare(r.shape) && |r.shape| == |t.shape|
    ensures Count(r.shape) == Count(t.shape)
  {
    t.(shape := RotateShape(t.shape))
  }

  /** The swap loop of the rotation: exchanges every cell below the diagonal with its mirror. */
  method TransposeSwap(m: Matrix) returns (r: Matrix)
    requires IsSquare(m)
    ensures r == Transpose(m)
  {
    var len := |m|;
    r := m;
    var y := 0;
    while y < len
      invariant 0 <= y <= len
      invariant |r| == len && IsSquare(r)
      invariant forall i, j :: 0 <= i < len && 0 <= j < len ==> r[i][j] == Swapped(m, y, 0, i, j)
    {
      var x := 0;
      while x < y
        invariant 0 <= x <= y
        invariant |r| == len && IsSquare(r)
        invariant forall i, j :: 0 <= i < len && 0 <= j < len ==> r[i][j] == Swapped(m, y, x, i, j)
      {
        var below := r[y][x];
        var above := r[x][y];
        r := r[y := r[y][x := above]];
        r := r[x := r[x][y := below]];
        x := x + 1;
      }
      assert forall i, j :: 0 <= i < len && 0 <= j < len ==> Swapped(m, y, y, i, j) == Swapped(m, y + 1, 0, i, j);
      y := y + 1;
    }
    assert forall i :: 0 <= i < len ==> r[i] == Transpose(m)[i];
  }

  /**
   * Cell `(i, j)` of the shape once the swap loop has finished every row above
   * `y` and the first `x` cells of row `y`.
   */
  function Swapped(m: Matrix, y: int, x: int, i: int, j: int): int
    requires IsSquare(m) && 0 <= i < |m| && 0 <= j < |m|
  {
    if (i < y && j < y) || (i == y && j < x) || (j == y && i < x) then m[j][i] else m[i][j]
  }

  /** The reversal loop of the rotation: reverses the rows once per row. */
  method ReverseRepeatedly(m: Matrix) returns (r: Matrix)
    ensures |m| % 2 == 1 ==> r == Reverse(m)
    ensures |m| % 2 == 0 ==> r == m
  {
    var len := |m|;
    r := m;
    var odd := false;
    var i := 0;
    ReverseInvolution(m);
    while i < len
      invariant 0 <= i <= len
      invariant odd == (i % 2 == 1)
      invariant odd ==> r == Reverse(m)
      invariant !odd ==> r == m
    {
      r := Reverse(r);
      odd := !odd;
      i := i + 1;
    }
  }

  /** The rotation as the game's code does it: the swap loop, then the repeated reversal. */
  method RotateInPlace(t: Tetromino) returns (r: Tetromino)
    requires IsSquare(t.shape)
    ensures r == Rotate(t)
  {
    var transposed := TransposeSwap(t.shape);
    var reversed := ReverseRepeatedly(transposed);
    r := t.(shape := reversed);
  }

  /** The worked example in the comment above the rotation. */
  lemma RotateExample()
    ensures RotateShape([[1, 0, 0], [1, 1, 1], [0, 0, 0]]) == [[0, 1, 0], [0, 1, 0], [1, 1, 0]]
  {
    var m: Matrix := [[1, 0, 0], [1, 1, 1], [0, 0, 0]];
    var r := RotateShape(m);
    assert r[0] == [m[0][2], m[1][2], m[2][2]];
    assert r[1] == [m[0][1], m[1][1], m[2][1]];
    assert r[2] == [m[0][0], m[1][0], m[2][0]];
  }

  /** The turn is anticlockwise: the clockwise image of the worked example is not what the rotation gives. */
  lemma RotateNotClockwise()
    ensures RotateShape([[1, 0, 0], [1, 1, 1], [0, 0, 0]]) != [[0, 1, 1], [0, 1, 0], [0, 1, 0]]
  {
    RotateExample();
    assert [[0, 1, 0], [0, 1, 0], [1, 1, 0]][0][2] != [[0, 1, 1], [0, 1, 0], [0, 1, 0]][0][2];
  }

  /** Even sides: two rotations restore the shape. */
  lemma RotateTwiceEven(m: Matrix)
    requires IsSquare(m) && |m| % 2 == 0
    ensures RotateShape(RotateShape(m)) == m
  {
    TransposeInvolution(m);
  }

  /** Two quarter turns anticlockwise make a half turn. */
  lemma QuarterTurnsCompose(m: Matrix, r1: Matrix, r2: Matrix)
    requires IsSquare(m) && IsSquare(r1) && IsSquare(r2) && |r1| == |m| && |r2| == |m|
    requires forall i, j :: 0 <= i < |m| && 0 <= j < |m| ==> r1[i][j] == m[j][|m| - 1 - i]
    requires forall i, j :: 0 <= i < |m| && 0 <= j < |m| ==> r2[i][j] == r1[j][|m| - 1 - i]
    ensures forall i, j :: 0 <= i < |m| && 0 <= j < |m| ==> r2[i][j] == m[|m| - 1 - i][|m| - 1 - j]
  {
    var n := |m|;
    forall i, j | 0 <= i < n && 0 <= j < n
      ensures r2[i][j] == m[n - 1 - i][n - 1 - j]
    {
      assert r2[i][j] == r1[j][n - 1 - i];
    }
  }

  /** Two half turns give back the matrix. */
  lemma HalfTurnsCancel(m: Matrix, h: Matrix, f: Matrix)
    requires IsSquare(m) && IsSquare(h) && IsSquare(f) && |h| == |m| && |f| == |m|
    requires forall i, j :: 0 <= i < |m| && 0 <= j < |m| ==> h[i][j] == m[|m| - 1 - i][|m| - 1 - j]
    requires forall i, j :: 0 <= i < |m| && 0 <= j < |m| ==> f[i][j] == h[|m| - 1 - i][|m| - 1 - j]
    ensures f == m
  {
    var n := |m|;
    forall i | 0 <= i < n
      ensures f[i] == m[i]
    {
      forall j | 0 <= j < n
        ensures f[i][j] == m[i][j]
      {
        assert f[i][j] == h[n - 1 - i][n - 1 - j];
      }
    }
  }

  /** Odd sides: a rotation is a quarter turn anticlockwise, moving cell (r, c) to (n-1-c, r). */
  lemma RotateOddMovesCell(m: Matrix, r: int, c: int)
    requires IsSquare(m) && |m| % 2 == 1 && 0 <= r < |m| && 0 <= c < |m|
    ensures RotateShape(m)[|m| - 1 - c][r] == m[r][c]
  {
  }

  /** Odd sides: two rotations turn the shape half way round. */
  lemma RotateTwiceOdd(m: Matrix)
    requires IsSquare(m) && |m| % 2 == 1
    ensures forall i, j :: 0 <= i < |m| && 0 <= j < |m| ==>
      RotateShape(RotateShape(m))[i][j] == m[|m| - 1 - i][|m| - 1 - j]
  {
    QuarterTurnsCompose(m, RotateShape(m), RotateShape(RotateShape(m)));
  }

  /** Odd sides: two half turns restore the shape. */
  lemma RotateFourTimesOdd(m: Matrix)
    requires IsSquare(m) && |m| % 2 == 1
    ensures RotateShape(RotateShape(RotateShape(RotateShape(m)))) == m
  {
    var r2 := RotateShape(RotateShape(m));
    RotateTwiceOdd(m);
    RotateTwiceOdd(r2);
    HalfTurnsCancel(m, r2, RotateShape(RotateShape(r2)));
  }

  /** Four rotations restore every square shape. */
  lemma RotateFourTimes(m: Matrix)
    requires IsSquare(m)
    ensures RotateShape(RotateShape(RotateShape(RotateShape(m)))) == m
  {
    if |m| % 2 == 0 {
      RotateTwiceEven(m);
      RotateTwiceEven(RotateShape(RotateShape(m)));
    } else {
      RotateFourTimesOdd(m);
    }
  }

  /** Rotating a piece four times gives back the same piece. */
  lemma RotatePieceFourTimes(t: Tetromino)
    requires IsSquare(t.shape)
    ensures Rotate(Rotate(Rotate(Rotate(t)))) == t
  {
    RotateFourTimes(t.shape);
  }
}
