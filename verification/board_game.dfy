/**
 * The board of settled cells: the validity check of a piece position, the
 * commit of a piece into the grid, the clearing of full rows and the reset
 * to an empty board.
 */
module GameBoard {
  import opened Matrix
  import opened Constants
  import opened Tetrominoes

  /** Rows of cells from top to bottom; 0 is empty, a positive value names the template that filled the cell. */
  type Board = seq<seq<int>>

  /** The board has BOARD_ROWS rows of BOARD_COLS cells each. */
  predicate WellFormed(b: Board) {
    |b| == BOARD_ROWS && forall r :: 0 <= r < |b| ==> |b[r]| == BOARD_COLS
  }

  function EmptyRow(): (row: seq<int>)
    ensures |row| == BOARD_COLS && forall c :: 0 <= c < |row| ==> row[c] == 0
  {
    seq(BOARD_COLS, _ => 0)
  }

  /** The board after a reset: BOARD_ROWS rows of BOARD_COLS zeros. */
  function EmptyBoard(): (b: Board)
    ensures WellFormed(b)
    ensures forall r, c :: 0 <= r < |b| && 0 <= c < |b[r]| ==> b[r][c] == 0
  {
    seq(BOARD_ROWS, _ => EmptyRow())
  }

  // ---------------------------------------------------------------- validity

  /**
   * The board cell at (Y, X) exists and is nonzero; a row or column outside
   * the board reads as empty, as an out-of-range array read does.
   */
  predicate Occupied(b: Board, Y: int, X: int) {
    0 <= Y < |b| && 0 <= X < |b[Y]| && b[Y][X] != 0
  }

  /**
   * Cell (y, x) of the shape does not prevent the position: it is empty, or it
   * lies between the side walls, above the floor, and on an unoccupied cell.
   * There is no check against the top of the board.
   */
  predicate CellFits(b: Board, t: Tetromino, y: int, x: int)
    requires 0 <= y < |t.shape| && 0 <= x < |t.shape[y]|
  {
    t.shape[y][x] != 0 ==>
      0 <= t.x + x < BOARD_COLS && t.y + y < BOARD_ROWS && !Occupied(b, t.y + y, t.x + x)
  }

  /** The piece may stand where it is: every one of its cells fits. */
  predicate IsValid(b: Board, t: Tetromino)
    ensures (forall y, x :: 0 <= y < |t.shape| && 0 <= x < |t.shape[y]| ==> t.shape[y][x] == 0) ==> IsValid(b, t)
  {
    forall y, x :: 0 <= y < |t.shape| && 0 <= x < |t.shape[y]| ==> CellFits(b, t, y, x)
  }

  /** The validity check as the game's code does it: a row-by-row scan that returns at the first offending cell. */
  method IsValidScan(b: Board, t: Tetromino) returns (ok: bool)
    requires IsRectangular(t.shape)
    ensures ok == IsValid(b, t)
  {
    var rows := |t.shape|;
    var y := 0;
    while y < rows
      invariant 0 <= y <= rows
      invariant forall yy, xx :: 0 <= yy < y && 0 <= xx < |t.shape[yy]| ==> CellFits(b, t, yy, xx)
    {
      var cols := |t.shape[0]|;
      var x := 0;
      while x < cols
        invariant 0 <= x <= cols
        invariant forall xx :: 0 <= xx < x ==> CellFits(b, t, y, xx)
      {
        var X := t.x + x;
        var Y := t.y + y;
        if t.shape[y][x] != 0 {
          if X < 0 || X >= BOARD_COLS || Y >= BOARD_ROWS {
            assert !CellFits(b, t, y, x);
            return false;
          }
          if 0 <= Y < |b| && 0 <= X < |b[Y]| && b[Y][X] != 0 {
            assert !CellFits(b, t, y, x);
            return false;
          }
        }
        x := x + 1;
      }
      y := y + 1;
    }
    return true;
  }

  /** A nonzero cell left of, right of or below the board makes the position invalid. */
  lemma OutOfBoundsIsInvalid(b: Board, t: Tetromino, y: int, x: int)
    requires 0 <= y < |t.shape| && 0 <= x < |t.shape[y]| && t.shape[y][x] != 0
    requires t.x + x < 0 || t.x + x >= BOARD_COLS || t.y + y >= BOARD_ROWS
    ensures !IsValid(b, t)
  {
    assert !CellFits(b, t, y, x);
  }

  /** Empty cells of the shape are never checked, wherever they land. */
  lemma EmptyCellsIgnored(b: Board, t: Tetromino, y: int, x: int)
    requires 0 <= y < |t.shape| && 0 <= x < |t.shape[y]| && t.shape[y][x] == 0
    ensures CellFits(b, t, y, x)
  {
  }

  /** A nonzero cell above the top of the board, between the walls, never makes the position invalid. */
  lemma AboveTopFits(b: Board, t: Tetromino, y: int, x: int)
    requires 0 <= y < |t.shape| && 0 <= x < |t.shape[y]|
    requires t.y + y < 0 && 0 <= t.x + x < BOARD_COLS
    ensures CellFits(b, t, y, x)
  {
  }

  /**
   * On a well-formed board a piece whose nonzero cells all lie on the board is
   * invalid exactly when one of them hits a nonzero board cell.
   */
  lemma InBoundsValidIffNoOverlap(b: Board, t: Tetromino)
    requires WellFormed(b)
    requires forall y, x :: 0 <= y < |t.shape| && 0 <= x < |t.shape[y]| && t.shape[y][x] != 0 ==>
      0 <= t.y + y < BOARD_ROWS && 0 <= t.x + x < BOARD_COLS
    ensures IsValid(b, t) <==>
      !exists y, x :: 0 <= y < |t.shape| && 0 <= x < |t.shape[y]| && t.shape[y][x] != 0
        && b[t.y + y][t.x + x] != 0
  {
    if !IsValid(b, t) {
      var y, x :| 0 <= y < |t.shape| && 0 <= x < |t.shape[y]| && !CellFits(b, t, y, x);
      assert b[t.y + y][t.x + x] != 0;
    } else {
      forall y, x | 0 <= y < |t.shape| && 0 <= x < |t.shape[y]| && t.shape[y][x] != 0
        ensures b[t.y + y][t.x + x] == 0
      {
        assert CellFits(b, t, y, x);
      }
    }
  }

  // ---------------------------------------------------------------- save

  /** Board cell (i, j) lies under a positive cell of the piece. */
  predicate Covers(t: Tetromino, i: int, j: int) {
    0 <= i - t.y < |t.shape| && 0 <= j - t.x < |t.shape[i - t.y]| && t.shape[i - t.y][j - t.x] > 0
  }

  /** Every positive cell of the piece lands on an existing board cell, so the commit never writes outside the grid. */
  predicate SaveInBounds(b: Board, t: Tetromino) {
    forall y, x :: 0 <= y < |t.shape| && 0 <= x < |t.shape[y]| && t.shape[y][x] > 0 ==>
      0 <= t.y + y < |b| && 0 <= t.x + x < |b[t.y + y]|
  }

  /** The board with the piece committed: covered cells take the piece's value, all others keep theirs. */
  function Save(b: Board, t: Tetromino): (r: Board)
    requires SaveInBounds(b, t)
    ensures |r| == |b| && forall i :: 0 <= i < |b| ==> |r[i]| == |b[i]|
    ensures WellFormed(b) ==> WellFormed(r)
    ensures forall y, x :: 0 <= y < |t.shape| && 0 <= x < |t.shape[y]| && t.shape[y][x] > 0 ==>
      r[t.y + y][t.x + x] == t.shape[y][x]
    ensures forall i, j :: 0 <= i < |b| && 0 <= j < |b[i]| && !Covers(t, i, j) ==> r[i][j] == b[i][j]
  {
    seq(|b|, i requires 0 <= i < |b| =>
      seq(|b[i]|, j requires 0 <= j < |b[i]| => if Covers(t, i, j) then t.shape[i - t.y][j - t.x] else b[i][j]))
  }

  /** Covers restricted to the cells the save loop has visited before row y, column x. */
  predicate CoveredBefore(t: Tetromino, i: int, j: int, y: int, x: int) {
    Covers(t, i, j) && (i - t.y < y || (i - t.y == y && j - t.x < x))
  }

  /** Board cell (i, j) once the save loop has visited the cells before row y, column x. */
  function SavedBefore(b: Board, t: Tetromino, y: int, x: int, i: int, j: int): int
    requires 0 <= i < |b| && 0 <= j < |b[i]|
  {
    if CoveredBefore(t, i, j, y, x) then t.shape[i - t.y][j - t.x] else b[i][j]
  }

  /** The commit as the game's code does it: a row-by-row loop writing each positive cell. */
  method SaveScan(b: Board, t: Tetromino) returns (r: Board)
    requires IsRectangular(t.shape) && SaveInBounds(b, t)
    ensures r == Save(b, t)
  {
    r := b;
    var rows := |t.shape|;
    var y := 0;
    while y < rows
      invariant 0 <= y <= rows
      invariant |r| == |b| && forall i :: 0 <= i < |b| ==> |r[i]| == |b[i]|
      invariant forall i, j :: 0 <= i < |b| && 0 <= j < |b[i]| ==> r[i][j] == SavedBefore(b, t, y, 0, i, j)
    {
      var cols := |t.shape[0]|;
      var x := 0;
      while x < cols
        invariant 0 <= x <= cols
        invariant |r| == |b| && forall i :: 0 <= i < |b| ==> |r[i]| == |b[i]|
        invariant forall i, j :: 0 <= i < |b| && 0 <= j < |b[i]| ==> r[i][j] == SavedBefore(b, t, y, x, i, j)
      {
        var X := t.x + x;
        var Y := t.y + y;
        if t.shape[y][x] > 0 {
          r := r[Y := r[Y][X := t.shape[y][x]]];
        }
        x := x + 1;
      }
      assert forall i, j :: 0 <= i < |b| && 0 <= j < |b[i]| ==>
        SavedBefore(b, t, y, cols, i, j) == SavedBefore(b, t, y + 1, 0, i, j);
      y := y + 1;
    }
    var s := Save(b, t);
    forall i | 0 <= i < |b|
      ensures r[i] == s[i]
    {
      forall j | 0 <= j < |b[i]|
        ensures r[i][j] == s[i][j]
      {
        assert r[i][j] == SavedBefore(b, t, rows, 0, i, j);
      }
    }
  }

  // ---------------------------------------------------------------- clear

  /** Every cell of the row is positive. */
  predicate IsFull(row: seq<int>) {
    forall c :: 0 <= c < |row| ==> row[c] > 0
  }

  /** The number of full rows. */
  function CountFull(rows: seq<seq<int>>): (n: nat)
    ensures n <= |rows|
  {
    if |rows| == 0 then 0
    else CountFull(rows[..|rows| - 1]) + (if IsFull(rows[|rows| - 1]) then 1 else 0)
  }

  /** The rows that are not full, in their original order. */
  function KeepNonFull(rows: seq<seq<int>>): (kept: seq<seq<int>>)
    ensures |kept| + CountFull(rows) == |rows|
    ensures forall i :: 0 <= i < |kept| ==> !IsFull(kept[i])
    ensures forall i :: 0 <= i < |kept| ==> kept[i] in rows
  {
    if |rows| == 0 then []
    else
      var front := KeepNonFull(rows[..|rows| - 1]);
      if IsFull(rows[|rows| - 1]) then front else front + [rows[|rows| - 1]]
  }

  /** The surviving rows are the non-full rows with their multiplicities: none is lost, duplicated or invented. */
  lemma {:induction false} KeepNonFullMultiset(rows: seq<seq<int>>)
    ensures forall row :: multiset(KeepNonFull(rows))[row] == if IsFull(row) then 0 else multiset(rows)[row]
  {
    if |rows| > 0 {
      var front := rows[..|rows| - 1];
      var last := rows[|rows| - 1];
      KeepNonFullMultiset(front);
      assert rows == front + [last];
      assert multiset(rows) == multiset(front) + multiset([last]);
    }
  }

  function EmptyRows(k: nat): (rows: seq<seq<int>>)
    ensures |rows| == k && forall i :: 0 <= i < k ==> rows[i] == EmptyRow()
  {
    seq(k, _ => EmptyRow())
  }

  /** The outcome of a line clear: the number of rows removed and the resulting board. */
  datatype Cleared = Cleared(lines: nat, board: Board)

  /**
   * Clearing the full rows: as many empty rows as rows were full, on top of
   * the rows that were not full in their original order.
   */
  function ClearLines(b: Board): (r: Cleared)
    requires |b| == BOARD_ROWS
    ensures r.lines == CountFull(b)
    ensures r.board == EmptyRows(r.lines) + KeepNonFull(b)
    ensures |r.board| == BOARD_ROWS
    ensures forall i :: 0 <= i < |r.board| ==> !IsFull(r.board[i])
    ensures WellFormed(b) ==> WellFormed(r.board)
  {
    var lines := CountFull(b);
    var board := EmptyRows(lines) + KeepNonFull(b);
    assert forall i :: 0 <= i < lines ==> !IsFull(board[i]) by {
      assert !IsFull(EmptyRow()) by { assert EmptyRow()[0] == 0; }
    }
    Cleared(lines, board)
  }

  /** The line clear as the game's code does it: a top-to-bottom scan that splices out each full row and unshifts an empty one. */
  method ClearLineScan(b: Board) returns (lines: nat, r: Board)
    requires |b| == BOARD_ROWS
    ensures Cleared(lines, r) == ClearLines(b)
  {
    lines := 0;
    r := b;
    var row := 0;
    while row < BOARD_ROWS
      invariant 0 <= row <= BOARD_ROWS
      invariant lines == CountFull(b[..row])
      invariant r == EmptyRows(lines) + KeepNonFull(b[..row]) + b[row..]
    {
      ScanStep(b, row, lines, r);
      if IsFull(r[row]) {
        lines := lines + 1;
        // rows below the scan index keep their place: only rows 0..row move
        r := [EmptyRow()] + (r[..row] + r[row + 1..]);
      }
      row := row + 1;
    }
    assert b[..BOARD_ROWS] == b;
  }

  /** Extending the scanned prefix by one row. */
  lemma PrefixStep(b: seq<seq<int>>, row: int)
    requires 0 <= row < |b|
    ensures CountFull(b[..row + 1]) == CountFull(b[..row]) + (if IsFull(b[row]) then 1 else 0)
    ensures KeepNonFull(b[..row + 1]) == KeepNonFull(b[..row]) + (if IsFull(b[row]) then [] else [b[row]])
  {
    assert b[..row + 1][..row] == b[..row];
  }

  /** One iteration of the line-clear scan keeps its invariant: row `row` is still the original one. */
  lemma ScanStep(b: seq<seq<int>>, row: int, lines: nat, r: seq<seq<int>>)
    requires 0 <= row < |b|
    requires lines == CountFull(b[..row])
    requires r == EmptyRows(lines) + KeepNonFull(b[..row]) + b[row..]
    ensures r[row] == b[row]
    ensures IsFull(b[row]) ==>
      lines + 1 == CountFull(b[..row + 1]) &&
      [EmptyRow()] + (r[..row] + r[row + 1..]) == EmptyRows(lines + 1) + KeepNonFull(b[..row + 1]) + b[row + 1..]
    ensures !IsFull(b[row]) ==>
      lines == CountFull(b[..row + 1]) && r == EmptyRows(lines) + KeepNonFull(b[..row + 1]) + b[row + 1..]
  {
    PrefixStep(b, row);
    var top := EmptyRows(lines) + KeepNonFull(b[..row]);
    assert |top| == row;
    assert r[..row] == top && r[row..] == b[row..];
    assert b[row..] == [b[row]] + b[row + 1..];
    if IsFull(b[row]) {
      assert r[row + 1..] == b[row + 1..];
      assert [EmptyRow()] + EmptyRows(lines) == EmptyRows(lines + 1);
    }
  }

  /** A board with no full row is left as it is. */
  lemma {:induction false} KeepNonFullNoFull(rows: seq<seq<int>>)
    requires forall i :: 0 <= i < |rows| ==> !IsFull(rows[i])
    ensures CountFull(rows) == 0 && KeepNonFull(rows) == rows
    decreases |rows|
  {
    if |rows| > 0 {
      KeepNonFullNoFull(rows[..|rows| - 1]);
      assert rows[..|rows| - 1] + [rows[|rows| - 1]] == rows;
    }
  }

  lemma ClearLinesNoFull(b: Board)
    requires |b| == BOARD_ROWS
    requires forall i :: 0 <= i < |b| ==> !IsFull(b[i])
    ensures ClearLines(b) == Cleared(0, b)
  {
    KeepNonFullNoFull(b);
  }

  /** Clearing an empty board removes nothing and changes nothing. */
  lemma ClearEmptyBoard()
    ensures ClearLines(EmptyBoard()) == Cleared(0, EmptyBoard())
  {
    var b := EmptyBoard();
    assert forall i :: 0 <= i < |b| ==> !IsFull(b[i]) by {
      assert forall i :: 0 <= i < |b| ==> b[i][0] == 0;
    }
    ClearLinesNoFull(b);
  }

  /** A square piece with rows 0..|shape| placed from row y >= 0 and between the walls is valid on the empty board. */
  lemma ValidOnEmptyBoard(t: Tetromino)
    requires t.y >= 0 && t.y + |t.shape| <= BOARD_ROWS
    requires t.x >= 0 && forall y :: 0 <= y < |t.shape| ==> t.x + |t.shape[y]| <= BOARD_COLS
    ensures IsValid(EmptyBoard(), t)
  {
  }
}
