/** The fixed dimensions and tables of the game. */
module Constants {
  import opened Matrix

  const BOARD_ROWS: int := 28
  const BOARD_COLS: int := 15

  /** One entry of the piece table: its display colour and its shape template. */
  datatype TetrominoInfo = TetrominoInfo(color: string, shape: Matrix)

  /** The seven templates; the nonzero value in template `i` is `i + 1`. */
  const TETROMINOES: seq<TetrominoInfo> := [
    TetrominoInfo("#ff0127", [[1, 0, 0], [1, 1, 1], [0, 0, 0]]),
    TetrominoInfo("#edebe9", [[0, 0, 0, 0], [2, 2, 2, 2], [0, 0, 0, 0], [0, 0, 0, 0]]),
    TetrominoInfo("#fbce05", [[3, 3], [3, 3]]),
    TetrominoInfo("#43d562", [[4, 4, 0], [0, 4, 4], [0, 0, 0]]),
    TetrominoInfo("#a469b6", [[0, 5, 0], [5, 5, 5], [0, 0, 0]]),
    TetrominoInfo("#FF8C00", [[0, 0, 6], [6, 6, 6], [0, 0, 0]]),
    TetrominoInfo("#3c77b5", [[0, 7, 7], [7, 7, 0], [0, 0, 0]])
  ]

  const MAX_LEVEL: int := 10
  const POINTS_PER_LINE: int := 100
  const SPEED_IN_MS: seq<int> := [600, 500, 450, 400, 350, 300, 250, 200, 150, 100]

  /** Every template is square with side 2, 3 or 4, as the rotation requires. */
  lemma TemplatesAreSquare()
    ensures |TETROMINOES| == 7
    ensures forall i :: 0 <= i < |TETROMINOES| ==>
      IsSquare(TETROMINOES[i].shape) && 2 <= |TETROMINOES[i].shape| <= 4
  {
  }

  /** Every nonzero entry of template `i` is `i + 1`, the index the board's colour lookup subtracts one from. */
  lemma TemplateValues()
    ensures forall i, y, x ::
      (0 <= i < |TETROMINOES| && 0 <= y < |TETROMINOES[i].shape| && 0 <= x < |TETROMINOES[i].shape[y]|) ==>
        TETROMINOES[i].shape[y][x] == 0 || TETROMINOES[i].shape[y][x] == i + 1
  {
  }

  /** Every template has exactly four nonzero cells. */
  lemma TemplatesHaveFourCells()
    ensures forall i :: 0 <= i < |TETROMINOES| ==> Count(TETROMINOES[i].shape) == 4
  {
  }

  /** The speed table has one entry per level, starts at 600 and strictly decreases. */
  lemma SpeedTable()
    ensures |SPEED_IN_MS| == MAX_LEVEL
    ensures SPEED_IN_MS[0] == 600
    ensures forall i, j :: 0 <= i < j < |SPEED_IN_MS| ==> SPEED_IN_MS[i] > SPEED_IN_MS[j]
  {
  }
}
