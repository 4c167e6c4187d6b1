/**
 * The game loop as a state machine over the board, the falling and the next
 * piece, the score, the level and whether a frame is scheduled. Each tick
 * receives the time elapsed since the last step and the template index a
 * landing would draw; each key event receives the key's code.
 */
module GameLoop {
  import opened Wrappers
  import opened Matrix
  import opened Constants
  import opened Tetrominoes
  import opened GameBoard
  import opened Levels

  /** The four piece movements reachable from the input. */
  datatype Move = Down | Left | Right | Turn

  /** The key table: the four arrow keys and nothing else. */
  function MoveForKey(code: string): (m: Option<Move>)
    ensures m.Some? <==> code in {"ArrowDown", "ArrowLeft", "ArrowRight", "ArrowUp"}
    ensures code == "ArrowUp" <==> m == Some(Turn)
    ensures code == "ArrowDown" <==> m == Some(Down)
    ensures code == "ArrowLeft" <==> m == Some(Left)
    ensures code == "ArrowRight" <==> m == Some(Right)
  {
    if code == "ArrowDown" then Some(Down)
    else if code == "ArrowLeft" then Some(Left)
    else if code == "ArrowRight" then Some(Right)
    else if code == "ArrowUp" then Some(Turn)
    else None
  }

  /** The candidate piece for a move, built from a copy of the piece. */
  function ApplyMove(t: Tetromino, m: Move): (r: Tetromino)
    requires IsSquare(t.shape)
    ensures IsSquare(r.shape) && |r.shape| == |t.shape| && r.color == t.color
    ensures m == Down ==> r == MoveDown(t)
    ensures m == Left ==> r == MoveLeft(t)
    ensures m == Right ==> r == MoveRight(t)
    ensures m == Turn ==> r == Rotate(t)
    ensures r.y >= t.y
  {
    match m
    case Down => MoveDown(t)
    case Left => MoveLeft(t)
    case Right => MoveRight(t)
    case Turn => Rotate(t)
  }

  /** The logical state of a game; `running` stands for a scheduled animation frame. */
  datatype Game = Game(
    board: Board,
    tetromino: Tetromino,
    nextTetromino: Tetromino,
    score: int,
    level: Level,
    running: bool)

  /** The state effects of a reset: fresh level, zero score, empty board, no frame scheduled. */
  function Reset(g: Game): (r: Game)
    ensures r.board == EmptyBoard() && r.score == 0 && r.level == NewLevel() && !r.running
    ensures r.tetromino == g.tetromino && r.nextTetromino == g.nextTetromino
  {
    g.(board := EmptyBoard(), score := 0, level := NewLevel(), running := false)
  }

  /** Game over has the state effects of a reset and schedules no further frame. */
  function GameOver(g: Game): (r: Game)
    ensures r == Reset(g)
    ensures !r.running && r.score == 0 && r.board == EmptyBoard()
  {
    Reset(g)
  }

  /** A new game: reset, then two freshly spawned pieces from the draws `first` and `second`, and the loop running. */
  function Start(first: int, second: int): (g: Game)
    requires 0 <= first < |TETROMINOES| && 0 <= second < |TETROMINOES|
    ensures g.board == EmptyBoard() && g.score == 0 && g.level == NewLevel() && g.running
    ensures g.tetromino == CreateTetromino(first) && g.nextTetromino == CreateTetromino(second)
    ensures Inv(g)
  {
    Game(EmptyBoard(), CreateTetromino(first), CreateTetromino(second), 0, NewLevel(), true)
  }

  /**
   * The timer gate: a step happens on the very first frame (no time elapsed)
   * or once strictly more than the fall interval has elapsed. An interval
   * read past the speed table compares false, so only the first case is left.
   */
  predicate TimerFires(elapsed: int, speedInMs: Option<int>)
    ensures elapsed == 0 ==> TimerFires(elapsed, speedInMs)
    ensures speedInMs.Some? && 0 < elapsed <= speedInMs.value ==> !TimerFires(elapsed, speedInMs)
    ensures speedInMs.Some? && elapsed > speedInMs.value ==> TimerFires(elapsed, speedInMs)
    ensures speedInMs.None? ==> (TimerFires(elapsed, speedInMs) <==> elapsed == 0)
  {
    elapsed == 0 || (speedInMs.Some? && elapsed > speedInMs.value)
  }

  /** Points for a clear: per line, POINTS_PER_LINE times the level number. */
  function UpdateScore(score: int, lines: int, level: Level): (r: int)
    ensures lines >= 0 && level.value >= 1 ==> r >= score
    ensures r % POINTS_PER_LINE == score % POINTS_PER_LINE
    ensures r == score + (lines * level.value) * POINTS_PER_LINE
  {
    var k := lines * level.value;
    assert lines >= 0 && level.value >= 1 ==> k >= 0 by {
      if lines >= 0 && level.value >= 1 { NonNegativeProduct(lines, level.value); }
    }
    assert lines * POINTS_PER_LINE * level.value == k * POINTS_PER_LINE;
    score + lines * POINTS_PER_LINE * level.value
  }

  lemma NonNegativeProduct(a: int, b: int)
    requires a >= 0 && b >= 0
    ensures a * b >= 0
  {
  }

  lemma UpdateScoreExample(score: int, speed: Option<int>)
    ensures UpdateScore(score, 1, Level(3, speed)) == score + 300
    ensures UpdateScore(score, 4, Level(1, speed)) == score + 400
  {
  }

  /**
   * The state every reachable game keeps. The falling piece is never above
   * row 0, and unless it is on row 0 it stands validly on the board, so
   * committing it never writes outside the grid. The next piece is on row 0
   * (that it is always a template's spawn is `ReachableNextIsSpawn`). The score is a non-negative multiple of POINTS_PER_LINE,
   * the level is at least 1 and never ahead of the score, and its interval is
   * the table entry for its number.
   */
  predicate Inv(g: Game) {
    && WellFormed(g.board)
    && IsSquare(g.tetromino.shape) && IsSquare(g.nextTetromino.shape)
    && g.nextTetromino.y == 0
    && g.tetromino.y >= 0
    && (g.tetromino.y == 0 || IsValid(g.board, g.tetromino))
    && g.score >= 0 && g.score % POINTS_PER_LINE == 0
    && 1 <= g.level.value <= LevelFromScore(g.score)
    && g.level.speedInMs == SpeedFor(g.level.value)
  }

  /** A valid piece at or below row 0 has all its positive cells on a well-formed board. */
  lemma ValidSavesInBounds(b: Board, t: Tetromino)
    requires WellFormed(b) && t.y >= 0 && IsValid(b, t)
    ensures SaveInBounds(b, t)
  {
    forall y, x | 0 <= y < |t.shape| && 0 <= x < |t.shape[y]| && t.shape[y][x] > 0
      ensures 0 <= t.y + y < |b| && 0 <= t.x + x < |b[t.y + y]|
    {
      assert CellFits(b, t, y, x);
    }
  }

  /** The piece committed to the board and the full rows cleared. */
  function LandingClear(g: Game): (c: Cleared)
    requires Inv(g) && g.tetromino.y > 0
    ensures WellFormed(c.board)
  {
    ValidSavesInBounds(g.board, g.tetromino);
    ClearLines(Save(g.board, g.tetromino))
  }

  /**
   * A landing: commit the piece, clear full rows, score and relevel only if
   * some row was cleared, promote the next piece and spawn a new one.
   */
  function Land(g: Game, draw: int): (r: Game)
    requires Inv(g) && g.tetromino.y > 0
    requires 0 <= draw < |TETROMINOES|
    ensures r.running == g.running
    ensures r.tetromino == g.nextTetromino && r.nextTetromino == CreateTetromino(draw)
    ensures WellFormed(r.board) && forall i :: 0 <= i < |r.board| ==> !IsFull(r.board[i])
  {
    var cleared := LandingClear(g);
    var score := if cleared.lines > 0 then UpdateScore(g.score, cleared.lines, g.level) else g.score;
    var level := if cleared.lines > 0 then UpdateLevel(g.level, score) else g.level;
    g.(board := cleared.board, score := score, level := level,
       tetromino := g.nextTetromino, nextTetromino := CreateTetromino(draw))
  }

  /** The body of the timer branch: fall one row if possible, else end the game or land the piece. */
  function Fall(g: Game, draw: int): (r: Game)
    requires Inv(g) && 0 <= draw < |TETROMINOES|
    ensures IsValid(g.board, MoveDown(g.tetromino)) ==> r == g.(tetromino := MoveDown(g.tetromino))
    ensures !IsValid(g.board, MoveDown(g.tetromino)) && g.tetromino.y <= 0 ==>
      !r.running && r.board == EmptyBoard() && r.score == 0 && r.level == NewLevel()
    ensures !IsValid(g.board, MoveDown(g.tetromino)) && g.tetromino.y > 0 ==>
      && r.running == g.running
      && r.tetromino == g.nextTetromino && r.nextTetromino == CreateTetromino(draw)
      && r.score >= g.score && r.level.value >= g.level.value
      && WellFormed(r.board) && (forall i :: 0 <= i < |r.board| ==> !IsFull(r.board[i]))
  {
    var candidate := MoveDown(g.tetromino);
    if IsValid(g.board, candidate) then g.(tetromino := candidate)
    else if g.tetromino.y <= 0 then GameOver(g)
    else Land(g, draw)
  }

  /** One animation frame. */
  function Tick(g: Game, elapsed: int, draw: int): (r: Game)
    requires Inv(g) && 0 <= draw < |TETROMINOES|
    // without a scheduled frame, or before the interval has passed, nothing changes
    ensures r != g ==> g.running && TimerFires(elapsed, g.level.speedInMs)
    ensures g.running && TimerFires(elapsed, g.level.speedInMs) && IsValid(g.board, MoveDown(g.tetromino)) ==>
      r == g.(tetromino := MoveDown(g.tetromino))
    ensures (g.running && TimerFires(elapsed, g.level.speedInMs) && !IsValid(g.board, MoveDown(g.tetromino))
             && g.tetromino.y <= 0) ==>
        !r.running && r.board == EmptyBoard() && r.score == 0 && r.level == NewLevel()
    ensures (g.running && TimerFires(elapsed, g.level.speedInMs) && !IsValid(g.board, MoveDown(g.tetromino))
             && g.tetromino.y > 0) ==>
        var cleared := LandingClear(g);
        && r.running
        && r.board == cleared.board
        && r.tetromino == g.nextTetromino && r.nextTetromino == CreateTetromino(draw)
        && r.score == g.score + cleared.lines * POINTS_PER_LINE * g.level.value
        && r.level == (if cleared.lines > 0 then UpdateLevel(g.level, r.score) else g.level)
  {
    if g.running && TimerFires(elapsed, g.level.speedInMs) then Fall(g, draw) else g
  }

  /** The keyboard and gamepad handler: build the candidate on a copy and adopt it only if it is valid. */
  function TryToMove(g: Game, code: string): (r: Game)
    requires IsSquare(g.tetromino.shape)
    ensures MoveForKey(code).None? ==> r == g
    ensures r == g.(tetromino := r.tetromino)
    ensures r.tetromino == g.tetromino
      || (MoveForKey(code).Some? && r.tetromino == ApplyMove(g.tetromino, MoveForKey(code).value)
          && IsValid(g.board, r.tetromino))
    ensures MoveForKey(code).Some? && IsValid(g.board, ApplyMove(g.tetromino, MoveForKey(code).value)) ==>
      r.tetromino == ApplyMove(g.tetromino, MoveForKey(code).value)
  {
    match MoveForKey(code)
    case None => g
    case Some(m) =>
      var candidate := ApplyMove(g.tetromino, m);
      if IsValid(g.board, candidate) then g.(tetromino := candidate) else g
  }

  /** Key events reach the handler only while a game runs: a reset removes the listeners. */
  function HandleKey(g: Game, code: string): (r: Game)
    requires IsSquare(g.tetromino.shape)
    ensures !g.running ==> r == g
    ensures g.running ==> r == TryToMove(g, code)
  {
    if g.running then TryToMove(g, code) else g
  }

  // ---------------------------------------------------------------- properties

  /** The first frame of a new game steps at once (no time has elapsed) and moves the piece one row down. */
  lemma StartFirstTick(first: int, second: int, draw: int)
    requires 0 <= first < |TETROMINOES| && 0 <= second < |TETROMINOES| && 0 <= draw < |TETROMINOES|
    ensures Tick(Start(first, second), 0, draw) == Start(first, second).(tetromino := MoveDown(CreateTetromino(first)))
  {
  }

  /** A tick keeps the invariant. */
  lemma TickPreservesInv(g: Game, elapsed: int, draw: int)
    requires Inv(g) && 0 <= draw < |TETROMINOES|
    ensures Inv(Tick(g, elapsed, draw))
  {
  }

  lemma LandPreservesInv(g: Game, draw: int)
    requires Inv(g) && g.tetromino.y > 0 && 0 <= draw < |TETROMINOES|
    ensures Inv(Land(g, draw))
  {
  }

  /** A key event keeps the invariant. */
  lemma HandleKeyPreservesInv(g: Game, code: string)
    requires Inv(g)
    ensures Inv(HandleKey(g, code))
  {
  }

  /** While the game keeps running, a tick never lowers the score or the level. */
  lemma TickMonotone(g: Game, elapsed: int, draw: int)
    requires Inv(g) && 0 <= draw < |TETROMINOES|
    ensures Tick(g, elapsed, draw).running ==>
      Tick(g, elapsed, draw).score >= g.score && Tick(g, elapsed, draw).level.value >= g.level.value
  {
  }

  /** The interval comparison is strict: exactly the interval elapsed is not yet a step. */
  lemma TimerIsStrict(speed: int)
    requires speed > 0
    ensures !TimerFires(speed, Some(speed)) && TimerFires(speed + 1, Some(speed)) && TimerFires(0, Some(speed))
  {
  }

  /** Inputs reaching the game: a frame with its elapsed time and a draw for a possible landing, or a key. */
  datatype Event = Frame(elapsed: int, draw: int) | Key(code: string)

  predicate DrawsInRange(events: seq<Event>) {
    forall i :: 0 <= i < |events| && events[i].Frame? ==> 0 <= events[i].draw < |TETROMINOES|
  }

  /** The game after one event. */
  function Step(g: Game, e: Event): (r: Game)
    requires Inv(g) && (e.Frame? ==> 0 <= e.draw < |TETROMINOES|)
    ensures Inv(r)
  {
    match e
    case Frame(elapsed, draw) => TickPreservesInv(g, elapsed, draw); Tick(g, elapsed, draw)
    case Key(code) => HandleKeyPreservesInv(g, code); HandleKey(g, code)
  }

  /** The game after a sequence of events. */
  function Run(g: Game, events: seq<Event>): (r: Game)
    requires Inv(g) && DrawsInRange(events)
    ensures Inv(r)
    decreases |events|
  {
    if |events| == 0 then g
    else
      var next := Step(g, events[0]);
      Run(next, events[1..])
  }

  /** The piece is the spawn of some template. */
  predicate IsSpawn(t: Tetromino) {
    exists i :: 0 <= i < |TETROMINOES| && t == CreateTetromino(i)
  }

  /** One event leaves a template's spawn as the next piece: it is kept, or replaced by the drawn spawn on landing. */
  lemma StepKeepsNextSpawn(g: Game, e: Event)
    requires Inv(g) && (e.Frame? ==> 0 <= e.draw < |TETROMINOES|) && IsSpawn(g.nextTetromino)
    ensures IsSpawn(Step(g, e).nextTetromino)
  {
    match e
    case Frame(elapsed, draw) =>
      var r := Tick(g, elapsed, draw);
      if r.nextTetromino != g.nextTetromino {
        assert r.nextTetromino == CreateTetromino(draw);
      }
    case Key(code) =>
  }

  /** Any sequence of events leaves a template's spawn as the next piece. */
  lemma {:induction false} RunKeepsNextSpawn(g: Game, events: seq<Event>)
    requires Inv(g) && DrawsInRange(events) && IsSpawn(g.nextTetromino)
    ensures IsSpawn(Run(g, events).nextTetromino)
    decreases |events|
  {
    if |events| > 0 {
      StepKeepsNextSpawn(g, events[0]);
      RunKeepsNextSpawn(Step(g, events[0]), events[1..]);
    }
  }

  /** In every game reached from a start, the next piece is the spawn of some template. */
  lemma ReachableNextIsSpawn(first: int, second: int, events: seq<Event>)
    requires 0 <= first < |TETROMINOES| && 0 <= second < |TETROMINOES| && DrawsInRange(events)
    ensures IsSpawn(Run(Start(first, second), events).nextTetromino)
  {
    assert IsSpawn(Start(first, second).nextTetromino) by {
      assert Start(first, second).nextTetromino == CreateTetromino(second);
    }
    RunKeepsNextSpawn(Start(first, second), events);
  }

  /** Every game reached from a start keeps the invariant, so no landing ever writes outside the grid. */
  lemma ReachableLandingsInBounds(first: int, second: int, events: seq<Event>)
    requires 0 <= first < |TETROMINOES| && 0 <= second < |TETROMINOES| && DrawsInRange(events)
    ensures var g := Run(Start(first, second), events);
      g.tetromino.y > 0 ==> SaveInBounds(g.board, g.tetromino)
  {
    var g := Run(Start(first, second), events);
    if g.tetromino.y > 0 {
      ValidSavesInBounds(g.board, g.tetromino);
    }
  }
}
