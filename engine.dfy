/** The state of a TetrisGame as one value, and the effect of each of its operations and of
    each session state's input and update handlers on that value. The class TetrisGame in
    module Game is proved to follow these functions. */
module Engine {
  import opened Config
  import opened Options
  import opened Tetromino
  import opened Board

  datatype SessionState = Playing | Paused | LineClearing | GameOver

  /** The keys the states react to; every other key is OtherKey. */
  datatype Key = Left | Right | Down | Up | Space | C | G | P | R | OtherKey

  /** An input event: a key press, or any other event (not forwarded to the state). */
  datatype Event = KeyDown(key: Key) | OtherEvent

  /** The fields of TetrisGame; `next` is the type of next_piece, which is always a freshly
      constructed piece. */
  datatype EngineState = EngineState(
    grid: Grid,
    current: Piece,
    next: PieceType,
    hold: Option<PieceType>,
    canHold: bool,
    score: nat,
    level: nat,
    linesCleared: nat,
    gameOver: bool,
    fallTime: nat,
    fallSpeed: int,
    clearingLines: seq<int>,
    clearAnimationTime: nat,
    showGhost: bool,
    state: SessionState)

  /** The invariant every reachable state keeps. */
  ghost predicate Valid(s: EngineState)
  {
    WellFormed(s.grid) && PieceOk(s.current) &&
    RowsInGrid(s.clearingLines) && StrictlyAscending(s.clearingLines) &&
    s.level == LevelFor(s.linesCleared) && s.fallSpeed == FallSpeedFor(s.level)
  }

  /** spawn_new_piece, with `pick` the type the random source returns for the new next piece. */
  function Spawn(s: EngineState, pick: PieceType): EngineState
    requires WellFormed(s.grid)
  {
    var p := NewPiece(s.next);
    var blocked := !Fits(s.grid, p, 0, 0);
    s.(current := p, next := pick, canHold := true,
       gameOver := s.gameOver || blocked,
       state := if blocked then GameOver else s.state)
  }

  /** move_piece */
  function Move(s: EngineState, dx: int, dy: int): EngineState
    requires WellFormed(s.grid)
  {
    if Fits(s.grid, s.current, dx, dy)
    then s.(current := s.current.(x := s.current.x + dx, y := s.current.y + dy))
    else s
  }

  /** rotate_piece: turn clockwise and take the first kick offset that fits, else undo. */
  function Rotate(s: EngineState): EngineState
    requires WellFormed(s.grid) && IsMatrix(s.current.shape)
  {
    var rp := RotatedClockwise(s.current);
    match FirstFit(s.grid, rp, Kicks)
    case None => s
    case Some(k) => s.(current := rp.(x := rp.x + Kicks[k].0, y := rp.y + Kicks[k].1))
  }

  /** get_ghost_piece: the current piece moved down as far as it fits. */
  function Ghost(s: EngineState): Piece
    requires WellFormed(s.grid) && HasBlock(s.current.shape)
  {
    s.current.(y := s.current.y + DropDistance(s.grid, s.current))
  }

  /** clear_lines: record the full rows, score them at the current level, level up. */
  function ClearLines(s: EngineState): EngineState
    requires WellFormed(s.grid)
  {
    var rows := FullRows(s.grid);
    if rows == [] then s
    else
      var n := |rows|;
      var lines := s.linesCleared + n;
      var newLevel := LevelFor(lines);
      s.(clearingLines := rows, clearAnimationTime := 0, linesCleared := lines,
         score := s.score + LineScore(n) * s.level,
         level := if newLevel > s.level then newLevel else s.level,
         fallSpeed := if newLevel > s.level then FallSpeedFor(newLevel) else s.fallSpeed,
         state := LineClearing)
  }

  /** lock_piece: write the piece into the grid, look for full rows, spawn if there are none. */
  function Lock(s: EngineState, pick: PieceType): EngineState
    requires WellFormed(s.grid)
  {
    var s1 := ClearLines(s.(grid := Stamp(s.grid, s.current)));
    if s1.clearingLines == [] then Spawn(s1, pick) else s1
  }

  /** The hard_drop loop: the piece moved down as far as it fits, HardDropBonus points per row. */
  function Dropped(s: EngineState): EngineState
    requires WellFormed(s.grid) && HasBlock(s.current.shape)
  {
    var d := DropDistance(s.grid, s.current);
    s.(current := Ghost(s), score := s.score + d * HardDropBonus)
  }

  /** hard_drop: drop, then lock. */
  function HardDrop(s: EngineState, pick: PieceType): EngineState
    requires WellFormed(s.grid) && HasBlock(s.current.shape)
  {
    Lock(Dropped(s), pick)
  }

  /** finish_clearing_animation: remove the recorded rows (as the code does), then spawn. */
  function FinishClearing(s: EngineState, pick: PieceType): EngineState
    requires WellFormed(s.grid) && RowsInGrid(s.clearingLines)
  {
    if s.clearingLines == [] then s
    else Spawn(s.(grid := RemoveRowsAsWritten(s.grid, s.clearingLines), clearingLines := []), pick)
  }

  /** hold_current_piece: store or swap the current type, once per piece. */
  function Hold(s: EngineState, pick: PieceType): EngineState
    requires WellFormed(s.grid)
  {
    if !s.canHold then s
    else match s.hold
      case None => Spawn(s.(hold := Some(s.current.kind)), pick).(canHold := false)
      case Some(h) => s.(current := NewPiece(h), hold := Some(s.current.kind), canHold := false)
  }

  /** reset_game; `first` and `second` are the next two random types. The fall timer and the
      ghost setting are not reset. */
  function Reset(s: EngineState, first: PieceType, second: PieceType): EngineState
  {
    Spawn(s.(grid := EmptyGrid(), score := 0, level := 1, linesCleared := 0, gameOver := false,
             fallSpeed := InitialFallSpeed, clearingLines := [], clearAnimationTime := 0,
             next := first, hold := None, canHold := true, state := Playing), second)
  }

  /** The state TetrisGame's constructor builds; the placeholder current piece is replaced by
      the spawn. */
  function Initial(first: PieceType, second: PieceType): EngineState
  {
    Spawn(EngineState(EmptyGrid(), NewPiece(first), first, None, true, 0, 1, 0, false, 0,
                      InitialFallSpeed, [], 0, true, Playing), second)
  }

  /** PlayingState.handle_input */
  function PlayingInput(s: EngineState, k: Key, pick: PieceType): EngineState
    requires Valid(s)
  {
    match k
    case Left => Move(s, -1, 0)
    case Right => Move(s, 1, 0)
    case Down =>
      if Fits(s.grid, s.current, 0, 1) then Move(s, 0, 1).(score := s.score + SoftDropBonus) else s
    case Up => Rotate(s)
    case Space => HardDrop(s, pick)
    case C => Hold(s, pick)
    case G => s.(showGhost := !s.showGhost)
    case P => s.(state := Paused)
    case _ => s
  }

  /** PausedState.handle_input */
  function PausedInput(s: EngineState, k: Key): EngineState
  {
    if k == P then s.(state := Playing) else s
  }

  /** GameOverState.handle_input */
  function GameOverInput(s: EngineState, k: Key, first: PieceType, second: PieceType): EngineState
  {
    if k == R then Reset(s, first, second).(state := Playing) else s
  }

  /** TetrisGame.handle_input: key presses go to the current state, whatever gameOver says.
      `first` and `second` are the next random types, used only if a piece is spawned. */
  function HandleInput(s: EngineState, ev: Event, first: PieceType, second: PieceType): EngineState
    requires Valid(s)
  {
    match ev
    case OtherEvent => s
    case KeyDown(k) =>
      match s.state
      case Playing => PlayingInput(s, k, first)
      case Paused => PausedInput(s, k)
      case LineClearing => s
      case GameOver => GameOverInput(s, k, first, second)
  }

  /** PlayingState.update: gravity once the fall timer reaches the fall interval. */
  function PlayingUpdate(s: EngineState, delta: nat, pick: PieceType): EngineState
    requires WellFormed(s.grid)
  {
    var t := s.fallTime + delta;
    if t >= s.fallSpeed then
      var s1 := s.(fallTime := 0);
      if Fits(s1.grid, s1.current, 0, 1) then Move(s1, 0, 1) else Lock(s1, pick)
    else s.(fallTime := t)
  }

  /** LineClearingState.update: when the animation has run its course, remove the rows and
      switch to Playing, even if the spawn inside has just ended the game. */
  function LineClearingUpdate(s: EngineState, delta: nat, pick: PieceType): EngineState
    requires WellFormed(s.grid) && RowsInGrid(s.clearingLines)
  {
    var t := s.clearAnimationTime + delta;
    var s1 := s.(clearAnimationTime := t);
    if t >= ClearAnimationDuration then FinishClearing(s1, pick).(state := Playing) else s1
  }

  /** TetrisGame.update: nothing once gameOver is set, otherwise the current state's update. */
  function Update(s: EngineState, delta: nat, pick: PieceType): EngineState
    requires Valid(s)
  {
    if s.gameOver then s
    else match s.state
      case Playing => PlayingUpdate(s, delta, pick)
      case LineClearing => LineClearingUpdate(s, delta, pick)
      case _ => s
  }
}
