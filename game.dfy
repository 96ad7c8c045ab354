/** TetrisGame: the fields of the game object and its methods, which update those fields in
    place. Every public operation is proved to leave the object in the state the matching
    function of module Engine computes from the state before the call; the helpers it uses
    have contracts of their own about the piece, grid or counters they compute or change.
    The handlers of the four session states are methods of TetrisGame that dispatch on the
    `state` field. */
module Game {
  import opened Config
  import opened Options
  import opened Tetromino
  import opened Board
  import E = Engine
  import L = EngineLemmas

  class TetrisGame {
    var grid: Grid
    var current: Piece
    /** the type of next_piece, always a freshly constructed piece */
    var next: PieceType
    /** the type of hold_piece, if any */
    var hold: Option<PieceType>
    var canHold: bool
    var score: nat
    var level: nat
    var linesCleared: nat
    var gameOver: bool
    var fallTime: nat
    var fallSpeed: int
    var clearingLines: seq<int>
    var clearAnimationTime: nat
    var showGhost: bool
    var state: E.SessionState

    /** The fields as one value. */
    ghost function Model(): E.EngineState
      reads this
    {
      E.EngineState(grid, current, next, hold, canHold, score, level, linesCleared, gameOver,
                    fallTime, fallSpeed, clearingLines, clearAnimationTime, showGhost, state)
    }

    ghost predicate Valid()
      reads this
    {
      E.Valid(Model())
    }

    /** A new game: empty grid, level 1, Playing; `first` becomes next_piece and is moved into
        play by the spawn, which draws `second` as the new next piece. */
    constructor (first: PieceType, second: PieceType)
      ensures Valid() && Model() == E.Initial(first, second)
    {
      grid := EmptyGrid();
      current := NewPiece(first);
      next := first;
      hold := None;
      canHold := true;
      score := 0;
      level := 1;
      linesCleared := 0;
      gameOver := false;
      fallTime := 0;
      fallSpeed := InitialFallSpeed;
      clearingLines := [];
      clearAnimationTime := 0;
      showGhost := true;
      state := E.Playing;
      new;
      SpawnNewPiece(second);
      L.InitialOutcome(first, second);
    }

    /** is_valid_position: checks the blocks one by one and stops at the first that is outside
        the walls or the floor, or on an occupied visible cell. */
    method IsValidPosition(p: Piece, dx: int, dy: int) returns (ok: bool)
      requires WellFormed(grid)
      ensures ok == Fits(grid, p, dx, dy)
    {
      var bs := Blocks(p);
      FitsByBlocks(grid, p, dx, dy);
      var i := 0;
      while i < |bs|
        invariant 0 <= i <= |bs|
        invariant forall k :: 0 <= k < i ==> CellOpen(grid, bs[k].0 + dx, bs[k].1 + dy)
      {
        var nx, ny := bs[i].0 + dx, bs[i].1 + dy;
        if nx < 0 || nx >= GridWidth || ny >= GridHeight {
          return false;
        }
        if ny >= 0 && grid[ny][nx] != Empty {
          return false;
        }
        i := i + 1;
      }
      return true;
    }

    /** spawn_new_piece */
    method SpawnNewPiece(pick: PieceType)
      requires WellFormed(grid)
      modifies this
      ensures Model() == E.Spawn(old(Model()), pick)
    {
      var p := NewPiece(next);
      var ok := IsValidPosition(p, 0, 0);
      current, next, canHold := p, pick, true;
      if !ok {
        gameOver, state := true, E.GameOver;
      }
    }

    /** move_piece: reports whether the move was made. */
    method MovePiece(dx: int, dy: int) returns (moved: bool)
      requires WellFormed(grid)
      modifies this`current
      ensures moved == Fits(grid, old(current), dx, dy)
      ensures Model() == E.Move(old(Model()), dx, dy)
    {
      moved := IsValidPosition(current, dx, dy);
      if moved {
        current := current.(x := current.x + dx, y := current.y + dy);
      }
    }

    /** rotate_piece: rotate, try the kicks in order, restore the shape if none fits. */
    method RotatePiece()
      requires WellFormed(grid) && IsMatrix(current.shape)
      modifies this`current
      ensures Model() == E.Rotate(old(Model()))
    {
      var original := current.shape;
      current := current.(shape := RotateClockwise(current.shape));
      assert current == RotatedClockwise(old(current));
      var i := 0;
      while i < |Kicks|
        invariant 0 <= i <= |Kicks|
        invariant current == RotatedClockwise(old(current))
        invariant forall j :: 0 <= j < i ==> !Fits(grid, current, Kicks[j].0, Kicks[j].1)
      {
        var dx, dy := Kicks[i].0, Kicks[i].1;
        var ok := IsValidPosition(current, dx, dy);
        if ok {
          var v := FirstFit(grid, current, Kicks);
          assert v == Some(i);
          current := current.(x := current.x + dx, y := current.y + dy);
          return;
        }
        i := i + 1;
      }
      current := current.(shape := original);
    }

    /** hard_drop: move down while possible, HardDropBonus points per row, then lock. */
    method HardDrop(pick: PieceType)
      requires Valid()
      modifies this
      ensures Model() == E.HardDrop(old(Model()), pick)
    {
      var distance := DropToFloor();
      score := score + distance * HardDropBonus;
      assert Model() == E.Dropped(old(Model()));
      L.DroppedValid(old(Model()));
      LockPiece(pick);
    }

    /** The loop of hard_drop: move_piece(0, 1) until it fails, counting the rows. The piece
        ends where the ghost piece is. */
    method DropToFloor() returns (distance: nat)
      requires WellFormed(grid) && HasBlock(current.shape)
      modifies this`current
      ensures distance == DropDistance(grid, old(current))
      ensures current == old(current).(y := old(current).y + distance)
    {
      ghost var p := current;
      distance := 0;
      while true
        invariant current == p.(y := p.y + distance)
        invariant distance <= DropDistance(grid, p)
        decreases DropDistance(grid, p) - distance
      {
        DropStepMoved(grid, p, distance);
        var moved := MovePiece(0, 1);
        if !moved {
          break;
        }
        distance := distance + 1;
      }
    }

    /** get_ghost_piece: a copy of the current piece, moved down while it fits. */
    method GetGhostPiece() returns (g: Piece)
      requires WellFormed(grid) && HasBlock(current.shape)
      ensures g == E.Ghost(Model())
    {
      g := current;
      ghost var d: nat := 0;
      while true
        invariant g == current.(y := current.y + d)
        invariant d <= DropDistance(grid, current)
        decreases DropDistance(grid, current) - d
      {
        DropStepMoved(grid, current, d);
        var ok := IsValidPosition(g, 0, 1);
        if !ok {
          break;
        }
        g := g.(y := g.y + 1);
        d := d + 1;
      }
    }

    /** lock_piece: write the piece's colour into every visible cell it covers, look for full
        rows, and spawn if there are none. */
    method LockPiece(pick: PieceType)
      requires WellFormed(grid) && InBounds(current)
      modifies this
      ensures Model() == E.Lock(old(Model()), pick)
    {
      StampPiece();
      ClearLines();
      if clearingLines == [] {
        SpawnNewPiece(pick);
      }
    }

    /** The loop of lock_piece: the piece's colour goes into each of its blocks on or below
        row 0, one block at a time. */
    method StampPiece()
      requires WellFormed(grid) && InBounds(current)
      modifies this`grid
      ensures grid == Stamp(old(grid), current)
    {
      var bs := Blocks(current);
      var color := Block(ColorOf(current.kind));
      var i := 0;
      while i < |bs|
        invariant 0 <= i <= |bs|
        invariant WellFormed(grid)
        invariant forall y, x :: 0 <= y < GridHeight && 0 <= x < GridWidth ==>
          grid[y][x] == if (x, y) in bs[..i] then color else old(grid)[y][x]
      {
        var x, y := bs[i].0, bs[i].1;
        BlockInBounds(current, i);
        if y >= 0 {
          grid := grid[y := grid[y][x := color]];
        }
        assert bs[..i + 1] == bs[..i] + [bs[i]];
        i := i + 1;
      }
      assert bs[..i] == bs;
      forall y, x | 0 <= y < GridHeight && 0 <= x < GridWidth
        ensures grid[y][x] == Stamp(old(grid), current)[y][x]
      {
        StampWritesBlocks(old(grid), current, x, y);
      }
      SameCells(grid, Stamp(old(grid), current));
    }

    /** The scan of clear_lines: the rows whose every cell is occupied, top to bottom. */
    method FindFullRows() returns (rows: seq<int>)
      requires WellFormed(grid)
      ensures StrictlyAscending(rows)
      ensures forall y :: y in rows <==> 0 <= y < GridHeight && RowFull(grid[y])
    {
      rows := [];
      var y := 0;
      while y < GridHeight
        invariant 0 <= y <= GridHeight
        invariant rows == FullRowsBelow(grid, y)
      {
        if RowFull(grid[y]) {
          rows := rows + [y];
        }
        y := y + 1;
      }
    }

    /** clear_lines: if there are full rows, record them, start the animation, score them at
        the current level and level up. */
    method ClearLines()
      requires WellFormed(grid)
      modifies this
      ensures Model() == E.ClearLines(old(Model()))
    {
      var rows := FindFullRows();
      AscendingUnique(rows, FullRows(grid));
      if rows != [] {
        clearingLines, clearAnimationTime, state := rows, 0, E.LineClearing;
        AddLines(|rows|);
      }
    }

    /** The counters part of clear_lines for n full rows. */
    method AddLines(n: nat)
      modifies this`linesCleared, this`score, this`level, this`fallSpeed
      ensures linesCleared == old(linesCleared) + n
      ensures score == old(score) + LineScore(n) * old(level)
      ensures var newLevel := LevelFor(linesCleared);
        level == (if newLevel > old(level) then newLevel else old(level)) &&
        fallSpeed == (if newLevel > old(level) then FallSpeedFor(newLevel) else old(fallSpeed))
    {
      linesCleared := linesCleared + n;
      score := score + LineScore(n) * level;
      var newLevel := LevelFor(linesCleared);
      if newLevel > level {
        level := newLevel;
        fallSpeed := FallSpeedFor(level);
      }
    }

    /** finish_clearing_animation: for the recorded rows, last first, delete that row of the
        grid as it stands and insert an empty row at the top; then spawn. */
    method FinishClearingAnimation(pick: PieceType)
      requires WellFormed(grid) && RowsInGrid(clearingLines)
      modifies this
      ensures Model() == E.FinishClearing(old(Model()), pick)
    {
      if clearingLines != [] {
        var i := |clearingLines|;
        assert clearingLines[..i] == clearingLines;
        while i > 0
          invariant 0 <= i <= |clearingLines|
          invariant WellFormed(grid)
          invariant Model() == old(Model()).(grid := grid)
          invariant RemoveRowsAsWritten(grid, clearingLines[..i]) ==
                    RemoveRowsAsWritten(old(grid), clearingLines)
        {
          var y := clearingLines[i - 1];
          assert clearingLines[..i][..i - 1] == clearingLines[..i - 1];
          grid := DeleteRow(grid, y);
          grid := [EmptyRow()] + grid;
          i := i - 1;
        }
        clearingLines := [];
        SpawnNewPiece(pick);
      }
    }

    /** hold_current_piece */
    method HoldCurrentPiece(pick: PieceType)
      requires WellFormed(grid)
      modifies this
      ensures Model() == E.Hold(old(Model()), pick)
    {
      if !canHold {
        return;
      }
      if hold.None? {
        hold := Some(current.kind);
        SpawnNewPiece(pick);
      } else {
        var temp := current.kind;
        current := NewPiece(hold.value);
        hold := Some(temp);
      }
      canHold := false;
    }

    /** reset_game: `first` is the new next piece, `second` the one drawn by the spawn. */
    method ResetGame(first: PieceType, second: PieceType)
      modifies this
      ensures Valid() && Model() == E.Reset(old(Model()), first, second)
    {
      ResetCounters();
      ResetBoard(first);
      SpawnNewPiece(second);
      L.ResetOutcome(old(Model()), first, second);
    }

    /** The counters part of reset_game. */
    method ResetCounters()
      modifies this`score, this`level, this`linesCleared, this`gameOver, this`fallSpeed,
               this`clearingLines, this`clearAnimationTime
      ensures score == 0 && level == 1 && linesCleared == 0 && !gameOver
      ensures fallSpeed == InitialFallSpeed && clearingLines == [] && clearAnimationTime == 0
    {
      score, level, linesCleared, gameOver := 0, 1, 0, false;
      fallSpeed, clearingLines, clearAnimationTime := InitialFallSpeed, [], 0;
    }

    /** The grid and pieces part of reset_game; `first` is the new next piece. */
    method ResetBoard(first: PieceType)
      modifies this`grid, this`next, this`hold, this`canHold, this`state
      ensures grid == EmptyGrid() && next == first && hold == None && canHold && state == E.Playing
    {
      grid, next, hold, canHold, state := EmptyGrid(), first, None, true, E.Playing;
    }

    /** PlayingState.handle_input */
    method PlayingHandleInput(k: E.Key, pick: PieceType)
      requires Valid()
      modifies this
      ensures Valid() && Model() == E.PlayingInput(old(Model()), k, pick)
    {
      match k {
        case Left =>
          var moved := MovePiece(-1, 0);
        case Right =>
          var moved := MovePiece(1, 0);
        case Down =>
          var moved := MovePiece(0, 1);
          if moved {
            score := score + SoftDropBonus;
          }
        case Up =>
          RotatePiece();
        case Space =>
          HardDrop(pick);
        case C =>
          HoldCurrentPiece(pick);
        case G =>
          showGhost := !showGhost;
        case P =>
          state := E.Paused;
        case _ =>
      }
      L.PlayingInputValid(old(Model()), k, pick);
    }

    /** PausedState.handle_input */
    method PausedHandleInput(k: E.Key)
      requires Valid()
      modifies this
      ensures Valid() && Model() == E.PausedInput(old(Model()), k)
    {
      if k == E.P {
        state := E.Playing;
      }
    }

    /** GameOverState.handle_input */
    method GameOverHandleInput(k: E.Key, first: PieceType, second: PieceType)
      requires Valid()
      modifies this
      ensures Valid() && Model() == E.GameOverInput(old(Model()), k, first, second)
    {
      if k == E.R {
        ResetGame(first, second);
        state := E.Playing;
      }
    }

    /** handle_input: a key press goes to the handler of the current state. */
    method HandleInput(ev: E.Event, first: PieceType, second: PieceType)
      requires Valid()
      modifies this
      ensures Valid() && Model() == E.HandleInput(old(Model()), ev, first, second)
    {
      if ev.KeyDown? {
        match state {
          case Playing =>
            PlayingHandleInput(ev.key, first);
          case Paused =>
            PausedHandleInput(ev.key);
          case LineClearing =>
          case GameOver =>
            GameOverHandleInput(ev.key, first, second);
        }
      }
    }

    /** PlayingState.update */
    method PlayingUpdate(delta: nat, pick: PieceType)
      requires Valid()
      modifies this
      ensures Valid() && Model() == E.PlayingUpdate(old(Model()), delta, pick)
    {
      fallTime := fallTime + delta;
      if fallTime >= fallSpeed {
        fallTime := 0;
        var moved := MovePiece(0, 1);
        if !moved {
          LockPiece(pick);
        }
      }
      L.PlayingUpdateValid(old(Model()), delta, pick);
    }

    /** LineClearingState.update */
    method LineClearingUpdate(delta: nat, pick: PieceType)
      requires Valid()
      modifies this
      ensures Model() == E.LineClearingUpdate(old(Model()), delta, pick)
    {
      clearAnimationTime := clearAnimationTime + delta;
      if clearAnimationTime >= ClearAnimationDuration {
        FinishClearingAnimation(pick);
        state := E.Playing;
      }
    }

    /** update: nothing once the game is over, otherwise the current state's update. */
    method Update(delta: nat, pick: PieceType)
      requires Valid()
      modifies this
      ensures Valid() && Model() == E.Update(old(Model()), delta, pick)
    {
      L.UpdateValid(Model(), delta, pick);
      if !gameOver {
        match state {
          case Playing =>
            PlayingUpdate(delta, pick);
          case LineClearing =>
            LineClearingUpdate(delta, pick);
          case _ =>
        }
      }
    }
  }
}
