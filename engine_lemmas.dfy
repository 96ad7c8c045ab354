/** Properties of the engine transitions. */
module EngineLemmas {
  import opened Config
  import opened Options
  import opened Tetromino
  import opened Board
  import opened Engine

  /** Every in-bounds piece fits into the empty grid. */
  lemma InBoundsFitsEmpty(p: Piece)
    requires InBounds(p)
    ensures Fits(EmptyGrid(), p, 0, 0)
  {
  }

  lemma SpawnValid(s: EngineState, pick: PieceType)
    requires Valid(s)
    ensures Valid(Spawn(s, pick))
  {
    NewPieceInBounds(s.next);
  }

  /** spawn_new_piece sets gameOver exactly when the new piece does not fit where it spawns. */
  lemma SpawnGameOver(s: EngineState, pick: PieceType)
    requires WellFormed(s.grid) && !s.gameOver
    ensures var r := Spawn(s, pick);
      r.canHold && r.next == pick && r.current == NewPiece(s.next) && r.grid == s.grid &&
      (r.gameOver <==> !Fits(r.grid, r.current, 0, 0)) &&
      (r.gameOver ==> r.state == GameOver)
  {
  }

  /** move_piece moves by exactly (dx, dy) when that position fits and changes nothing
      otherwise; a moved piece fits where it lands. */
  lemma MoveExact(s: EngineState, dx: int, dy: int)
    requires WellFormed(s.grid)
    ensures var r := Move(s, dx, dy);
      if Fits(s.grid, s.current, dx, dy) then
        r == s.(current := r.current) && r.current.shape == s.current.shape &&
        r.current.x == s.current.x + dx && r.current.y == s.current.y + dy &&
        Fits(r.grid, r.current, 0, 0)
      else r == s
  {
    FitsShift(s.grid, s.current, dx, dy);
  }

  lemma MoveValid(s: EngineState, dx: int, dy: int)
    requires Valid(s)
    ensures Valid(Move(s, dx, dy))
  {
    if Fits(s.grid, s.current, dx, dy) {
      FittingIsInBounds(s.grid, s.current, dx, dy);
    }
  }

  /** Offset k is the first entry of `kicks` at which p fits. */
  ghost predicate FirstFitAt(g: Grid, p: Piece, kicks: seq<(int, int)>, k: int)
    requires WellFormed(g)
  {
    0 <= k < |kicks| && Fits(g, p, kicks[k].0, kicks[k].1) &&
    forall j :: 0 <= j < k ==> !Fits(g, p, kicks[j].0, kicks[j].1)
  }

  /** rotate_piece changes only the piece, keeps its type, and changes nothing when the
      turned piece fits at none of the kick offsets. */
  lemma RotateFrame(s: EngineState)
    requires WellFormed(s.grid) && IsMatrix(s.current.shape)
    ensures var r := Rotate(s);
      r == s.(current := r.current) && r.current.kind == s.current.kind
    ensures var rp := s.current.(shape := RotateClockwise(s.current.shape));
      (forall j :: 0 <= j < |Kicks| ==> !Fits(s.grid, rp, Kicks[j].0, Kicks[j].1)) ==> Rotate(s) == s
  {
    var rp := s.current.(shape := RotateClockwise(s.current.shape));
    assert rp == RotatedClockwise(s.current);
  }

  /** After rotate_piece either nothing changed, or the shape is the clockwise turn and the
      anchor moved by the first kick offset at which it fits, so the piece fits. */
  lemma RotateOutcome(s: EngineState)
    requires WellFormed(s.grid) && IsMatrix(s.current.shape)
    ensures var r := Rotate(s); var rp := s.current.(shape := RotateClockwise(s.current.shape));
      if exists j :: 0 <= j < |Kicks| && Fits(s.grid, rp, Kicks[j].0, Kicks[j].1) then
        exists k :: FirstFitAt(s.grid, rp, Kicks, k) &&
                    r == s.(current := rp.(x := rp.x + Kicks[k].0, y := rp.y + Kicks[k].1)) &&
                    Fits(r.grid, r.current, 0, 0)
      else r == s
  {
    var rp := s.current.(shape := RotateClockwise(s.current.shape));
    if exists j :: 0 <= j < |Kicks| && Fits(s.grid, rp, Kicks[j].0, Kicks[j].1) {
      RotateFitting(s);
    } else {
      RotateFrame(s);
    }
  }

  /** The branch of RotateOutcome where some kick offset fits. */
  lemma RotateFitting(s: EngineState)
    requires WellFormed(s.grid) && IsMatrix(s.current.shape)
    requires var rp := s.current.(shape := RotateClockwise(s.current.shape));
      exists j :: 0 <= j < |Kicks| && Fits(s.grid, rp, Kicks[j].0, Kicks[j].1)
    ensures var r := Rotate(s); var rp := s.current.(shape := RotateClockwise(s.current.shape));
      exists k :: FirstFitAt(s.grid, rp, Kicks, k) &&
                  r == s.(current := rp.(x := rp.x + Kicks[k].0, y := rp.y + Kicks[k].1)) &&
                  Fits(r.grid, r.current, 0, 0)
  {
    var rp := s.current.(shape := RotateClockwise(s.current.shape));
    assert rp == RotatedClockwise(s.current);
    SomeKickFits(s.grid, rp, Kicks);
    var k := FirstFit(s.grid, rp, Kicks).value;
    RotateKicked(s, k);
    KickedOutcome(s, rp, Kicks, k, Rotate(s));
  }

  /** A state that holds rp moved by the first fitting offset k has a first fitting offset
      whose moved piece it holds, and that piece fits. */
  lemma KickedOutcome(s: EngineState, rp: Piece, kicks: seq<(int, int)>, k: nat, r: EngineState)
    requires WellFormed(s.grid) && FirstFit(s.grid, rp, kicks) == Some(k)
    requires r == s.(current := rp.(x := rp.x + kicks[k].0, y := rp.y + kicks[k].1))
    ensures exists k' :: FirstFitAt(s.grid, rp, kicks, k') &&
                         r == s.(current := rp.(x := rp.x + kicks[k'].0, y := rp.y + kicks[k'].1)) &&
                         Fits(r.grid, r.current, 0, 0)
  {
    KickFits(s.grid, rp, kicks, k);
  }

  /** Some offset is found whenever some offset fits. */
  lemma SomeKickFits(g: Grid, p: Piece, kicks: seq<(int, int)>)
    requires WellFormed(g)
    requires exists j :: 0 <= j < |kicks| && Fits(g, p, kicks[j].0, kicks[j].1)
    ensures FirstFit(g, p, kicks).Some?
  {
  }

  /** When offset k is the first that fits, rotate_piece moves the turned piece by it. */
  lemma RotateKicked(s: EngineState, k: nat)
    requires WellFormed(s.grid) && IsMatrix(s.current.shape)
    requires FirstFit(s.grid, RotatedClockwise(s.current), Kicks) == Some(k)
    ensures k < |Kicks|
    ensures var rp := RotatedClockwise(s.current);
      Rotate(s) == s.(current := rp.(x := rp.x + Kicks[k].0, y := rp.y + Kicks[k].1))
  {
  }


  /** The first fitting offset is recorded by FirstFitAt, and the moved piece fits. */
  lemma KickFits(g: Grid, rp: Piece, kicks: seq<(int, int)>, k: nat)
    requires WellFormed(g) && FirstFit(g, rp, kicks) == Some(k)
    ensures FirstFitAt(g, rp, kicks, k)
    ensures Fits(g, rp.(x := rp.x + kicks[k].0, y := rp.y + kicks[k].1), 0, 0)
  {
    FitsShift(g, rp, kicks[k].0, kicks[k].1);
  }

  lemma RotateValid(s: EngineState)
    requires Valid(s)
    ensures Valid(Rotate(s))
  {
    var rp := RotatedClockwise(s.current);
    match FirstFit(s.grid, rp, Kicks)
    case None =>
    case Some(k) =>
      FittingIsInBounds(s.grid, rp, Kicks[k].0, Kicks[k].1);
  }

  /** The ghost piece has the current shape and column, lies at or below the current piece,
      cannot move down, and the piece fits at every row on the way. */
  lemma GhostLands(s: EngineState)
    requires WellFormed(s.grid) && HasBlock(s.current.shape)
    ensures var g := Ghost(s);
      g.kind == s.current.kind && g.shape == s.current.shape && g.x == s.current.x &&
      g.y >= s.current.y && !Fits(s.grid, g, 0, 1) &&
      forall k :: 0 < k <= g.y - s.current.y ==> Fits(s.grid, s.current, 0, k)
  {
    var d := DropDistance(s.grid, s.current);
    FitsShift(s.grid, s.current, 0, d);
  }

  /** The ghost piece is in bounds whenever the current piece is. */
  lemma GhostOk(s: EngineState)
    requires Valid(s)
    ensures PieceOk(Ghost(s))
  {
    var d := DropDistance(s.grid, s.current);
    if d > 0 {
      FittingIsInBounds(s.grid, s.current, 0, d);
    }
  }

  /** clear_lines: nothing changes without full rows; otherwise the full rows are recorded,
      counted and scored at the old level, and level and fall interval follow the line total. */
  lemma ClearLinesOutcome(s: EngineState)
    requires Valid(s)
    ensures var r := ClearLines(s); var rows := FullRows(s.grid);
      if rows == [] then r == s
      else
        r.grid == s.grid && r.current == s.current && r.clearingLines == rows &&
        (forall y :: y in r.clearingLines <==> 0 <= y < GridHeight && RowFull(s.grid[y])) &&
        r.linesCleared == s.linesCleared + |rows| &&
        r.score == s.score + LineScore(|rows|) * s.level &&
        s.level <= r.level == LevelFor(r.linesCleared) &&
        MinFallSpeed <= r.fallSpeed == FallSpeedFor(r.level) <= s.fallSpeed &&
        r.state == LineClearing && r.clearAnimationTime == 0
  {
    var rows := FullRows(s.grid);
    if rows != [] {
      LevelForMonotone(s.linesCleared, s.linesCleared + |rows|);
      FallSpeedMonotone(s.level, LevelFor(s.linesCleared + |rows|));
    }
  }

  /** A clear of at most LinesPerLevel rows raises the level by at most one. */
  lemma ClearLinesLevelStep(s: EngineState)
    requires Valid(s) && |FullRows(s.grid)| <= LinesPerLevel
    ensures s.level <= ClearLines(s).level <= s.level + 1
  {
    ClearLinesOutcome(s);
    LevelForStep(s.linesCleared, |FullRows(s.grid)|);
  }

  lemma ClearLinesValid(s: EngineState)
    requires Valid(s)
    ensures Valid(ClearLines(s))
  {
    ClearLinesOutcome(s);
  }

  lemma LockValid(s: EngineState, pick: PieceType)
    requires Valid(s)
    ensures Valid(Lock(s, pick))
  {
    var s0 := s.(grid := Stamp(s.grid, s.current));
    ClearLinesValid(s0);
    var s1 := ClearLines(s0);
    if s1.clearingLines == [] {
      SpawnValid(s1, pick);
    }
  }

  /** lock_piece writes the piece's colour into exactly its blocks on the visible grid, and
      spawns at once exactly when no row is full. */
  lemma LockOutcome(s: EngineState, pick: PieceType)
    requires Valid(s) && s.clearingLines == []
    ensures var r := Lock(s, pick);
      WellFormed(r.grid) &&
      (forall y, x :: 0 <= y < GridHeight && 0 <= x < GridWidth ==>
        r.grid[y][x] == if (x, y) in Blocks(s.current) then Block(ColorOf(s.current.kind)) else s.grid[y][x]) &&
      (r.clearingLines == [] <==> FullRows(r.grid) == []) &&
      (r.clearingLines == [] ==> r.current == NewPiece(s.next) && r.next == pick && r.canHold) &&
      (r.clearingLines != [] ==> r.current == s.current && r.next == s.next && r.state == LineClearing)
  {
    var g := Stamp(s.grid, s.current);
    StampExact(s.grid, s.current);
    var s1 := ClearLines(s.(grid := g));
    assert s1.grid == g && s1.current == s.current && s1.next == s.next;
    assert s1.clearingLines == [] <==> FullRows(g) == [];
    if s1.clearingLines == [] {
      assert Lock(s, pick) == Spawn(s1, pick);
    } else {
      assert Lock(s, pick) == s1;
    }
  }

  /** hard_drop locks the piece exactly where the ghost piece is, after crediting
      HardDropBonus points for each row it fell. */
  lemma HardDropLandsOnGhost(s: EngineState, pick: PieceType)
    requires Valid(s)
    ensures HardDrop(s, pick).grid == Stamp(s.grid, Ghost(s))
    ensures var rows := FullRows(Stamp(s.grid, Ghost(s)));
      HardDrop(s, pick).score ==
        s.score + (Ghost(s).y - s.current.y) * HardDropBonus +
        (if rows == [] then 0 else LineScore(|rows|) * s.level)
  {
    DroppedValid(s);
    LockNoLoss(Dropped(s), pick);
  }

  lemma DroppedValid(s: EngineState)
    requires Valid(s)
    ensures Valid(Dropped(s))
  {
    GhostOk(s);
  }

  lemma HardDropValid(s: EngineState, pick: PieceType)
    requires Valid(s)
    ensures Valid(HardDrop(s, pick))
  {
    DroppedValid(s);
    LockValid(Dropped(s), pick);
  }

  lemma FinishClearingValid(s: EngineState, pick: PieceType)
    requires Valid(s)
    ensures Valid(FinishClearing(s, pick))
  {
    if s.clearingLines != [] {
      SpawnValid(s.(grid := RemoveRowsAsWritten(s.grid, s.clearingLines), clearingLines := []), pick);
    }
  }

  /** finish_clearing_animation for one recorded row removes exactly that row, puts an empty
      row on top, empties the record and spawns. */
  lemma FinishClearingOneRow(s: EngineState, pick: PieceType, y: int)
    requires Valid(s) && s.clearingLines == [y]
    ensures var r := FinishClearing(s, pick);
      r.grid == [EmptyRow()] + Kept(s.grid, [y]) && r.clearingLines == [] &&
      r.current == NewPiece(s.next) && r.next == pick && r.canHold
  {
    assert s.clearingLines[0] == y;
    SingleRowRemovalExact(s.grid, y);
  }

  /** finish_clearing_animation, for any number of recorded rows, empties the record and
      spawns the next piece, which re-enables holding. */
  lemma FinishClearingSpawns(s: EngineState, pick: PieceType)
    requires Valid(s) && s.clearingLines != []
    ensures var r := FinishClearing(s, pick);
      r.clearingLines == [] && r.current == NewPiece(s.next) && r.next == pick && r.canHold
  {
  }

  /** hold_current_piece: stores the current type (spawning the next piece) or swaps it with
      the held type (a fresh spawn-position piece); either way holding is then used up. */
  lemma HoldOutcome(s: EngineState, pick: PieceType)
    requires WellFormed(s.grid) && s.canHold
    ensures var r := Hold(s, pick);
      !r.canHold && r.hold == Some(s.current.kind) && r.grid == s.grid && r.score == s.score &&
      match s.hold
      case None => r.current == NewPiece(s.next) && r.next == pick
      case Some(h) => r.current == NewPiece(h) && r.next == s.next && r.gameOver == s.gameOver
  {
  }

  /** A second hold with no spawn in between changes nothing. */
  lemma HoldTwiceIsHoldOnce(s: EngineState, p1: PieceType, p2: PieceType)
    requires WellFormed(s.grid)
    ensures WellFormed(Hold(s, p1).grid)
    ensures Hold(Hold(s, p1), p2) == Hold(s, p1)
  {
  }

  /** hold_current_piece changes nothing exactly when holding is used up. */
  lemma HoldOnlyWhenAllowed(s: EngineState, pick: PieceType)
    requires WellFormed(s.grid)
    ensures Hold(s, pick) == s <==> !s.canHold
  {
  }

  /** Only the keys that can spawn (hard drop, and hold itself) can re-enable holding: after
      any other key in PlayingState, or in PausedState, a used-up hold stays used up, so a
      further hold changes nothing. */
  lemma InputKeepsHoldUsedUp(s: EngineState, k: Key, pick: PieceType, p2: PieceType)
    requires Valid(s) && !s.canHold && k != Space && k != C
    ensures var r := PlayingInput(s, k, pick);
      !r.canHold && Hold(r, p2) == r
    ensures var r := PausedInput(s, k);
      !r.canHold && Hold(r, p2) == r
  {
    var r := PlayingInput(s, k, pick);
    if k == Up {
      RotateFrame(s);
    }
    HoldOnlyWhenAllowed(r, p2);
  }

  /** A gravity tick that does not lock the piece (the interval has not run out, or the piece
      can still fall) keeps a used-up hold used up, so a further hold changes nothing. */
  lemma GravityKeepsHoldUsedUp(s: EngineState, delta: nat, pick: PieceType, p2: PieceType)
    requires Valid(s) && !s.canHold
    requires s.fallTime + delta < s.fallSpeed || Fits(s.grid, s.current, 0, 1)
    ensures var r := PlayingUpdate(s, delta, pick);
      !r.canHold && Hold(r, p2) == r
  {
  }

  /** After a hold, moves, turns, soft drops and the G and P keys leave the next hold a
      no-op: holding is re-enabled only by a spawn. */
  lemma HoldThenInputThenHold(s: EngineState, p1: PieceType, k: Key, pick: PieceType, p2: PieceType)
    requires Valid(s) && k != Space && k != C
    ensures Valid(Hold(s, p1))
    ensures var h := Hold(s, p1); var r := PlayingInput(h, k, pick);
      Hold(r, p2) == r
  {
    HoldValid(s, p1);
    var h := Hold(s, p1);
    if s.canHold {
      HoldOutcome(s, p1);
    }
    InputKeepsHoldUsedUp(h, k, pick, p2);
  }

  lemma HoldValid(s: EngineState, pick: PieceType)
    requires Valid(s)
    ensures Valid(Hold(s, pick))
  {
    if s.canHold {
      match s.hold
      case None => SpawnValid(s.(hold := Some(s.current.kind)), pick);
      case Some(h) => NewPieceInBounds(h);
    }
  }

  /** reset_game starts a fresh game in Playing whatever the old state was. */
  lemma ResetOutcome(s: EngineState, first: PieceType, second: PieceType)
    ensures var r := Reset(s, first, second);
      Valid(r) && !r.gameOver && r.state == Playing && r.score == 0 && r.level == 1 &&
      r.linesCleared == 0 && r.hold == None && r.canHold && r.clearingLines == [] &&
      r.grid == EmptyGrid() && r.current == NewPiece(first) && r.next == second
  {
    NewPieceInBounds(first);
  }

  lemma InitialOutcome(first: PieceType, second: PieceType)
    ensures var r := Initial(first, second);
      Valid(r) && !r.gameOver && r.state == Playing && r.current == NewPiece(first) &&
      r.next == second && r.score == 0
  {
    NewPieceInBounds(first);
  }

  lemma PlayingInputValid(s: EngineState, k: Key, pick: PieceType)
    requires Valid(s)
    ensures Valid(PlayingInput(s, k, pick))
  {
    match k {
      case Left => MoveValid(s, -1, 0);
      case Right => MoveValid(s, 1, 0);
      case Down => MoveValid(s, 0, 1);
      case Up => RotateValid(s);
      case Space => HardDropValid(s, pick);
      case C => HoldValid(s, pick);
      case _ =>
    }
  }

  lemma HandleInputValid(s: EngineState, ev: Event, first: PieceType, second: PieceType)
    requires Valid(s)
    ensures Valid(HandleInput(s, ev, first, second))
  {
    if ev.KeyDown? {
      if s.state == Playing {
        PlayingInputValid(s, ev.key, first);
      } else if s.state == GameOver {
        ResetOutcome(s, first, second);
      }
    }
  }

  lemma PlayingUpdateValid(s: EngineState, delta: nat, pick: PieceType)
    requires Valid(s)
    ensures Valid(PlayingUpdate(s, delta, pick))
  {
    var s1 := s.(fallTime := 0);
    MoveValid(s1, 0, 1);
    LockValid(s1, pick);
  }

  lemma LineClearingUpdateValid(s: EngineState, delta: nat, pick: PieceType)
    requires Valid(s)
    ensures Valid(LineClearingUpdate(s, delta, pick))
  {
    FinishClearingValid(s.(clearAnimationTime := s.clearAnimationTime + delta), pick);
  }

  lemma UpdateValid(s: EngineState, delta: nat, pick: PieceType)
    requires Valid(s)
    ensures Valid(Update(s, delta, pick))
  {
    if !s.gameOver {
      if s.state == Playing {
        PlayingUpdateValid(s, delta, pick);
      } else if s.state == LineClearing {
        LineClearingUpdateValid(s, delta, pick);
      }
    }
  }

  /** Quirk: when the animation ends and the spawn inside finish_clearing_animation is
      blocked, gameOver is set but the session state is still switched to Playing. */
  lemma ClearingEndsInPlayingEvenWhenOver(s: EngineState, delta: nat, pick: PieceType)
    requires Valid(s) && !s.gameOver && s.state == LineClearing && s.clearingLines != []
    requires s.clearAnimationTime + delta >= ClearAnimationDuration
    ensures var r := Update(s, delta, pick);
      r.state == Playing && r.clearingLines == [] &&
      r.grid == RemoveRowsAsWritten(s.grid, s.clearingLines) &&
      (r.gameOver <==> !Fits(r.grid, NewPiece(s.next), 0, 0))
  {
  }

  /** `r` with gameOver also set when `over` is. */
  function Flagged(r: EngineState, over: bool): EngineState
  {
    r.(gameOver := r.gameOver || over)
  }

  lemma SpawnIgnoresFlag(s: EngineState, pick: PieceType)
    requires WellFormed(s.grid)
    ensures Spawn(s, pick) == Flagged(Spawn(s.(gameOver := false), pick), s.gameOver)
  {
  }

  lemma LockIgnoresFlag(s: EngineState, pick: PieceType)
    requires WellFormed(s.grid)
    ensures Lock(s, pick) == Flagged(Lock(s.(gameOver := false), pick), s.gameOver)
  {
    var t := s.(gameOver := false);
    var s1 := ClearLines(s.(grid := Stamp(s.grid, s.current)));
    var t1 := ClearLines(t.(grid := Stamp(t.grid, t.current)));
    assert s1 == t1.(gameOver := s.gameOver);
    if s1.clearingLines == [] {
      SpawnIgnoresFlag(s1, pick);
      assert s1.(gameOver := false) == t1;
    }
  }

  lemma MoveIgnoresFlag(s: EngineState, dx: int, dy: int)
    requires WellFormed(s.grid)
    ensures Move(s, dx, dy) == Flagged(Move(s.(gameOver := false), dx, dy), s.gameOver)
  {
  }

  lemma RotateIgnoresFlag(s: EngineState)
    requires WellFormed(s.grid) && IsMatrix(s.current.shape)
    ensures Rotate(s) == Flagged(Rotate(s.(gameOver := false)), s.gameOver)
  {
  }

  lemma HardDropIgnoresFlag(s: EngineState, pick: PieceType)
    requires WellFormed(s.grid) && HasBlock(s.current.shape)
    ensures HardDrop(s, pick) == Flagged(HardDrop(s.(gameOver := false), pick), s.gameOver)
  {
    var t := s.(gameOver := false);
    assert Dropped(t) == Dropped(s).(gameOver := false);
    LockIgnoresFlag(Dropped(s), pick);
  }

  lemma HoldIgnoresFlag(s: EngineState, pick: PieceType)
    requires WellFormed(s.grid)
    ensures Hold(s, pick) == Flagged(Hold(s.(gameOver := false), pick), s.gameOver)
  {
    if s.canHold && s.hold.None? {
      SpawnIgnoresFlag(s.(hold := Some(s.current.kind)), pick);
    }
  }

  lemma PlayingInputIgnoresFlag(s: EngineState, k: Key, pick: PieceType)
    requires Valid(s)
    ensures Valid(s.(gameOver := false))
    ensures PlayingInput(s, k, pick) == Flagged(PlayingInput(s.(gameOver := false), k, pick), s.gameOver)
  {
    match k {
      case Left => MoveIgnoresFlag(s, -1, 0);
      case Right => MoveIgnoresFlag(s, 1, 0);
      case Down => MoveIgnoresFlag(s, 0, 1);
      case Up => RotateIgnoresFlag(s);
      case Space => HardDropIgnoresFlag(s, pick);
      case C => HoldIgnoresFlag(s, pick);
      case _ =>
    }
  }

  lemma PlayingHandleIgnoresFlag(s: EngineState, k: Key, first: PieceType, second: PieceType)
    requires Valid(s) && s.state == Playing
    ensures Valid(s.(gameOver := false))
    ensures HandleInput(s, KeyDown(k), first, second) ==
            Flagged(HandleInput(s.(gameOver := false), KeyDown(k), first, second), s.gameOver)
  {
    PlayingInputIgnoresFlag(s, k, first);
  }

  /** Quirk: input handling ignores the gameOver flag: outside GameOverState the same input
      has the same effect whether or not the game has ended, apart from the flag itself. */
  lemma InputIgnoresGameOverFlag(s: EngineState, ev: Event, first: PieceType, second: PieceType)
    requires Valid(s) && s.state != GameOver
    ensures HandleInput(s, ev, first, second) ==
            Flagged(HandleInput(s.(gameOver := false), ev, first, second), s.gameOver)
  {
    if ev.KeyDown? && s.state == Playing {
      PlayingHandleIgnoresFlag(s, ev.key, first, second);
    }
  }

  /** Once gameOver is set while the rows animation is pending, the game never moves again:
      updates are skipped and LineClearingState ignores every key, including restart. */
  lemma OverDuringClearingIsStuck(s: EngineState, ev: Event, delta: nat, first: PieceType, second: PieceType)
    requires Valid(s) && s.gameOver && s.state == LineClearing
    ensures Update(s, delta, first) == s && HandleInput(s, ev, first, second) == s
  {
  }

  /** Score, level and line total never decrease, except through restart. */
  ghost predicate NoLoss(s: EngineState, r: EngineState)
  {
    s.score <= r.score && s.level <= r.level && s.linesCleared <= r.linesCleared
  }

  lemma LockNoLoss(s: EngineState, pick: PieceType)
    requires Valid(s)
    ensures NoLoss(s, Lock(s, pick))
  {
    ClearLinesOutcome(s.(grid := Stamp(s.grid, s.current)));
  }

  lemma PlayingUpdateNoLoss(s: EngineState, delta: nat, pick: PieceType)
    requires Valid(s)
    ensures NoLoss(s, PlayingUpdate(s, delta, pick))
  {
    var s1 := s.(fallTime := 0);
    var landed := !Fits(s.grid, s.current, 0, 1);
    if s.fallTime + delta >= s.fallSpeed && landed {
      LockNoLoss(s1, pick);
      assert PlayingUpdate(s, delta, pick) == Lock(s1, pick);
    }
  }

  /** Removing rows and spawning keeps every counter. */
  lemma LineClearingUpdateNoLoss(s: EngineState, delta: nat, pick: PieceType)
    requires Valid(s) && !s.gameOver && s.state == LineClearing
    ensures var r := Update(s, delta, pick);
      r.score == s.score && r.level == s.level && r.linesCleared == s.linesCleared
  {
  }

  lemma UpdateNoLoss(s: EngineState, delta: nat, pick: PieceType)
    requires Valid(s)
    ensures NoLoss(s, Update(s, delta, pick))
  {
    if !s.gameOver && s.state == Playing {
      PlayingUpdateNoLoss(s, delta, pick);
      assert Update(s, delta, pick) == PlayingUpdate(s, delta, pick);
    } else if !s.gameOver && s.state == LineClearing {
      LineClearingUpdateNoLoss(s, delta, pick);
    }
  }

  lemma HandleInputNoLoss(s: EngineState, ev: Event, first: PieceType, second: PieceType)
    requires Valid(s) && !(s.state == GameOver && ev == KeyDown(R))
    ensures NoLoss(s, HandleInput(s, ev, first, second))
  {
    if ev.KeyDown? && s.state == Playing {
      PlayingInputNoLoss(s, ev.key, first);
    }
  }

  lemma HardDropNoLoss(s: EngineState, pick: PieceType)
    requires Valid(s)
    ensures NoLoss(s, PlayingInput(s, Space, pick))
  {
    DroppedValid(s);
    LockNoLoss(Dropped(s), pick);
  }

  lemma PlayingInputNoLoss(s: EngineState, k: Key, pick: PieceType)
    requires Valid(s)
    ensures NoLoss(s, PlayingInput(s, k, pick))
  {
    if k == Space {
      HardDropNoLoss(s, pick);
    }
  }
}
