/**
 * The rules as functions on the game state: where a dropped piece lands, what
 * one move does (placement, win detection, capture, scoring, turn, end of game),
 * the reset, the winner, the Quick-Fire target and the snapshot defaults.
 */
module Rules {
  import opened Board
  import opened Lines
  import opened Capture

  // ----- Landing -----

  /** The largest open row r <= top in column col, scanning upward from `top`. */
  function LandingFrom(grid: seq<seq<int>>, blocked: set<Cell>, cfg: Config, col: int, top: int): (r: Option<int>)
    requires WellShaped(grid, cfg)
    ensures r.Some? ==> 0 <= r.value <= top && IsOpen(grid, blocked, cfg, r.value, col)
    ensures r.Some? ==> forall r' :: r.value < r' <= top ==> !IsOpen(grid, blocked, cfg, r', col)
    ensures r.None? ==> forall r' :: r' <= top ==> !IsOpen(grid, blocked, cfg, r', col)
    decreases top + 1
  {
    if top < 0 then None
    else if IsOpen(grid, blocked, cfg, top, col) then Some(top)
    else LandingFrom(grid, blocked, cfg, col, top - 1)
  }

  /** The row a piece dropped into column col lands in, if any. */
  function LandingRow(grid: seq<seq<int>>, blocked: set<Cell>, cfg: Config, col: int): Option<int>
    requires WellShaped(grid, cfg)
  {
    LandingFrom(grid, blocked, cfg, col, cfg.rows - 1)
  }

  /** Some cell anywhere is empty and unblocked. */
  ghost predicate AnyOpen(grid: seq<seq<int>>, blocked: set<Cell>, cfg: Config)
    requires WellShaped(grid, cfg)
  {
    exists r, c :: IsOpen(grid, blocked, cfg, r, c)
  }

  // ----- One move -----

  /** The current player's piece written at (row, col), recorded as the last move. */
  function Place(s: GameState, row: int, col: int): GameState
    requires 0 <= row < |s.grid| && 0 <= col < |s.grid[row]|
  {
    s.(grid := s.grid[row := s.grid[row][col := s.currentPlayer]], lastMove := Some((row, col)))
  }

  lemma PlaceShaped(s: GameState, cfg: Config, row: int, col: int)
    requires WellShaped(s.grid, cfg) && InBounds(cfg, row, col)
    ensures WellShaped(Place(s, row, col).grid, cfg)
  {
  }

  /** Classic and Quick-Fire scoring credit one game to the capturing player. */
  function AwardWin(s: GameState, cfg: Config, p: int): GameState {
    if s.scoringMode == Classic || s.scoringMode == QuickFire then
      if p == cfg.red then s.(red := s.red + 1) else s.(blue := s.blue + 1)
    else s
  }

  /** The Quick-Fire target has been reached by either side. */
  predicate TargetReached(s: GameState) {
    s.scoringMode == QuickFire && (s.red >= s.quickFireTarget || s.blue >= s.quickFireTarget)
  }

  /** The end-of-game check run after each move. */
  ghost function EndCheck(s: GameState, cfg: Config): GameState
    requires WellShaped(s.grid, cfg)
  {
    if TargetReached(s) || !AnyOpen(s.grid, s.blocked, cfg) then s.(active := false) else s
  }

  /** The winning line, if any, that the piece just placed at (row, col) completes. */
  ghost function WinAfterPlacing(s: GameState, cfg: Config, row: int, col: int): Option<seq<Cell>>
    requires ValidConfig(cfg) && WellShaped(s.grid, cfg) && InBounds(cfg, row, col)
  {
    PlaceShaped(s, cfg, row, col);
    var placed := Place(s, row, col);
    WinningLine(placed.grid, placed.blocked, cfg, row, col)
  }

  /**
   * The current player's piece lands at (row, col): it is placed, and any line
   * it completes is captured and scored.
   */
  ghost function Land(s: GameState, cfg: Config, row: int, col: int): GameState
    requires ValidConfig(cfg) && WellShaped(s.grid, cfg) && InBounds(cfg, row, col)
  {
    PlaceShaped(s, cfg, row, col);
    var placed := Place(s, row, col);
    var won := WinAfterPlacing(s, cfg, row, col);
    var captured := if won.Some? then CaptureEffect(placed, cfg, won.value, s.currentPlayer) else placed;
    if won.Some? then AwardWin(captured, cfg, s.currentPlayer) else captured
  }

  /** A whole drop at (row, col): the piece lands, the turn passes and the end is checked. */
  ghost function Drop(s: GameState, cfg: Config, row: int, col: int): GameState
    requires ValidConfig(cfg) && WellShaped(s.grid, cfg) && InBounds(cfg, row, col)
  {
    PlaceShaped(s, cfg, row, col);
    EndCheck(Land(s, cfg, row, col).(currentPlayer := Other(cfg, s.currentPlayer)), cfg)
  }

  /**
   * One drop into column col by the current player: the new state, and whether
   * a piece was placed.
   */
  ghost function Play(s: GameState, cfg: Config, col: int): (GameState, bool)
    requires ValidConfig(cfg) && WellShaped(s.grid, cfg)
  {
    if !s.active then (s, false)
    else
      match LandingRow(s.grid, s.blocked, cfg, col)
      case None => (s, false)
      case Some(row) => (Drop(s, cfg, row, col), true)
  }

  /**
   * A drop is refused, and changes nothing, exactly when the game is over or no
   * row of the column is both empty and unblocked; a column outside the grid
   * never has such a row.
   */
  lemma PlayRefusals(s: GameState, cfg: Config, col: int)
    requires ValidConfig(cfg) && WellShaped(s.grid, cfg)
    ensures Play(s, cfg, col).1 <==> s.active && exists r :: IsOpen(s.grid, s.blocked, cfg, r, col)
    ensures !Play(s, cfg, col).1 ==> Play(s, cfg, col).0 == s
    ensures !(0 <= col < cfg.cols) ==> !Play(s, cfg, col).1
  {
    var landing := LandingRow(s.grid, s.blocked, cfg, col);
    if landing.None? {
      forall r ensures !IsOpen(s.grid, s.blocked, cfg, r, col) {
        if r > cfg.rows - 1 { assert !InBounds(cfg, r, col); }
      }
    }
  }

  /**
   * A successful drop writes the mover at the lowest open row of the column
   * (every row below it is occupied or blocked), changes no other cell, records
   * the move and passes the turn, win or not.
   */
  lemma PlayPlaces(s: GameState, cfg: Config, col: int)
    requires ValidConfig(cfg) && WellShaped(s.grid, cfg)
    requires Play(s, cfg, col).1
    ensures var t := Play(s, cfg, col).0;
      exists row ::
        && IsOpen(s.grid, s.blocked, cfg, row, col)
        && (forall r :: row < r < cfg.rows ==> !IsOpen(s.grid, s.blocked, cfg, r, col))
        && WellShaped(t.grid, cfg)
        && t.grid[row][col] == s.currentPlayer
        && (forall r, c :: InBounds(cfg, r, c) && (r, c) != (row, col) ==> t.grid[r][c] == s.grid[r][c])
        && t.lastMove == Some((row, col))
  {
    var row := LandingRow(s.grid, s.blocked, cfg, col).value;
    PlayFrame(s, cfg, col);
    assert IsOpen(s.grid, s.blocked, cfg, row, col);
  }

  /** What a drop leaves alone: the grid beyond the placed piece, the turn order and the settings. */
  lemma PlayFrame(s: GameState, cfg: Config, col: int)
    requires ValidConfig(cfg) && WellShaped(s.grid, cfg)
    requires Play(s, cfg, col).1
    ensures var t := Play(s, cfg, col).0;
      var row := LandingRow(s.grid, s.blocked, cfg, col).value;
      && t.grid == Place(s, row, col).grid
      && t.lastMove == Some((row, col))
      && t.currentPlayer == Other(cfg, s.currentPlayer)
      && t.scoringMode == s.scoringMode && t.gameMode == s.gameMode
      && t.aiDifficulty == s.aiDifficulty && t.quickFireTarget == s.quickFireTarget
  {
    var row := LandingRow(s.grid, s.blocked, cfg, col).value;
    var placed := Place(s, row, col);
    var won := WinAfterPlacing(s, cfg, row, col);
    if won.Some? {
      CaptureBlocksRectangle(placed, cfg, won.value, s.currentPlayer);
    }
  }

  /**
   * Under Classic and Quick-Fire scoring a drop that completes a line adds
   * exactly one to the mover's score (RED's when RED moved, BLUE's otherwise),
   * any other drop leaves both scores alone, and ownership is never touched.
   */
  lemma PlayScoresClassic(s: GameState, cfg: Config, col: int)
    requires ValidConfig(cfg) && WellShaped(s.grid, cfg)
    requires s.scoringMode == Classic || s.scoringMode == QuickFire
    requires Play(s, cfg, col).1
    ensures var t := Play(s, cfg, col).0;
      var row := LandingRow(s.grid, s.blocked, cfg, col).value;
      var won := WinAfterPlacing(s, cfg, row, col).Some?;
      && t.red == s.red + (if won && s.currentPlayer == cfg.red then 1 else 0)
      && t.blue == s.blue + (if won && s.currentPlayer != cfg.red then 1 else 0)
      && t.ownership == s.ownership
  {
    var row := LandingRow(s.grid, s.blocked, cfg, col).value;
    var placed := Place(s, row, col);
    var won := WinAfterPlacing(s, cfg, row, col);
    if won.Some? {
      CaptureScoresOnlyArea(placed, cfg, won.value, s.currentPlayer);
    }
  }

  /**
   * Blocked cells only accumulate: a drop without a win blocks nothing new, and
   * a winning drop blocks the bounding rectangle of what it captures, which lies
   * inside the grid.
   */
  lemma PlayBlocks(s: GameState, cfg: Config, col: int)
    requires ValidConfig(cfg) && WellShaped(s.grid, cfg)
    ensures var t := Play(s, cfg, col).0;
      && s.blocked <= t.blocked
      && t.blocked - s.blocked <= Box(cfg)
      && (Play(s, cfg, col).1 && WinAfterPlacing(s, cfg, LandingRow(s.grid, s.blocked, cfg, col).value, col).None? ==>
            t.blocked == s.blocked)
  {
    if Play(s, cfg, col).1 {
      var row := LandingRow(s.grid, s.blocked, cfg, col).value;
      var placed := Place(s, row, col);
      var won := WinAfterPlacing(s, cfg, row, col);
      if won.Some? {
        var d :| 0 <= d < |cfg.directions| && won.value == LineThrough(placed.grid, placed.blocked, cfg, row, col, cfg.directions[d], placed.grid[row][col]) by {
          FirstWinningSpec(placed.grid, placed.blocked, cfg, row, col, cfg.directions);
        }
        LineCellsHeld(placed.grid, placed.blocked, cfg, row, col, cfg.directions[d]);
        forall x | x in won.value ensures x in Box(cfg) {
          InBoundsInBox(cfg, x);
        }
        CaptureBlocksRectangle(placed, cfg, won.value, s.currentPlayer);
      }
    }
  }

  lemma InBoundsInBox(cfg: Config, x: Cell)
    requires InBounds(cfg, x.0, x.1)
    ensures x in Box(cfg)
  {
    assert x == (x.0, x.1);
  }

  /**
   * After a successful drop the game is still on exactly when the Quick-Fire
   * target is not reached and some cell is still empty and unblocked.
   */
  lemma PlayEnds(s: GameState, cfg: Config, col: int)
    requires ValidConfig(cfg) && WellShaped(s.grid, cfg)
    requires Play(s, cfg, col).1
    ensures var t := Play(s, cfg, col).0;
      WellShaped(t.grid, cfg) &&
      (t.active <==> !TargetReached(t) && AnyOpen(t.grid, t.blocked, cfg))
  {
    PlayFrame(s, cfg, col);
  }

  /**
   * Under Territory scoring a drop by RED or BLUE keeps each score equal to the
   * number of cells credited to that side, and hands the turn to RED or BLUE.
   */
  lemma PlayKeepsBalance(s: GameState, cfg: Config, col: int)
    requires ValidConfig(cfg) && WellShaped(s.grid, cfg)
    requires s.scoringMode == Area && Balanced(s, cfg)
    requires s.currentPlayer == cfg.red || s.currentPlayer == cfg.blue
    ensures var t := Play(s, cfg, col).0;
      && Balanced(t, cfg) && WellShaped(t.grid, cfg) && t.scoringMode == Area
      && (t.currentPlayer == cfg.red || t.currentPlayer == cfg.blue)
  {
    if Play(s, cfg, col).1 {
      var row := LandingRow(s.grid, s.blocked, cfg, col).value;
      var placed := Place(s, row, col);
      var won := WinAfterPlacing(s, cfg, row, col);
      PlayFrame(s, cfg, col);
      if won.Some? {
        CaptureKeepsBalance(placed, cfg, won.value, s.currentPlayer);
      }
    }
  }

  /** The state after a sequence of drops. */
  ghost function Replay(s: GameState, cfg: Config, cols: seq<int>): (t: GameState)
    requires ValidConfig(cfg) && WellShaped(s.grid, cfg)
    ensures WellShaped(t.grid, cfg)
    decreases |cols|
  {
    if |cols| == 0 then s
    else
      var next := Play(s, cfg, cols[0]).0;
      assert WellShaped(next.grid, cfg) by {
        if Play(s, cfg, cols[0]).1 { PlayEnds(s, cfg, cols[0]); }
      }
      Replay(next, cfg, cols[1..])
  }

  /**
   * Territory accounting over a whole game: from a balanced state (a reset one,
   * say) every sequence of drops keeps the scores equal to the credited counts.
   */
  lemma {:induction false} ReplayKeepsBalance(s: GameState, cfg: Config, cols: seq<int>)
    requires ValidConfig(cfg) && WellShaped(s.grid, cfg)
    requires s.scoringMode == Area && Balanced(s, cfg)
    requires s.currentPlayer == cfg.red || s.currentPlayer == cfg.blue
    ensures Balanced(Replay(s, cfg, cols), cfg)
    decreases |cols|
  {
    if |cols| > 0 {
      PlayKeepsBalance(s, cfg, cols[0]);
      ReplayKeepsBalance(Play(s, cfg, cols[0]).0, cfg, cols[1..]);
    }
  }

  /** Blocked cells only accumulate over any sequence of drops. */
  lemma {:induction false} ReplayGrowsBlocked(s: GameState, cfg: Config, cols: seq<int>)
    requires ValidConfig(cfg) && WellShaped(s.grid, cfg)
    ensures s.blocked <= Replay(s, cfg, cols).blocked
    decreases |cols|
  {
    if |cols| > 0 {
      PlayBlocks(s, cfg, cols[0]);
      ReplayGrowsBlocked(Play(s, cfg, cols[0]).0, cfg, cols[1..]);
    }
  }

  // ----- Reset -----

  function EmptyGrid(cfg: Config): seq<seq<int>>
    requires cfg.rows >= 0 && cfg.cols >= 0
  {
    seq(cfg.rows, _ => seq(cfg.cols, _ => 0))
  }

  /** A new game on the same settings: empty grid, RED to move, nothing blocked or credited, scores zero. */
  function Reset(s: GameState, cfg: Config): GameState
    requires ValidConfig(cfg)
  {
    s.(grid := EmptyGrid(cfg), currentPlayer := cfg.red, blocked := {}, red := 0, blue := 0,
       active := true, lastMove := None, ownership := map[])
  }

  /** A reset game is well shaped, balanced, and every cell is open. */
  lemma ResetFresh(s: GameState, cfg: Config)
    requires ValidConfig(cfg)
    ensures var t := Reset(s, cfg);
      && WellShaped(t.grid, cfg)
      && Balanced(t, cfg)
      && (forall r, c :: InBounds(cfg, r, c) ==> IsOpen(t.grid, t.blocked, cfg, r, c))
      && AnyOpen(t.grid, t.blocked, cfg)
  {
    var t := Reset(s, cfg);
    assert IsOpen(t.grid, t.blocked, cfg, 0, 0);
  }

  // ----- Winner -----

  /** ASCII upper-casing of the first character. */
  function Capitalized(s: string): string {
    if |s| == 0 then s
    else if 'a' <= s[0] <= 'z' then [(s[0] as int - 32) as char] + s[1..]
    else s
  }

  /** " - Level" after the computer's label when a difficulty is set. */
  function DifficultySuffix(d: Option<string>): string {
    if d.Some? && d.value != "" then " - " + Capitalized(d.value) else ""
  }

  /**
   * The end-of-game label: the strictly higher score wins, equal scores are a
   * tie; against the computer RED is "You" and BLUE the computer.
   */
  function WinnerLabel(red: int, blue: int, mode: Option<GameMode>, difficulty: Option<string>): (text: string)
    ensures text == "Tie" <==> red == blue
    ensures (text == "You (Red)" || text == "Player 1 (Red)") <==> red > blue
    ensures (text == "Player 2 (Blue)" || (|text| >= 15 && text[..15] == "Computer (Blue)")) <==> blue > red
    ensures red != blue ==> ((text == "You (Red)" || (|text| >= 15 && text[..15] == "Computer (Blue)")) <==> mode == Some(Single))
  {
    if red > blue then
      if mode == Some(Single) then "You (Red)" else "Player 1 (Red)"
    else if blue > red then
      if mode == Some(Single) then "Computer (Blue)" + DifficultySuffix(difficulty)
      else assert "Player 2 (Blue)"[0] != "Computer (Blue)"[0]; "Player 2 (Blue)"
    else
      "Tie"
  }

  // ----- Quick-Fire target -----

  /** The target is clamped into 1..10. */
  function ClampTarget(v: int): (t: int)
    ensures 1 <= t <= 10
    ensures 1 <= v <= 10 ==> t == v
    ensures v < 1 ==> t == 1
    ensures v > 10 ==> t == 10
  {
    Max(1, Min(10, v))
  }

  /** The target read from the slider; an empty field counts as 5. */
  function TargetFromInput(input: Option<int>): (t: int)
    ensures 1 <= t <= 10
    ensures input.None? ==> t == 5
  {
    ClampTarget(if input.None? then 5 else input.value)
  }

  // ----- Snapshots -----

  /** A state snapshot as received from a peer; every field but the grid and the player to move may be missing. */
  datatype Snapshot = Snapshot(
    grid: seq<seq<int>>,
    currentPlayer: int,
    blockedCells: Option<set<Cell>>,
    redGames: Option<int>,
    blueGames: Option<int>,
    gameActive: Option<bool>,
    lastMovePosition: Option<Cell>,
    gameMode: Option<GameMode>,
    scoringMode: Option<ScoringMode>,
    aiDifficulty: Option<string>,
    quickFireTarget: Option<int>,
    ownership: Option<map<Cell, int>>)

  predicate IsInt32(n: int) {
    -0x8000_0000 <= n < 0x8000_0000
  }

  /** The `| 0` coercion: wrap an integer into the signed 32-bit range. */
  function ToInt32(n: int): (r: int)
    ensures IsInt32(r)
    ensures IsInt32(n) ==> r == n
    ensures (r - n) % 0x1_0000_0000 == 0
  {
    (n + 0x8000_0000) % 0x1_0000_0000 - 0x8000_0000
  }

  /** The snapshot of a state: every field present. */
  function Serialized(s: GameState): Snapshot {
    Snapshot(s.grid, s.currentPlayer, Some(s.blocked), Some(s.red), Some(s.blue), Some(s.active),
             s.lastMove, s.gameMode, Some(s.scoringMode), s.aiDifficulty, Some(s.quickFireTarget), Some(s.ownership))
  }

  /** The state restored from a snapshot, with the defaults for missing (or falsy) fields. */
  function Restored(snap: Snapshot, cfg: Config): (s: GameState)
    requires ValidConfig(cfg)
    ensures s.gameMode.Some? && s.quickFireTarget != 0 && s.aiDifficulty != Some("")
    ensures IsInt32(s.red) && IsInt32(s.blue)
  {
    var red := if snap.redGames.Some? then ToInt32(snap.redGames.value) else 0;
    var blue := if snap.blueGames.Some? then ToInt32(snap.blueGames.value) else 0;
    var target := if snap.quickFireTarget.Some? && snap.quickFireTarget.value != 0
                  then snap.quickFireTarget.value else cfg.quickFireDefault;
    GameState(
      snap.grid,
      snap.currentPlayer,
      if snap.blockedCells.Some? then snap.blockedCells.value else {},
      red,
      blue,
      snap.gameActive == Some(true),
      snap.lastMovePosition,
      if snap.gameMode.Some? then snap.gameMode else Some(Multi),
      if snap.scoringMode.Some? then snap.scoringMode.value else Classic,
      if snap.aiDifficulty == Some("") then None else snap.aiDifficulty,
      target,
      if snap.ownership.Some? then snap.ownership.value else map[])
  }

  /**
   * What each missing field restores to: no blocked cells, zero scores, a
   * stopped game, Multi-player, Classic scoring, the default target, nothing
   * credited; a present game mode is kept.
   */
  lemma RestoreDefaults(snap: Snapshot, cfg: Config)
    requires ValidConfig(cfg)
    ensures var s := Restored(snap, cfg);
      && (snap.gameMode.Some? ==> s.gameMode == snap.gameMode)
      && (snap.gameMode.None? ==> s.gameMode == Some(Multi))
      && (snap.scoringMode.None? ==> s.scoringMode == Classic)
      && ((snap.quickFireTarget.None? || snap.quickFireTarget == Some(0)) ==> s.quickFireTarget == cfg.quickFireDefault)
      && (snap.blockedCells.None? ==> s.blocked == {})
      && (snap.ownership.None? ==> s.ownership == map[])
      && (snap.redGames.None? ==> s.red == 0)
      && (snap.blueGames.None? ==> s.blue == 0)
      && (snap.gameActive.None? ==> !s.active)
  {
  }

  /**
   * Restoring a state's own snapshot gives the state back exactly when nothing
   * in it is normalised away: scores fit in 32 bits, the target is non-zero, a
   * game mode is set and the difficulty is not the empty string.
   */
  lemma RestoreSerialized(s: GameState, cfg: Config)
    requires ValidConfig(cfg)
    ensures Restored(Serialized(s), cfg) == s <==>
      IsInt32(s.red) && IsInt32(s.blue) && s.quickFireTarget != 0 && s.gameMode.Some? && s.aiDifficulty != Some("")
  {
  }

  /** Restoring is idempotent: a restored state survives another snapshot and restore unchanged. */
  lemma RestoreIdempotent(snap: Snapshot, cfg: Config)
    requires ValidConfig(cfg)
    ensures Restored(Serialized(Restored(snap, cfg)), cfg) == Restored(snap, cfg)
  {
    RestoreSerialized(Restored(snap, cfg), cfg);
  }
}
