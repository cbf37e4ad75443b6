/**
 * The engine as the source writes it: one object whose fields are the module's
 * state, updated in place by the move, capture, end-of-game, setting and
 * snapshot operations. Each method is proved against the rule functions.
 */
module Engine {
  import opened Board
  import opened Lines
  import opened Capture
  import opened Rules

  class Game {
    /** ROWS, COLS, the player codes, QUICKFIRE_DEFAULT and DIRECTIONS. */
    const cfg: Config

    var grid: seq<seq<int>>
    var currentPlayer: int
    var blockedCells: set<Cell>
    var redGames: int
    var blueGames: int
    var gameActive: bool
    var lastMovePosition: Option<Cell>
    var gameMode: Option<GameMode>
    var scoringMode: ScoringMode
    var aiDifficulty: Option<string>
    var quickFireTarget: int
    var ownership: map<Cell, int>

    /** The fields as one value. */
    function State(): GameState
      reads this
    {
      GameState(grid, currentPlayer, blockedCells, redGames, blueGames, gameActive,
                lastMovePosition, gameMode, scoringMode, aiDifficulty, quickFireTarget, ownership)
    }

    ghost predicate Valid()
      reads this
    {
      ValidConfig(cfg) && WellShaped(grid, cfg)
    }

    /** The state at module load: no grid yet, RED to move, Classic scoring, no mode chosen. */
    constructor(cfg: Config)
      requires ValidConfig(cfg)
      ensures this.cfg == cfg
      ensures State() == GameState([], cfg.red, {}, 0, 0, true, None, None, Classic, None, cfg.quickFireDefault, map[])
    {
      this.cfg := cfg;
      grid := [];
      currentPlayer := cfg.red;
      blockedCells := {};
      redGames := 0;
      blueGames := 0;
      gameActive := true;
      lastMovePosition := None;
      gameMode := None;
      scoringMode := Classic;
      aiDifficulty := None;
      quickFireTarget := cfg.quickFireDefault;
      ownership := map[];
    }

    /** Start a fresh game, keeping the mode, scoring, difficulty and target. */
    method InitGame()
      requires ValidConfig(cfg)
      modifies this
      ensures Valid()
      ensures State() == Reset(old(State()), cfg)
    {
      grid := EmptyGrid(cfg);
      currentPlayer := cfg.red;
      blockedCells := {};
      redGames := 0;
      blueGames := 0;
      gameActive := true;
      lastMovePosition := None;
      ownership := map[];
    }

    // ----- Lines -----

    /**
     * The maximal run through (startRow, startCol) along d of unblocked cells
     * holding `player`, in order along d; the start cell itself is not tested.
     */
    method GetLine(startRow: int, startCol: int, d: (int, int), player: int) returns (line: seq<Cell>)
      requires Valid() && UnitStep(d)
      ensures line == LineThrough(grid, blockedCells, cfg, startRow, startCol, d, player)
    {
      ghost var forwardRun := RunFrom(grid, blockedCells, cfg, startRow + d.0, startCol + d.1, d, player);
      ghost var backwardRun := RunTo(grid, blockedCells, cfg, startRow - d.0, startCol - d.1, d, player);
      line := [(startRow, startCol)];
      var r, c := startRow + d.0, startCol + d.1;
      while 0 <= r < cfg.rows && 0 <= c < cfg.cols && grid[r][c] == player && (r, c) !in blockedCells
        invariant line + RunFrom(grid, blockedCells, cfg, r, c, d, player) == [(startRow, startCol)] + forwardRun
        decreases Span(cfg, r, c, d)
      {
        ghost var tail := RunFrom(grid, blockedCells, cfg, r + d.0, c + d.1, d, player);
        assert RunFrom(grid, blockedCells, cfg, r, c, d, player) == [(r, c)] + tail;
        AppendAssoc(line, [(r, c)], tail);
        line := line + [(r, c)];
        r, c := r + d.0, c + d.1;
      }
      assert RunFrom(grid, blockedCells, cfg, r, c, d, player) == [];
      assert line == [(startRow, startCol)] + forwardRun;
      r, c := startRow - d.0, startCol - d.1;
      while 0 <= r < cfg.rows && 0 <= c < cfg.cols && grid[r][c] == player && (r, c) !in blockedCells
        invariant RunTo(grid, blockedCells, cfg, r, c, d, player) + line == backwardRun + ([(startRow, startCol)] + forwardRun)
        decreases Span(cfg, r, c, (-d.0, -d.1))
      {
        ghost var head := RunTo(grid, blockedCells, cfg, r - d.0, c - d.1, d, player);
        assert RunTo(grid, blockedCells, cfg, r, c, d, player) == head + [(r, c)];
        AppendAssoc(head, [(r, c)], line);
        line := [(r, c)] + line;
        r, c := r - d.0, c - d.1;
      }
      assert RunTo(grid, blockedCells, cfg, r, c, d, player) == [];
      assert line == backwardRun + ([(startRow, startCol)] + forwardRun);
      AppendAssoc(backwardRun, [(startRow, startCol)], forwardRun);
    }

    // ----- Capture -----

    /**
     * The flood of boxOffConnectedArea: starting from the line's unblocked
     * cells and a queue holding the whole line, absorb every in-grid,
     * unblocked, non-empty 8-neighbour of a dequeued cell. The cells come back
     * each once.
     */
    method ConnectedSquares(line: seq<Cell>) returns (squares: seq<Cell>)
      requires Valid()
      ensures Elements(squares) == Flood(grid, blockedCells, cfg, line)
      ensures NoRepeats(squares)
    {
      ghost var F := Flood(grid, blockedCells, cfg, line);
      ghost var U := Box(cfg) + Elements(line);
      FloodFromSpec(grid, blockedCells, cfg, line, Seeds(blockedCells, line));
      var connected: set<Cell>;
      connected, squares := SeedSquares(line);
      var queue := line;
      while |queue| > 0
        invariant Seeds(blockedCells, line) <= connected <= F
        invariant Elements(squares) == connected && NoRepeats(squares)
        invariant Frontier(line, connected, queue)
        invariant Settled(grid, blockedCells, cfg, line, connected, queue, {})
        decreases |U - connected|, |queue|
      {
        var m := queue[0];
        SettledPop(grid, blockedCells, cfg, line, connected, queue);
        queue := queue[1..];
        ghost var before := connected;
        connected, squares, queue := AbsorbNeighbours(line, m, connected, squares, queue);
        if connected != before {
          ShrinkingRest(U, before, connected);
        }
      }
      SettledClosed(grid, blockedCells, cfg, line, connected);
      FloodLeast(grid, blockedCells, cfg, line, connected);
    }

    /** The unblocked cells of the line, each once: the flood's seeds. */
    method SeedSquares(line: seq<Cell>) returns (connected: set<Cell>, squares: seq<Cell>)
      ensures connected == Seeds(blockedCells, line) == Elements(squares)
      ensures NoRepeats(squares)
    {
      connected := {};
      squares := [];
      for i := 0 to |line|
        invariant connected == Seeds(blockedCells, line[..i]) == Elements(squares)
        invariant NoRepeats(squares)
      {
        assert line[..i + 1] == line[..i] + [line[i]];
        if line[i] !in blockedCells && line[i] !in connected {
          connected := connected + {line[i]};
          squares := squares + [line[i]];
        }
      }
      assert line[..|line|] == line;
    }

    /**
     * A capture by `player` from a winning line: flood from the line, then block
     * every cell of the bounding rectangle of what was reached, row by row; under
     * Territory scoring each blocked cell not already credited to `player` is
     * taken from its previous holder and credited to `player`.
     */
    method BoxOffConnectedArea(winningLine: seq<Cell>, player: int)
      requires Valid()
      modifies this`blockedCells, this`ownership, this`redGames, this`blueGames
      ensures State() == CaptureEffect(old(State()), cfg, winningLine, player)
    {
      var squares := ConnectedSquares(winningLine);
      if |squares| == 0 {
        return;
      }
      ghost var F := Flood(grid, blockedCells, cfg, winningLine);
      var b := Bounds(squares);
      TightUnique(b, BoundingBox(F), F);
      assert InRect(b, squares[0]);
      BoxOffRect(b, player);
    }

    /** The sweep of boxOffConnectedArea: block the cells of b row by row, left to right. */
    method BoxOffRect(b: Rect, player: int)
      requires ValidConfig(cfg)
      requires b.minRow <= b.maxRow && b.minCol <= b.maxCol
      modifies this`blockedCells, this`ownership, this`redGames, this`blueGames
      ensures State() == Blocking(old(State()), cfg, RectCells(b), player)
    {
      ghost var s0 := State();
      for r := b.minRow to b.maxRow + 1
        invariant State() == Sweep(s0, cfg, b, r, b.minCol, player)
      {
        BoxOffRow(b, r, player, s0);
      }
      SweepAll(s0, cfg, b, player);
    }

    /** One row of the rectangle sweep, left to right. */
    method BoxOffRow(b: Rect, r: int, player: int, ghost s0: GameState)
      requires b.minRow <= r <= b.maxRow && b.minCol <= b.maxCol
      requires State() == Sweep(s0, cfg, b, r, b.minCol, player)
      modifies this`blockedCells, this`ownership, this`redGames, this`blueGames
      ensures State() == Sweep(s0, cfg, b, r + 1, b.minCol, player)
    {
      for c := b.minCol to b.maxCol + 1
        invariant State() == Sweep(s0, cfg, b, r, c, player)
      {
        BlockOffCell((r, c), player);
      }
    }

    /**
     * The body of the rectangle sweep for one cell: block it and, under
     * Territory scoring, move its credit to `player` when it was not already
     * `player`'s.
     */
    method BlockOffCell(key: Cell, player: int)
      modifies this`blockedCells, this`ownership, this`redGames, this`blueGames
      ensures State() == BlockCell(old(State()), cfg, key, player)
    {
      blockedCells := blockedCells + {key};
      if scoringMode == Area {
        var prev := OwnerOf(ownership, key);
        if prev != player {
          if prev == cfg.red {
            redGames := redGames - 1;
          } else if prev == cfg.blue {
            blueGames := blueGames - 1;
          }
          if player == cfg.red {
            redGames := redGames + 1;
          } else {
            blueGames := blueGames + 1;
          }
          ownership := ownership[key := player];
        }
      }
    }

    /**
     * Look for a line of four or more through (row, col) in each scan direction
     * in turn; at the first one found, capture from it and report a win.
     */
    method CheckForWin(row: int, col: int) returns (didWin: bool)
      requires Valid() && InBounds(cfg, row, col)
      modifies this`blockedCells, this`ownership, this`redGames, this`blueGames
      ensures var won := WinningLine(old(grid), old(blockedCells), cfg, row, col);
        && didWin == won.Some?
        && State() == if won.Some? then CaptureEffect(old(State()), cfg, won.value, old(grid)[row][col]) else old(State())
    {
      var player := grid[row][col];
      ghost var ds := cfg.directions;
      for i := 0 to |cfg.directions|
        invariant State() == old(State())
        invariant AllUnitSteps(ds[i..])
        invariant WinningLine(grid, blockedCells, cfg, row, col) == FirstWinning(grid, blockedCells, cfg, row, col, ds[i..])
      {
        assert ds[i..][0] == ds[i] && ds[i..][1..] == ds[i + 1..];
        var line := GetLine(row, col, cfg.directions[i], player);
        if |line| >= 4 {
          BoxOffConnectedArea(line, player);
          return true;
        }
      }
      return false;
    }

    // ----- End of game -----

    /** Some cell, scanning each column from the bottom up, is empty and unblocked. */
    method HasAnyValidMove() returns (found: bool)
      requires Valid()
      ensures found <==> AnyOpen(grid, blockedCells, cfg)
    {
      for c := 0 to cfg.cols
        invariant forall r, c' :: 0 <= c' < c ==> !IsOpen(grid, blockedCells, cfg, r, c')
      {
        var r := cfg.rows - 1;
        while r >= 0
          invariant -1 <= r < cfg.rows
          invariant forall r' :: r < r' ==> !IsOpen(grid, blockedCells, cfg, r', c)
        {
          if grid[r][c] == 0 && (r, c) !in blockedCells {
            assert IsOpen(grid, blockedCells, cfg, r, c);
            return true;
          }
          r := r - 1;
        }
      }
      return false;
    }

    /** Close the game; the label the end-of-game dialog shows is returned. */
    method ShowEnd() returns (winner: string)
      modifies this`gameActive
      ensures State() == old(State()).(active := false)
      ensures winner == WinnerLabel(redGames, blueGames, gameMode, aiDifficulty)
    {
      winner := WinnerLabel(redGames, blueGames, gameMode, aiDifficulty);
      gameActive := false;
    }

    /**
     * End the game when a Quick-Fire target is reached or no cell is open;
     * returns the winner label shown, if the game ended.
     */
    method CheckEndOfGame() returns (shown: Option<string>)
      requires Valid()
      modifies this`gameActive
      ensures State() == EndCheck(old(State()), cfg)
      ensures shown.Some? <==> TargetReached(old(State())) || !AnyOpen(grid, blockedCells, cfg)
      ensures shown.Some? ==> shown.value == WinnerLabel(redGames, blueGames, gameMode, aiDifficulty)
    {
      if scoringMode == QuickFire && (redGames >= quickFireTarget || blueGames >= quickFireTarget) {
        var winner := ShowEnd();
        return Some(winner);
      }
      var any := HasAnyValidMove();
      if !any {
        var winner := ShowEnd();
        return Some(winner);
      }
      return None;
    }

    // ----- Moves -----

    /**
     * Drop the current player's piece into column col: it lands in the lowest
     * empty, unblocked row; then win check and capture, scoring, turn change
     * and end check. Returns whether a piece was placed.
     */
    method ApplyRemoteMove(col: int) returns (placed: bool)
      requires Valid()
      modifies this
      ensures Valid()
      ensures (State(), placed) == Play(old(State()), cfg, col)
    {
      if !gameActive {
        return false;
      }
      var row := cfg.rows - 1;
      while row >= 0
        invariant -1 <= row < cfg.rows
        invariant State() == old(State())
        invariant LandingRow(grid, blockedCells, cfg, col) == LandingFrom(grid, blockedCells, cfg, col, row)
      {
        // a column outside the grid holds no empty cell
        if 0 <= col < cfg.cols && grid[row][col] == 0 && (row, col) !in blockedCells {
          assert LandingRow(grid, blockedCells, cfg, col) == Some(row);
          PlaceAt(row, col);
          return true;
        }
        row := row - 1;
      }
      return false;
    }

    /** The body of the drop once the landing row is found (applyRemoteMove and dropPiece). */
    method PlaceAt(row: int, col: int)
      requires Valid() && InBounds(cfg, row, col)
      modifies this`grid, this`lastMovePosition, this`blockedCells, this`ownership
      modifies this`redGames, this`blueGames, this`currentPlayer, this`gameActive
      ensures Valid()
      ensures State() == Drop(old(State()), cfg, row, col)
    {
      ghost var s := State();
      LandPiece(row, col);
      currentPlayer := if currentPlayer == cfg.red then cfg.blue else cfg.red;
      assert State() == Land(s, cfg, row, col).(currentPlayer := Other(cfg, s.currentPlayer));
      var _ := CheckEndOfGame();
    }

    /** The piece lands at (row, col); a line it completes is captured and scored. */
    method LandPiece(row: int, col: int)
      requires Valid() && InBounds(cfg, row, col)
      modifies this`grid, this`lastMovePosition, this`blockedCells, this`ownership, this`redGames, this`blueGames
      ensures Valid()
      ensures State() == Land(old(State()), cfg, row, col)
    {
      ghost var s := State();
      PlaceShaped(s, cfg, row, col);
      ghost var placedState := Place(s, row, col);
      ghost var won := WinAfterPlacing(s, cfg, row, col);
      ghost var captured := if won.Some? then CaptureEffect(placedState, cfg, won.value, s.currentPlayer) else placedState;
      grid := grid[row := grid[row][col := currentPlayer]];
      lastMovePosition := Some((row, col));
      assert State() == placedState;
      assert won == WinningLine(grid, blockedCells, cfg, row, col) && grid[row][col] == s.currentPlayer;
      var didWin := CheckForWin(row, col);
      assert didWin == won.Some? && State() == captured;
      if didWin && (scoringMode == Classic || scoringMode == QuickFire) {
        if currentPlayer == cfg.red {
          redGames := redGames + 1;
        } else {
          blueGames := blueGames + 1;
        }
      }
    }

    /**
     * The same drop from the local player's click; also reports whether the
     * computer's reply is then scheduled: a piece was placed, the game is
     * single-player, still on, and BLUE is to move.
     */
    method DropPiece(col: int) returns (computerScheduled: bool)
      requires Valid()
      modifies this
      ensures Valid()
      ensures State() == Play(old(State()), cfg, col).0
      ensures computerScheduled <==>
        Play(old(State()), cfg, col).1 && gameMode == Some(Single) && currentPlayer == cfg.blue && gameActive
    {
      var placed := ApplyRemoteMove(col);
      computerScheduled := placed && gameMode == Some(Single) && currentPlayer == cfg.blue && gameActive;
    }

    /**
     * The computer's move: only while the game is on, single-player and BLUE is
     * to move; `chosen` is the column the move chooser picked, -1 for none.
     */
    method MakeComputerMove(chosen: int) returns (computerScheduled: bool)
      requires Valid()
      modifies this
      ensures Valid()
      ensures var allowed := old(gameActive) && old(currentPlayer) == cfg.blue && old(gameMode) == Some(Single);
        State() == if allowed && chosen != -1 then Play(old(State()), cfg, chosen).0 else old(State())
      ensures !computerScheduled
    {
      if !gameActive || currentPlayer != cfg.blue || gameMode != Some(Single) {
        return false;
      }
      computerScheduled := false;
      if chosen != -1 {
        computerScheduled := DropPiece(chosen);
      }
    }

    /**
     * A click on column col: ignored when the game is over, a dialog is open,
     * or it is the computer's turn in a single-player game.
     */
    method OnColumnClick(col: int, dialogOpen: bool) returns (computerScheduled: bool)
      requires Valid()
      modifies this
      ensures Valid()
      ensures var allowed := old(gameActive) && !dialogOpen && !(old(gameMode) == Some(Single) && old(currentPlayer) != cfg.red);
        State() == if allowed then Play(old(State()), cfg, col).0 else old(State())
      ensures var allowed := old(gameActive) && !dialogOpen && !(old(gameMode) == Some(Single) && old(currentPlayer) != cfg.red);
        computerScheduled <==>
          allowed && Play(old(State()), cfg, col).1 && gameMode == Some(Single) && currentPlayer == cfg.blue && gameActive
    {
      if !gameActive || dialogOpen || (gameMode == Some(Single) && currentPlayer != cfg.red) {
        return false;
      }
      computerScheduled := DropPiece(col);
    }

    // ----- Settings -----

    method SetGameMode(mode: GameMode)
      modifies this`gameMode
      ensures State() == old(State()).(gameMode := Some(mode))
    {
      gameMode := Some(mode);
    }

    /** Choosing Classic or Territory clears the credited cells; Quick-Fire waits for its target first. */
    method SetScoringMode(mode: ScoringMode)
      modifies this`scoringMode, this`ownership
      ensures State() == old(State()).(scoringMode := mode, ownership := if mode == QuickFire then old(ownership) else map[])
    {
      scoringMode := mode;
      if mode == QuickFire {
        return;
      }
      ownership := map[];
    }

    /** Confirm the Quick-Fire target from the slider's value (None when the field is empty). */
    method ConfirmQuickfire(input: Option<int>)
      modifies this`quickFireTarget, this`ownership
      ensures State() == old(State()).(quickFireTarget := TargetFromInput(input), ownership := map[])
      ensures 1 <= quickFireTarget <= 10
    {
      quickFireTarget := TargetFromInput(input);
      ownership := map[];
    }

    method SetDifficulty(difficulty: string)
      modifies this`aiDifficulty
      ensures State() == old(State()).(aiDifficulty := Some(difficulty))
    {
      aiDifficulty := Some(difficulty);
    }

    /** Back to mode selection: scores cleared, game stopped, mode and difficulty forgotten; the board stays. */
    method ChangeMode()
      modifies this`redGames, this`blueGames, this`gameActive, this`gameMode, this`aiDifficulty
      ensures State() == old(State()).(red := 0, blue := 0, active := false, gameMode := None, aiDifficulty := None)
    {
      redGames := 0;
      blueGames := 0;
      gameActive := false;
      gameMode := None;
      aiDifficulty := None;
    }

    // ----- Snapshots -----

    /**
     * The state handed to a peer: every field as it stands. Restoring it gives this state back whenever
     * the scores fit in 32 bits, the target is non-zero, a mode is chosen and
     * the difficulty is not the empty string.
     */
    method GetSerializableState() returns (snap: Snapshot)
      requires ValidConfig(cfg)
      ensures snap == Serialized(State())
      ensures IsInt32(redGames) && IsInt32(blueGames) && quickFireTarget != 0 && gameMode.Some? && aiDifficulty != Some("")
        ==> Restored(snap, cfg) == State()
    {
      snap := Serialized(State());
      RestoreSerialized(State(), cfg);
    }

    /** Adopt a peer's snapshot, filling missing fields with their defaults. */
    method RestoreFromState(snap: Snapshot)
      requires ValidConfig(cfg)
      modifies this
      ensures State() == Restored(snap, cfg)
      ensures Valid() <==> WellShaped(snap.grid, cfg)
    {
      var s := Restored(snap, cfg);
      grid := s.grid;
      currentPlayer := s.currentPlayer;
      blockedCells := s.blocked;
      redGames := s.red;
      blueGames := s.blue;
      gameActive := s.active;
      lastMovePosition := s.lastMove;
      gameMode := s.gameMode;
      scoringMode := s.scoringMode;
      aiDifficulty := s.aiDifficulty;
      quickFireTarget := s.quickFireTarget;
      ownership := s.ownership;
    }

    /**
     * The body of the flood's queue loop for the dequeued cell m: every
     * in-grid, unblocked, non-empty 8-neighbour of m not yet captured is
     * captured and queued.
     */
    method AbsorbNeighbours(line: seq<Cell>, m: Cell, connected0: set<Cell>, squares0: seq<Cell>, queue0: seq<Cell>)
      returns (connected: set<Cell>, squares: seq<Cell>, queue: seq<Cell>)
      requires Valid()
      requires m in connected0 || m in line
      requires connected0 <= Flood(grid, blockedCells, cfg, line) && Elements(squares0) == connected0
      requires NoRepeats(squares0)
      requires Frontier(line, connected0, queue0)
      requires Settled(grid, blockedCells, cfg, line, connected0, queue0, {m})
      ensures connected0 <= connected <= Flood(grid, blockedCells, cfg, line) && Elements(squares) == connected
      ensures NoRepeats(squares)
      ensures connected == connected0 ==> queue == queue0
      ensures QueuedSince(queue0, connected0, queue, connected)
      ensures Frontier(line, connected, queue)
      ensures Settled(grid, blockedCells, cfg, line, connected, queue, {})
    {
      ghost var F := Flood(grid, blockedCells, cfg, line);
      FloodSpec(grid, blockedCells, cfg, line);
      assert NeighboursIn(grid, blockedCells, cfg, m, F);
      connected, squares, queue := connected0, squares0, queue0;
      QueuedSinceStart(queue0, connected0);
      for dr := -1 to 2
        invariant Absorbing(grid, blockedCells, cfg, line, m, connected0, queue0, connected, squares, queue)
        invariant ScannedTo(grid, blockedCells, cfg, m, connected, dr, -1)
      {
        for dc := -1 to 2
          invariant Absorbing(grid, blockedCells, cfg, line, m, connected0, queue0, connected, squares, queue)
          invariant ScannedTo(grid, blockedCells, cfg, m, connected, dr, dc)
        {
          connected, squares, queue := AbsorbOffset(line, m, dr, dc, connected0, queue0, connected, squares, queue);
        }
        ScanRow(grid, blockedCells, cfg, m, connected, dr);
      }
      SettledFinish(grid, blockedCells, cfg, line, connected, queue, m);
      QueuedNothing(queue0, connected0, queue, connected);
    }

    /** One offset (dr, dc) of the scan: the neighbour there is captured and queued if admissible and not yet captured. */
    method AbsorbOffset(line: seq<Cell>, m: Cell, dr: int, dc: int, ghost connected0: set<Cell>, ghost queue0: seq<Cell>,
                        connected1: set<Cell>, squares1: seq<Cell>, queue1: seq<Cell>)
      returns (connected: set<Cell>, squares: seq<Cell>, queue: seq<Cell>)
      requires Valid() && -1 <= dr <= 1 && -1 <= dc <= 1
      requires NeighboursIn(grid, blockedCells, cfg, m, Flood(grid, blockedCells, cfg, line))
      requires Absorbing(grid, blockedCells, cfg, line, m, connected0, queue0, connected1, squares1, queue1)
      requires ScannedTo(grid, blockedCells, cfg, m, connected1, dr, dc)
      ensures Absorbing(grid, blockedCells, cfg, line, m, connected0, queue0, connected, squares, queue)
      ensures ScannedTo(grid, blockedCells, cfg, m, connected, dr, dc + 1)
    {
      connected, squares, queue := connected1, squares1, queue1;
      if dr == 0 && dc == 0 {
        ScanStep(grid, blockedCells, cfg, m, connected, dr, dc);
        return;
      }
      var newRow, newCol := m.0 + dr, m.1 + dc;
      if 0 <= newRow < cfg.rows && 0 <= newCol < cfg.cols &&
         (newRow, newCol) !in connected && (newRow, newCol) !in blockedCells
      {
        if grid[newRow][newCol] != 0 {
          assert Neighbour(m, (newRow, newCol)) && Admitted(grid, blockedCells, cfg, (newRow, newCol));
          AbsorbPush(grid, blockedCells, cfg, line, m, connected0, queue0, connected, squares, queue, (newRow, newCol), dr, dc);
          connected := connected + {(newRow, newCol)};
          squares := squares + [(newRow, newCol)];
          queue := queue + [(newRow, newCol)];
        }
      }
      ScanStep(grid, blockedCells, cfg, m, connected, dr, dc);
    }
  }

  lemma AppendAssoc<T>(a: seq<T>, b: seq<T>, c: seq<T>)
    ensures a + (b + c) == (a + b) + c
  {
  }

  // ----- Breadth-first flood bookkeeping -----

  /** No cell occurs twice. */
  ghost predicate NoRepeats(s: seq<Cell>) {
    forall i, j :: 0 <= i < j < |s| ==> s[i] != s[j]
  }

  lemma NoRepeatsPush(s: seq<Cell>, x: Cell)
    requires NoRepeats(s) && x !in s
    ensures NoRepeats(s + [x])
  {
  }

  /**
   * The queue is q0 followed by exactly the cells captured since S0, when the
   * captured set was S0.
   */
  ghost predicate QueuedSince(q0: seq<Cell>, S0: set<Cell>, q: seq<Cell>, S: set<Cell>) {
    S0 <= S && |q| >= |q0| && q[..|q0|] == q0 && Elements(q[|q0|..]) == S - S0
  }

  /** The bookkeeping the scan of one dequeued cell m keeps, from a start with S0 captured and q0 queued. */
  ghost predicate Absorbing(grid: seq<seq<int>>, blocked: set<Cell>, cfg: Config, line: seq<Cell>, m: Cell,
                            S0: set<Cell>, q0: seq<Cell>, S: set<Cell>, squares: seq<Cell>, q: seq<Cell>)
    requires WellShaped(grid, cfg)
  {
    S <= Flood(grid, blocked, cfg, line) && Elements(squares) == S && NoRepeats(squares) &&
    QueuedSince(q0, S0, q, S) && Frontier(line, S, q) && Settled(grid, blocked, cfg, line, S, q, {m})
  }

  /** Capturing and queueing an admissible neighbour x of m keeps the bookkeeping. */
  lemma AbsorbPush(grid: seq<seq<int>>, blocked: set<Cell>, cfg: Config, line: seq<Cell>, m: Cell,
                   S0: set<Cell>, q0: seq<Cell>, S: set<Cell>, squares: seq<Cell>, q: seq<Cell>, x: Cell, dr: int, dc: int)
    requires WellShaped(grid, cfg)
    requires Absorbing(grid, blocked, cfg, line, m, S0, q0, S, squares, q)
    requires ScannedTo(grid, blocked, cfg, m, S, dr, dc)
    requires NeighboursIn(grid, blocked, cfg, m, Flood(grid, blocked, cfg, line))
    requires Neighbour(m, x) && Admitted(grid, blocked, cfg, x) && x !in S
    ensures Absorbing(grid, blocked, cfg, line, m, S0, q0, S + {x}, squares + [x], q + [x])
    ensures ScannedTo(grid, blocked, cfg, m, S + {x}, dr, dc)
  {
    SettledPush(grid, blocked, cfg, line, S, q, m, x, dr, dc);
    NoRepeatsPush(squares, x);
    QueuePush(q0, S0, q, S, x);
  }

  lemma QueuedSinceStart(q0: seq<Cell>, S0: set<Cell>)
    ensures QueuedSince(q0, S0, q0, S0)
  {
    assert q0[|q0|..] == [];
  }

  lemma QueuedNothing(q0: seq<Cell>, S0: set<Cell>, q: seq<Cell>, S: set<Cell>)
    requires QueuedSince(q0, S0, q, S)
    ensures S == S0 ==> q == q0
  {
    if |q| > |q0| {
      assert q[|q0|..][0] == q[|q0|];
      assert q[|q0|] in S - S0;
    } else {
      assert q == q[..|q0|];
    }
  }

  lemma QueuePush(q0: seq<Cell>, S0: set<Cell>, q: seq<Cell>, S: set<Cell>, x: Cell)
    requires QueuedSince(q0, S0, q, S) && x !in S
    ensures QueuedSince(q0, S0, q + [x], S + {x})
  {
    assert (q + [x])[..|q0|] == q[..|q0|];
    assert (q + [x])[|q0|..] == q[|q0|..] + [x];
    assert Elements(q[|q0|..] + [x]) == Elements(q[|q0|..]) + {x};
  }

  /** Every queued cell is captured or a line cell. */
  ghost predicate Frontier(line: seq<Cell>, S: set<Cell>, queue: seq<Cell>) {
    forall x :: x in queue ==> x in S || x in line
  }

  /**
   * Every cell already dequeued (captured or on the line, no longer queued,
   * and not in `skip`) has all its admissible neighbours captured.
   */
  ghost predicate Settled(grid: seq<seq<int>>, blocked: set<Cell>, cfg: Config, line: seq<Cell>,
                          S: set<Cell>, queue: seq<Cell>, skip: set<Cell>)
    requires WellShaped(grid, cfg)
  {
    forall m, n ::
      (m in S || m in line) && m !in queue && m !in skip && Neighbour(m, n) && Admitted(grid, blocked, cfg, n)
      ==> n in S
  }

  /** The admissible neighbours of m at offsets before (dr, dc), in row-major order, are captured. */
  ghost predicate ScannedTo(grid: seq<seq<int>>, blocked: set<Cell>, cfg: Config, m: Cell, S: set<Cell>, dr: int, dc: int)
    requires WellShaped(grid, cfg)
  {
    forall n ::
      Neighbour(m, n) && Admitted(grid, blocked, cfg, n) && (n.0 - m.0 < dr || (n.0 - m.0 == dr && n.1 - m.1 < dc))
      ==> n in S
  }

  lemma SettledPop(grid: seq<seq<int>>, blocked: set<Cell>, cfg: Config, line: seq<Cell>, S: set<Cell>, queue: seq<Cell>)
    requires WellShaped(grid, cfg) && |queue| > 0
    requires Settled(grid, blocked, cfg, line, S, queue, {})
    ensures Settled(grid, blocked, cfg, line, S, queue[1..], {queue[0]})
  {
    forall m | m in queue && m != queue[0] ensures m in queue[1..] {
      var i :| 0 <= i < |queue| && queue[i] == m;
      assert queue[1..][i - 1] == m;
    }
  }

  lemma SettledPush(grid: seq<seq<int>>, blocked: set<Cell>, cfg: Config, line: seq<Cell>, S: set<Cell>, queue: seq<Cell>,
                    m: Cell, x: Cell, dr: int, dc: int)
    requires WellShaped(grid, cfg)
    requires Settled(grid, blocked, cfg, line, S, queue, {m}) && Frontier(line, S, queue)
    requires ScannedTo(grid, blocked, cfg, m, S, dr, dc)
    ensures Settled(grid, blocked, cfg, line, S + {x}, queue + [x], {m}) && Frontier(line, S + {x}, queue + [x])
    ensures ScannedTo(grid, blocked, cfg, m, S + {x}, dr, dc)
  {
    assert forall y :: y in queue ==> y in queue + [x];
  }

  lemma ScanStep(grid: seq<seq<int>>, blocked: set<Cell>, cfg: Config, m: Cell, S: set<Cell>, dr: int, dc: int)
    requires WellShaped(grid, cfg)
    requires ScannedTo(grid, blocked, cfg, m, S, dr, dc)
    requires (dr, dc) == (0, 0) || (m.0 + dr, m.1 + dc) in S || !Admitted(grid, blocked, cfg, (m.0 + dr, m.1 + dc))
    ensures ScannedTo(grid, blocked, cfg, m, S, dr, dc + 1)
  {
    forall n | Neighbour(m, n) && Admitted(grid, blocked, cfg, n) && n.0 - m.0 == dr && n.1 - m.1 == dc
      ensures n in S
    {
      assert n == (m.0 + dr, m.1 + dc);
    }
  }

  lemma ScanRow(grid: seq<seq<int>>, blocked: set<Cell>, cfg: Config, m: Cell, S: set<Cell>, dr: int)
    requires WellShaped(grid, cfg)
    requires ScannedTo(grid, blocked, cfg, m, S, dr, 2)
    ensures ScannedTo(grid, blocked, cfg, m, S, dr + 1, -1)
  {
  }

  lemma SettledFinish(grid: seq<seq<int>>, blocked: set<Cell>, cfg: Config, line: seq<Cell>, S: set<Cell>, queue: seq<Cell>, m: Cell)
    requires WellShaped(grid, cfg)
    requires Settled(grid, blocked, cfg, line, S, queue, {m}) && ScannedTo(grid, blocked, cfg, m, S, 2, -1)
    ensures Settled(grid, blocked, cfg, line, S, queue, {})
  {
  }

  lemma SettledClosed(grid: seq<seq<int>>, blocked: set<Cell>, cfg: Config, line: seq<Cell>, S: set<Cell>)
    requires WellShaped(grid, cfg)
    requires Settled(grid, blocked, cfg, line, S, [], {})
    ensures Closed(grid, blocked, cfg, line, S)
  {
  }
}
