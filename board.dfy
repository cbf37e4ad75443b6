/**
 * The board of the column-drop capture game: coordinates, the imported
 * constants, and the whole game state as a value.
 */
module Board {

  datatype Option<T> = None | Some(value: T)

  /** A grid coordinate (row, column); row 0 is the top row, row `rows - 1` the bottom one. */
  type Cell = (int, int)

  datatype ScoringMode = Classic | Area | QuickFire

  datatype GameMode = Single | Multi

  /**
   * The values the engine imports from its constants module: grid size, the two
   * player codes, the default Quick-Fire target and the four scan directions.
   */
  datatype Config = Config(
    rows: int,
    cols: int,
    red: int,
    blue: int,
    quickFireDefault: int,
    directions: seq<(int, int)>)

  /** A direction vector that moves at most one row and one column, and moves. */
  predicate UnitStep(d: (int, int)) {
    -1 <= d.0 <= 1 && -1 <= d.1 <= 1 && d != (0, 0)
  }

  predicate ValidConfig(cfg: Config) {
    && cfg.rows > 0 && cfg.cols > 0
    && cfg.red != 0 && cfg.blue != 0 && cfg.red != cfg.blue
    && 1 <= cfg.quickFireDefault <= 10
    && |cfg.directions| == 4
    && forall i :: 0 <= i < |cfg.directions| ==> UnitStep(cfg.directions[i])
  }

  /** The grid is `rows` rows of `cols` cells each. */
  predicate WellShaped(grid: seq<seq<int>>, cfg: Config) {
    |grid| == cfg.rows && forall r :: 0 <= r < |grid| ==> |grid[r]| == cfg.cols
  }

  predicate InBounds(cfg: Config, r: int, c: int) {
    0 <= r < cfg.rows && 0 <= c < cfg.cols
  }

  /** A cell a piece may land in: inside the grid, empty (0) and not blocked. */
  predicate IsOpen(grid: seq<seq<int>>, blocked: set<Cell>, cfg: Config, r: int, c: int)
    requires WellShaped(grid, cfg)
  {
    InBounds(cfg, r, c) && grid[r][c] == 0 && (r, c) !in blocked
  }

  /** Turn order: RED is followed by BLUE, anything else by RED. */
  function Other(cfg: Config, p: int): int {
    if p == cfg.red then cfg.blue else cfg.red
  }

  lemma OtherAlternates(cfg: Config, p: int)
    requires cfg.red != cfg.blue
    ensures Other(cfg, p) == cfg.red || Other(cfg, p) == cfg.blue
    ensures Other(cfg, p) != p
    ensures p == cfg.red || p == cfg.blue ==> Other(cfg, Other(cfg, p)) == p
  {
  }

  /** The engine's module-level state, as one value. */
  datatype GameState = GameState(
    grid: seq<seq<int>>,
    currentPlayer: int,
    blocked: set<Cell>,
    red: int,
    blue: int,
    active: bool,
    lastMove: Option<Cell>,
    gameMode: Option<GameMode>,
    scoringMode: ScoringMode,
    aiDifficulty: Option<string>,
    quickFireTarget: int,
    ownership: map<Cell, int>)
}
