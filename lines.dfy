/**
 * Win detection: the maximal run of one player's unblocked cells through a
 * just-dropped cell along one direction, and the first of the configured
 * directions whose run reaches four.
 */
module Lines {
  import opened Board

  /** The walk along a direction may step onto (r, c): inside, held by `player`, not blocked. */
  predicate Extends(grid: seq<seq<int>>, blocked: set<Cell>, cfg: Config, r: int, c: int, player: int)
    requires WellShaped(grid, cfg)
  {
    InBounds(cfg, r, c) && grid[r][c] == player && (r, c) !in blocked
  }

  /** How far (r, c) is from leaving the grid when stepping by d; the walks' termination measure. */
  function Span(cfg: Config, r: int, c: int, d: (int, int)): int {
    (if d.0 > 0 then cfg.rows - r else if d.0 < 0 then r + 1 else 0) +
    (if d.1 > 0 then cfg.cols - c else if d.1 < 0 then c + 1 else 0)
  }

  /** The cells from (r, c) onward in direction d while the walk may extend, nearest first. */
  function RunFrom(grid: seq<seq<int>>, blocked: set<Cell>, cfg: Config, r: int, c: int, d: (int, int), player: int): seq<Cell>
    requires WellShaped(grid, cfg) && UnitStep(d)
    decreases Span(cfg, r, c, d)
  {
    if Extends(grid, blocked, cfg, r, c, player) then
      [(r, c)] + RunFrom(grid, blocked, cfg, r + d.0, c + d.1, d, player)
    else
      []
  }

  /** The cells from (r, c) backward against d while the walk may extend, farthest first. */
  function RunTo(grid: seq<seq<int>>, blocked: set<Cell>, cfg: Config, r: int, c: int, d: (int, int), player: int): seq<Cell>
    requires WellShaped(grid, cfg) && UnitStep(d)
    decreases Span(cfg, r, c, (-d.0, -d.1))
  {
    if Extends(grid, blocked, cfg, r, c, player) then
      RunTo(grid, blocked, cfg, r - d.0, c - d.1, d, player) + [(r, c)]
    else
      []
  }

  /** The line through the anchor (row, col) along d, from the negative end to the positive end. */
  function LineThrough(grid: seq<seq<int>>, blocked: set<Cell>, cfg: Config, row: int, col: int, d: (int, int), player: int): seq<Cell>
    requires WellShaped(grid, cfg) && UnitStep(d)
  {
    RunTo(grid, blocked, cfg, row - d.0, col - d.1, d, player) + [(row, col)] +
    RunFrom(grid, blocked, cfg, row + d.0, col + d.1, d, player)
  }

  /** Consecutive cells of s differ by exactly the step d. */
  predicate Contiguous(s: seq<Cell>, d: (int, int)) {
    forall i :: 0 < i < |s| ==> s[i] == (s[i - 1].0 + d.0, s[i - 1].1 + d.1)
  }

  lemma {:induction false} RunFromShape(grid: seq<seq<int>>, blocked: set<Cell>, cfg: Config, r: int, c: int, d: (int, int), player: int)
    requires WellShaped(grid, cfg) && UnitStep(d)
    ensures var run := RunFrom(grid, blocked, cfg, r, c, d, player);
      && (|run| > 0 ==> run[0] == (r, c))
      && (forall i :: 0 <= i < |run| ==> Extends(grid, blocked, cfg, run[i].0, run[i].1, player))
      && Contiguous(run, d)
      && (|run| == 0 ==> !Extends(grid, blocked, cfg, r, c, player))
      && (|run| > 0 ==> !Extends(grid, blocked, cfg, run[|run| - 1].0 + d.0, run[|run| - 1].1 + d.1, player))
    decreases Span(cfg, r, c, d)
  {
    if Extends(grid, blocked, cfg, r, c, player) {
      RunFromShape(grid, blocked, cfg, r + d.0, c + d.1, d, player);
    }
  }

  lemma {:induction false} RunToShape(grid: seq<seq<int>>, blocked: set<Cell>, cfg: Config, r: int, c: int, d: (int, int), player: int)
    requires WellShaped(grid, cfg) && UnitStep(d)
    ensures var run := RunTo(grid, blocked, cfg, r, c, d, player);
      && (|run| > 0 ==> run[|run| - 1] == (r, c))
      && (forall i :: 0 <= i < |run| ==> Extends(grid, blocked, cfg, run[i].0, run[i].1, player))
      && Contiguous(run, d)
      && (|run| == 0 ==> !Extends(grid, blocked, cfg, r, c, player))
      && (|run| > 0 ==> !Extends(grid, blocked, cfg, run[0].0 - d.0, run[0].1 - d.1, player))
    decreases Span(cfg, r, c, (-d.0, -d.1))
  {
    if Extends(grid, blocked, cfg, r, c, player) {
      RunToShape(grid, blocked, cfg, r - d.0, c - d.1, d, player);
    }
  }

  /**
   * The line is a contiguous run along d that holds the anchor; every other cell
   * is inside the grid, held by `player` and unblocked; and it is maximal: the
   * cell just past either end may not be walked onto.
   */
  lemma LineShape(grid: seq<seq<int>>, blocked: set<Cell>, cfg: Config, row: int, col: int, d: (int, int), player: int)
    requires WellShaped(grid, cfg) && UnitStep(d)
    ensures var line := LineThrough(grid, blocked, cfg, row, col, d, player);
      && |line| == 1 + |RunTo(grid, blocked, cfg, row - d.0, col - d.1, d, player)|
                     + |RunFrom(grid, blocked, cfg, row + d.0, col + d.1, d, player)|
      && (exists k :: 0 <= k < |line| && line[k] == (row, col) &&
           forall i :: 0 <= i < |line| && i != k ==> Extends(grid, blocked, cfg, line[i].0, line[i].1, player))
      && Contiguous(line, d)
      && !Extends(grid, blocked, cfg, line[0].0 - d.0, line[0].1 - d.1, player)
      && !Extends(grid, blocked, cfg, line[|line| - 1].0 + d.0, line[|line| - 1].1 + d.1, player)
  {
    var back := RunTo(grid, blocked, cfg, row - d.0, col - d.1, d, player);
    var fwd := RunFrom(grid, blocked, cfg, row + d.0, col + d.1, d, player);
    RunToShape(grid, blocked, cfg, row - d.0, col - d.1, d, player);
    RunFromShape(grid, blocked, cfg, row + d.0, col + d.1, d, player);
    JoinContiguous(back, (row, col), fwd, d);
    LineAnchor(grid, blocked, cfg, row, col, d, player);
    LineEnds(grid, blocked, cfg, row, col, d, player);
  }

  lemma LineAnchor(grid: seq<seq<int>>, blocked: set<Cell>, cfg: Config, row: int, col: int, d: (int, int), player: int)
    requires WellShaped(grid, cfg) && UnitStep(d)
    ensures var line := LineThrough(grid, blocked, cfg, row, col, d, player);
      var k := |RunTo(grid, blocked, cfg, row - d.0, col - d.1, d, player)|;
      && 0 <= k < |line| && line[k] == (row, col)
      && forall i :: 0 <= i < |line| && i != k ==> Extends(grid, blocked, cfg, line[i].0, line[i].1, player)
  {
    var back := RunTo(grid, blocked, cfg, row - d.0, col - d.1, d, player);
    var fwd := RunFrom(grid, blocked, cfg, row + d.0, col + d.1, d, player);
    RunToShape(grid, blocked, cfg, row - d.0, col - d.1, d, player);
    RunFromShape(grid, blocked, cfg, row + d.0, col + d.1, d, player);
    var line := back + [(row, col)] + fwd;
    var k := |back|;
    forall i | 0 <= i < |line| && i != k
      ensures Extends(grid, blocked, cfg, line[i].0, line[i].1, player)
    {
      if i < k { assert line[i] == back[i]; } else { assert line[i] == fwd[i - k - 1]; }
    }
  }

  lemma LineEnds(grid: seq<seq<int>>, blocked: set<Cell>, cfg: Config, row: int, col: int, d: (int, int), player: int)
    requires WellShaped(grid, cfg) && UnitStep(d)
    ensures var line := LineThrough(grid, blocked, cfg, row, col, d, player);
      && !Extends(grid, blocked, cfg, line[0].0 - d.0, line[0].1 - d.1, player)
      && !Extends(grid, blocked, cfg, line[|line| - 1].0 + d.0, line[|line| - 1].1 + d.1, player)
  {
    var back := RunTo(grid, blocked, cfg, row - d.0, col - d.1, d, player);
    var fwd := RunFrom(grid, blocked, cfg, row + d.0, col + d.1, d, player);
    RunToShape(grid, blocked, cfg, row - d.0, col - d.1, d, player);
    RunFromShape(grid, blocked, cfg, row + d.0, col + d.1, d, player);
    var line := back + [(row, col)] + fwd;
    if |back| > 0 { assert line[0] == back[0]; }
    if |fwd| > 0 { assert line[|line| - 1] == fwd[|fwd| - 1]; }
  }

  /** Two contiguous runs joined through a middle cell one step from each stay contiguous. */
  lemma JoinContiguous(back: seq<Cell>, x: Cell, fwd: seq<Cell>, d: (int, int))
    requires Contiguous(back, d) && Contiguous(fwd, d)
    requires |back| > 0 ==> x == (back[|back| - 1].0 + d.0, back[|back| - 1].1 + d.1)
    requires |fwd| > 0 ==> fwd[0] == (x.0 + d.0, x.1 + d.1)
    ensures Contiguous(back + [x] + fwd, d)
  {
    var line := back + [x] + fwd;
    var k := |back|;
    forall i | 0 < i < |line|
      ensures line[i] == (line[i - 1].0 + d.0, line[i - 1].1 + d.1)
    {
      if i < k {
        assert line[i] == back[i] && line[i - 1] == back[i - 1];
      } else if i == k {
        assert line[i - 1] == back[k - 1];
      } else if i == k + 1 {
        assert line[i] == fwd[0];
      } else {
        assert line[i] == fwd[i - k - 1] && line[i - 1] == fwd[i - k - 2];
      }
    }
  }

  /** Every direction in ds moves by a unit step. */
  predicate AllUnitSteps(ds: seq<(int, int)>) {
    forall i :: 0 <= i < |ds| ==> UnitStep(ds[i])
  }

  /** The line of the first direction in ds whose line through (row, col) has at least four cells. */
  function FirstWinning(grid: seq<seq<int>>, blocked: set<Cell>, cfg: Config, row: int, col: int, ds: seq<(int, int)>): Option<seq<Cell>>
    requires WellShaped(grid, cfg) && InBounds(cfg, row, col) && AllUnitSteps(ds)
    decreases |ds|
  {
    if |ds| == 0 then None
    else
      var line := LineThrough(grid, blocked, cfg, row, col, ds[0], grid[row][col]);
      if |line| >= 4 then Some(line) else FirstWinning(grid, blocked, cfg, row, col, ds[1..])
  }

  /** What win detection finds for the piece at (row, col), scanning the configured directions in order. */
  function WinningLine(grid: seq<seq<int>>, blocked: set<Cell>, cfg: Config, row: int, col: int): Option<seq<Cell>>
    requires ValidConfig(cfg) && WellShaped(grid, cfg) && InBounds(cfg, row, col)
  {
    FirstWinning(grid, blocked, cfg, row, col, cfg.directions)
  }

  /**
   * A line is found exactly when some direction gives a line of four or more,
   * and the line found is that of the first such direction.
   */
  lemma {:induction false} FirstWinningSpec(grid: seq<seq<int>>, blocked: set<Cell>, cfg: Config, row: int, col: int, ds: seq<(int, int)>)
    requires WellShaped(grid, cfg) && InBounds(cfg, row, col) && AllUnitSteps(ds)
    ensures var found := FirstWinning(grid, blocked, cfg, row, col, ds);
      && (found.Some? <==> exists i :: 0 <= i < |ds| && |LineThrough(grid, blocked, cfg, row, col, ds[i], grid[row][col])| >= 4)
      && (found.Some? ==>
            exists i :: 0 <= i < |ds| && found.value == LineThrough(grid, blocked, cfg, row, col, ds[i], grid[row][col])
              && |found.value| >= 4
              && forall j :: 0 <= j < i ==> |LineThrough(grid, blocked, cfg, row, col, ds[j], grid[row][col])| < 4)
    decreases |ds|
  {
    if |ds| > 0 {
      var player := grid[row][col];
      if |LineThrough(grid, blocked, cfg, row, col, ds[0], player)| < 4 {
        FirstWinningSpec(grid, blocked, cfg, row, col, ds[1..]);
        var found := FirstWinning(grid, blocked, cfg, row, col, ds[1..]);
        if found.Some? {
          var i :| 0 <= i < |ds[1..]| && found.value == LineThrough(grid, blocked, cfg, row, col, ds[1..][i], player)
            && |found.value| >= 4
            && forall j :: 0 <= j < i ==> |LineThrough(grid, blocked, cfg, row, col, ds[1..][j], player)| < 4;
          assert ds[i + 1] == ds[1..][i];
          forall j | 0 <= j < i + 1
            ensures |LineThrough(grid, blocked, cfg, row, col, ds[j], player)| < 4
          {
            if j > 0 { assert ds[j] == ds[1..][j - 1]; }
          }
        } else {
          forall i | 0 <= i < |ds|
            ensures |LineThrough(grid, blocked, cfg, row, col, ds[i], player)| < 4
          {
            if i > 0 { assert ds[i] == ds[1..][i - 1]; }
          }
        }
      }
    }
  }

  /** Every cell of a line through an in-grid anchor is held by the anchor's player and lies in the grid. */
  lemma LineCellsHeld(grid: seq<seq<int>>, blocked: set<Cell>, cfg: Config, row: int, col: int, d: (int, int))
    requires WellShaped(grid, cfg) && UnitStep(d) && InBounds(cfg, row, col)
    ensures var line := LineThrough(grid, blocked, cfg, row, col, d, grid[row][col]);
      forall i :: 0 <= i < |line| ==> InBounds(cfg, line[i].0, line[i].1) && grid[line[i].0][line[i].1] == grid[row][col]
  {
    LineShape(grid, blocked, cfg, row, col, d, grid[row][col]);
  }
}
