/**
 * Capture: the flood over 8-neighbours that starts from a winning line, the
 * bounding rectangle of what it reaches, and the per-cell ownership credit that
 * Territory scoring moves when the rectangle is blocked.
 */
module Capture {
  import opened Board

  /** The flood may absorb n: inside the grid, not blocked, and not empty (any player's piece). */
  predicate Admitted(grid: seq<seq<int>>, blocked: set<Cell>, cfg: Config, n: Cell)
    requires WellShaped(grid, cfg)
  {
    InBounds(cfg, n.0, n.1) && n !in blocked && grid[n.0][n.1] != 0
  }

  /** b is one of the eight cells around a. */
  predicate Neighbour(a: Cell, b: Cell) {
    a != b && -1 <= b.0 - a.0 <= 1 && -1 <= b.1 - a.1 <= 1
  }

  /** Every cell of the grid. */
  function Box(cfg: Config): set<Cell> {
    set r, c | 0 <= r < cfg.rows && 0 <= c < cfg.cols :: (r, c)
  }

  function Elements(s: seq<Cell>): set<Cell> {
    set x | x in s
  }

  /** The cells the flood starts with: the line's unblocked cells. */
  function Seeds(blocked: set<Cell>, line: seq<Cell>): set<Cell> {
    set x | x in line && !(x in blocked)
  }

  /** Every cell the flood may absorb next to m is already in S. */
  ghost predicate NeighboursIn(grid: seq<seq<int>>, blocked: set<Cell>, cfg: Config, m: Cell, S: set<Cell>)
    requires WellShaped(grid, cfg)
  {
    forall n :: Neighbour(m, n) && Admitted(grid, blocked, cfg, n) ==> n in S
  }

  /**
   * S is closed under the flood: nothing admissible next to a member of S or to
   * a cell of the line (the whole line is queued, blocked cells too) is missing.
   */
  ghost predicate Closed(grid: seq<seq<int>>, blocked: set<Cell>, cfg: Config, line: seq<Cell>, S: set<Cell>)
    requires WellShaped(grid, cfg)
  {
    forall m :: m in S || m in line ==> NeighboursIn(grid, blocked, cfg, m, S)
  }

  /** One round of the flood: S and every admissible neighbour of S or of the line. */
  ghost function Grow(grid: seq<seq<int>>, blocked: set<Cell>, cfg: Config, line: seq<Cell>, S: set<Cell>): set<Cell>
    requires WellShaped(grid, cfg)
  {
    S + set n | n in Box(cfg) && Admitted(grid, blocked, cfg, n) && exists m :: (m in S || m in line) && Neighbour(m, n)
  }

  lemma ShrinkingRest(U: set<Cell>, A: set<Cell>, B: set<Cell>)
    requires A <= B <= U && A != B
    ensures |U - B| < |U - A|
  {
    var x :| x in B && x !in A;
    assert U - A == (U - B) + (B - A);
    assert (U - B) * (B - A) == {};
    assert x in B - A;
  }

  /** Repeat Grow from S until nothing changes: the least closed set containing S. */
  ghost function FloodFrom(grid: seq<seq<int>>, blocked: set<Cell>, cfg: Config, line: seq<Cell>, S: set<Cell>): set<Cell>
    requires WellShaped(grid, cfg) && S <= Box(cfg) + Elements(line)
    decreases |Box(cfg) + Elements(line) - S|
  {
    var next := Grow(grid, blocked, cfg, line, S);
    if next == S then S
    else
      ShrinkingRest(Box(cfg) + Elements(line), S, next);
      FloodFrom(grid, blocked, cfg, line, next)
  }

  /** The cells captured from a winning line. */
  ghost function Flood(grid: seq<seq<int>>, blocked: set<Cell>, cfg: Config, line: seq<Cell>): set<Cell>
    requires WellShaped(grid, cfg)
  {
    FloodFrom(grid, blocked, cfg, line, Seeds(blocked, line))
  }

  lemma AdmittedInBox(grid: seq<seq<int>>, blocked: set<Cell>, cfg: Config, n: Cell)
    requires WellShaped(grid, cfg) && Admitted(grid, blocked, cfg, n)
    ensures n in Box(cfg)
  {
    assert n == (n.0, n.1);
  }

  lemma {:induction false} FloodFromSpec(grid: seq<seq<int>>, blocked: set<Cell>, cfg: Config, line: seq<Cell>, S: set<Cell>)
    requires WellShaped(grid, cfg) && S <= Box(cfg) + Elements(line)
    ensures var F := FloodFrom(grid, blocked, cfg, line, S);
      && S <= F <= Box(cfg) + Elements(line)
      && Closed(grid, blocked, cfg, line, F)
      && forall x :: x in F && x !in S ==> Admitted(grid, blocked, cfg, x)
    decreases |Box(cfg) + Elements(line) - S|
  {
    var next := Grow(grid, blocked, cfg, line, S);
    if next == S {
      forall m | m in S || m in line
        ensures NeighboursIn(grid, blocked, cfg, m, S)
      {
        forall n | Neighbour(m, n) && Admitted(grid, blocked, cfg, n)
          ensures n in S
        {
          AdmittedInBox(grid, blocked, cfg, n);
          assert n in next;
        }
      }
    } else {
      ShrinkingRest(Box(cfg) + Elements(line), S, next);
      FloodFromSpec(grid, blocked, cfg, line, next);
    }
  }

  lemma {:induction false} FloodFromLeast(grid: seq<seq<int>>, blocked: set<Cell>, cfg: Config, line: seq<Cell>, S: set<Cell>, T: set<Cell>)
    requires WellShaped(grid, cfg) && S <= Box(cfg) + Elements(line)
    requires S <= T && Closed(grid, blocked, cfg, line, T)
    ensures FloodFrom(grid, blocked, cfg, line, S) <= T
    decreases |Box(cfg) + Elements(line) - S|
  {
    var next := Grow(grid, blocked, cfg, line, S);
    forall n | n in next && n !in S
      ensures n in T
    {
      var m :| (m in S || m in line) && Neighbour(m, n);
      assert NeighboursIn(grid, blocked, cfg, m, T);
    }
    if next != S {
      ShrinkingRest(Box(cfg) + Elements(line), S, next);
      FloodFromLeast(grid, blocked, cfg, line, next, T);
    }
  }

  /**
   * The captured set holds every unblocked line cell; each member is unblocked
   * and is a line cell or an admissible (in-grid, non-empty) cell; and it is
   * closed under 8-neighbour absorption.
   */
  lemma FloodSpec(grid: seq<seq<int>>, blocked: set<Cell>, cfg: Config, line: seq<Cell>)
    requires WellShaped(grid, cfg)
    ensures var F := Flood(grid, blocked, cfg, line);
      && Seeds(blocked, line) <= F
      && (forall x :: x in F ==> x !in blocked && (x in line || Admitted(grid, blocked, cfg, x)))
      && Closed(grid, blocked, cfg, line, F)
  {
    FloodFromSpec(grid, blocked, cfg, line, Seeds(blocked, line));
  }

  /** The captured set is the least closed set holding the unblocked line cells. */
  lemma FloodLeast(grid: seq<seq<int>>, blocked: set<Cell>, cfg: Config, line: seq<Cell>, T: set<Cell>)
    requires WellShaped(grid, cfg)
    requires Seeds(blocked, line) <= T && Closed(grid, blocked, cfg, line, T)
    ensures Flood(grid, blocked, cfg, line) <= T
  {
    FloodFromLeast(grid, blocked, cfg, line, Seeds(blocked, line), T);
  }

  /**
   * Nothing is captured exactly when every line cell is blocked and no line cell
   * has an admissible neighbour.
   */
  lemma FloodEmptyIff(grid: seq<seq<int>>, blocked: set<Cell>, cfg: Config, line: seq<Cell>)
    requires WellShaped(grid, cfg)
    ensures Flood(grid, blocked, cfg, line) == {} <==>
      Seeds(blocked, line) == {} && forall m :: m in line ==> NeighboursIn(grid, blocked, cfg, m, {})
  {
    FloodSpec(grid, blocked, cfg, line);
    if Seeds(blocked, line) == {} && forall m :: m in line ==> NeighboursIn(grid, blocked, cfg, m, {}) {
      FloodLeast(grid, blocked, cfg, line, {});
    }
  }

  /** When every line cell is in the grid and holds a piece, so does every captured cell. */
  lemma FloodInGrid(grid: seq<seq<int>>, blocked: set<Cell>, cfg: Config, line: seq<Cell>)
    requires WellShaped(grid, cfg)
    requires forall i :: 0 <= i < |line| ==> InBounds(cfg, line[i].0, line[i].1) && grid[line[i].0][line[i].1] != 0
    ensures forall x :: x in Flood(grid, blocked, cfg, line) ==> x in Box(cfg) && Admitted(grid, blocked, cfg, x)
  {
    FloodSpec(grid, blocked, cfg, line);
    FloodInBox(grid, blocked, cfg, line);
    forall x | x in Flood(grid, blocked, cfg, line) && x in line
      ensures Admitted(grid, blocked, cfg, x)
    {
      var i :| 0 <= i < |line| && line[i] == x;
    }
  }

  // ----- The rectangle -----

  /** Inclusive row and column bounds. */
  datatype Rect = Rect(minRow: int, maxRow: int, minCol: int, maxCol: int)

  predicate InRect(b: Rect, x: Cell) {
    b.minRow <= x.0 <= b.maxRow && b.minCol <= x.1 <= b.maxCol
  }

  /** b holds every cell of S and each of its four bounds is reached by a cell of S. */
  ghost predicate Tight(b: Rect, S: set<Cell>) {
    && (forall x :: x in S ==> InRect(b, x))
    && (exists x :: x in S && x.0 == b.minRow)
    && (exists x :: x in S && x.0 == b.maxRow)
    && (exists x :: x in S && x.1 == b.minCol)
    && (exists x :: x in S && x.1 == b.maxCol)
  }

  function Min(a: int, b: int): int { if a <= b then a else b }
  function Max(a: int, b: int): int { if a >= b then a else b }

  /** The rectangle spanned by b and the cell x. */
  function Stretch(b: Rect, x: Cell): Rect {
    Rect(Min(b.minRow, x.0), Max(b.maxRow, x.0), Min(b.minCol, x.1), Max(b.maxCol, x.1))
  }

  /** The bounding rectangle of a non-empty set of cells. */
  ghost function BoundingBox(S: set<Cell>): (b: Rect)
    requires S != {}
    ensures Tight(b, S)
    decreases S
  {
    var x :| x in S;
    if S == {x} then Rect(x.0, x.0, x.1, x.1)
    else
      var b := BoundingBox(S - {x});
      assert forall y :: y in S ==> y == x || y in S - {x};
      Stretch(b, x)
  }

  /** The min and max row and column over a non-empty sequence of cells. */
  function Bounds(sq: seq<Cell>): (b: Rect)
    requires |sq| > 0
    ensures Tight(b, Elements(sq))
  {
    if |sq| == 1 then
      assert Elements(sq) == {sq[0]};
      Rect(sq[0].0, sq[0].0, sq[0].1, sq[0].1)
    else
      assert Elements(sq) == {sq[0]} + Elements(sq[1..]);
      Stretch(Bounds(sq[1..]), sq[0])
  }

  /** A set has only one tight rectangle. */
  lemma TightUnique(a: Rect, b: Rect, S: set<Cell>)
    requires Tight(a, S) && Tight(b, S)
    ensures a == b
  {
    var x1 :| x1 in S && x1.0 == a.minRow;
    var x2 :| x2 in S && x2.0 == b.minRow;
    var x3 :| x3 in S && x3.0 == a.maxRow;
    var x4 :| x4 in S && x4.0 == b.maxRow;
    var x5 :| x5 in S && x5.1 == a.minCol;
    var x6 :| x6 in S && x6.1 == b.minCol;
    var x7 :| x7 in S && x7.1 == a.maxCol;
    var x8 :| x8 in S && x8.1 == b.maxCol;
    assert InRect(a, x2) && InRect(b, x1) && InRect(a, x4) && InRect(b, x3);
    assert InRect(a, x6) && InRect(b, x5) && InRect(a, x8) && InRect(b, x7);
  }

  /** Every cell of the rectangle. */
  function RectCells(b: Rect): set<Cell> {
    set r, c | b.minRow <= r <= b.maxRow && b.minCol <= c <= b.maxCol :: (r, c)
  }

  lemma RectCellsMembers(b: Rect)
    ensures forall x :: x in RectCells(b) <==> InRect(b, x)
  {
    forall x | InRect(b, x)
      ensures x in RectCells(b)
    {
      assert x == (x.0, x.1);
    }
  }

  // ----- Territory credit -----

  /** The player credited with x; `0` when nobody is. */
  function OwnerOf(own: map<Cell, int>, x: Cell): int {
    if x in own then own[x] else 0
  }

  /** The cells of D not yet credited to p: the ones a capture by p re-credits. */
  ghost function Flipped(own: map<Cell, int>, D: set<Cell>, p: int): set<Cell> {
    set x | x in D && OwnerOf(own, x) != p
  }

  /** The cells of D credited to q. */
  ghost function OwnedIn(own: map<Cell, int>, D: set<Cell>, q: int): set<Cell> {
    set x | x in D && OwnerOf(own, x) == q
  }

  /** Ownership after p claims every cell of D. */
  ghost function Claim(own: map<Cell, int>, D: set<Cell>, p: int): map<Cell, int> {
    own + map x | x in Flipped(own, D, p) :: p
  }

  /** Change of RED's score when p claims D: +1 per re-credited cell if p is RED, -1 per RED cell stolen otherwise. */
  ghost function RedDelta(cfg: Config, own: map<Cell, int>, D: set<Cell>, p: int): int {
    (if p == cfg.red then |Flipped(own, D, p)| else 0) -
    (if p != cfg.red then |OwnedIn(own, D, cfg.red)| else 0)
  }

  /** Change of BLUE's score when p claims D; a claimant other than RED is credited as BLUE. */
  ghost function BlueDelta(cfg: Config, own: map<Cell, int>, D: set<Cell>, p: int): int {
    (if p != cfg.red then |Flipped(own, D, p)| else 0) -
    (if p != cfg.blue then |OwnedIn(own, D, cfg.blue)| else 0)
  }

  /**
   * Claiming one more cell x: what the claim already made says about x is what
   * the original map said, the map changes at x only when x was not already
   * p's, and each score moves by that one cell's credit.
   */
  lemma ClaimStep(cfg: Config, own: map<Cell, int>, D: set<Cell>, x: Cell, p: int)
    requires x !in D
    ensures var prev := OwnerOf(own, x);
      var cur := Claim(own, D, p);
      && OwnerOf(cur, x) == prev
      && Claim(own, D + {x}, p) == (if prev != p then cur[x := p] else cur)
      && RedDelta(cfg, own, D + {x}, p) == RedDelta(cfg, own, D, p) +
           (if prev != p then (if p == cfg.red then 1 else 0) - (if prev == cfg.red then 1 else 0) else 0)
      && BlueDelta(cfg, own, D + {x}, p) == BlueDelta(cfg, own, D, p) +
           (if prev != p then (if p != cfg.red then 1 else 0) - (if prev == cfg.blue then 1 else 0) else 0)
  {
    ClaimMapStep(own, D, x, p);
    FlippedStep(own, D, x, p);
    OwnedInStep(own, D, x, cfg.red);
    OwnedInStep(own, D, x, cfg.blue);
  }

  lemma FlippedStep(own: map<Cell, int>, D: set<Cell>, x: Cell, p: int)
    requires x !in D
    ensures |Flipped(own, D + {x}, p)| == |Flipped(own, D, p)| + (if OwnerOf(own, x) != p then 1 else 0)
  {
    assert Flipped(own, D + {x}, p) == Flipped(own, D, p) + (if OwnerOf(own, x) != p then {x} else {});
  }

  lemma OwnedInStep(own: map<Cell, int>, D: set<Cell>, x: Cell, q: int)
    requires x !in D
    ensures |OwnedIn(own, D + {x}, q)| == |OwnedIn(own, D, q)| + (if OwnerOf(own, x) == q then 1 else 0)
  {
    assert OwnedIn(own, D + {x}, q) == OwnedIn(own, D, q) + (if OwnerOf(own, x) == q then {x} else {});
  }

  lemma ClaimMapStep(own: map<Cell, int>, D: set<Cell>, x: Cell, p: int)
    requires x !in D
    ensures var cur := Claim(own, D, p);
      && OwnerOf(cur, x) == OwnerOf(own, x)
      && Claim(own, D + {x}, p) == (if OwnerOf(own, x) != p then cur[x := p] else cur)
  {
    var cur := Claim(own, D, p);
    var next := Claim(own, D + {x}, p);
    var expected := if OwnerOf(own, x) != p then cur[x := p] else cur;
    assert x !in Flipped(own, D, p);
    forall y ensures y in Flipped(own, D + {x}, p) <==> y in Flipped(own, D, p) || (y == x && OwnerOf(own, x) != p) {
    }
    assert next.Keys == expected.Keys;
    forall y | y in next ensures next[y] == expected[y] {
    }
  }

  /** The cells of b before (r, c) in row-major order: the ones a row-by-row sweep has visited. */
  ghost function Before(b: Rect, r: int, c: int): set<Cell> {
    set x | x in RectCells(b) && (x.0 < r || (x.0 == r && x.1 < c))
  }

  lemma BeforeCell(b: Rect, r: int, c: int)
    requires b.minRow <= r <= b.maxRow && b.minCol <= c <= b.maxCol
    ensures (r, c) !in Before(b, r, c)
    ensures Before(b, r, c + 1) == Before(b, r, c) + {(r, c)}
  {
  }

  lemma BeforeRow(b: Rect, r: int)
    requires b.minCol <= b.maxCol
    ensures Before(b, r, b.maxCol + 1) == Before(b, r + 1, b.minCol)
  {
  }

  lemma BeforeEnds(b: Rect)
    ensures Before(b, b.minRow, b.minCol) == {}
    ensures Before(b, b.maxRow + 1, b.minCol) == RectCells(b)
  {
  }

  /** How many cells are credited to q. */
  ghost function CountOwned(own: map<Cell, int>, q: int): nat {
    |set x | x in own && own[x] == q|
  }

  /** The effect of one capture by `player` from `line` on the game state. */
  ghost function CaptureEffect(s: GameState, cfg: Config, line: seq<Cell>, player: int): GameState
    requires WellShaped(s.grid, cfg)
  {
    var F := Flood(s.grid, s.blocked, cfg, line);
    if F == {} then s
    else
      Blocking(s, cfg, RectCells(BoundingBox(F)), player)
  }

  /** Block every cell of D for `player`; under Territory scoring also claim D and move the scores. */
  ghost function Blocking(s: GameState, cfg: Config, D: set<Cell>, player: int): GameState {
    if s.scoringMode == Area then
      s.(blocked := s.blocked + D,
         ownership := Claim(s.ownership, D, player),
         red := s.red + RedDelta(cfg, s.ownership, D, player),
         blue := s.blue + BlueDelta(cfg, s.ownership, D, player))
    else
      s.(blocked := s.blocked + D)
  }

  /**
   * Block the single cell x for `player`: under Territory scoring, a cell not
   * credited to `player` loses its previous holder's credit (RED's, else
   * BLUE's) and gains a credit for `player` (RED, else BLUE).
   */
  function BlockCell(s: GameState, cfg: Config, x: Cell, player: int): GameState {
    var prev := OwnerOf(s.ownership, x);
    var t := s.(blocked := s.blocked + {x});
    if s.scoringMode == Area && prev != player then
      t.(ownership := s.ownership[x := player],
         red := s.red - (if prev == cfg.red then 1 else 0) + (if player == cfg.red then 1 else 0),
         blue := s.blue - (if prev != cfg.red && prev == cfg.blue then 1 else 0) + (if player != cfg.red then 1 else 0))
    else t
  }

  /** Blocking D one cell at a time, in any order, is blocking D at once. */
  lemma BlockingStep(s: GameState, cfg: Config, D: set<Cell>, x: Cell, player: int)
    requires x !in D && cfg.red != cfg.blue
    ensures Blocking(s, cfg, D + {x}, player) == BlockCell(Blocking(s, cfg, D, player), cfg, x, player)
  {
    assert s.blocked + (D + {x}) == (s.blocked + D) + {x};
    if s.scoringMode == Area {
      ClaimStep(cfg, s.ownership, D, x, player);
    }
  }

  /** The scores equal the number of cells credited to each side, and only RED or BLUE is ever credited. */
  ghost predicate Balanced(s: GameState, cfg: Config) {
    && (forall x :: x in s.ownership ==> s.ownership[x] == cfg.red || s.ownership[x] == cfg.blue)
    && s.red == CountOwned(s.ownership, cfg.red)
    && s.blue == CountOwned(s.ownership, cfg.blue)
  }

  /**
   * Claiming D for p moves credit cell by cell: p gains the cells it did not
   * hold, every other side loses the cells of D it held.
   */
  lemma ClaimCounts(own: map<Cell, int>, D: set<Cell>, p: int, q: int)
    requires q != 0
    ensures CountOwned(Claim(own, D, p), q) ==
      if q == p then CountOwned(own, q) + |Flipped(own, D, p)|
      else CountOwned(own, q) - |OwnedIn(own, D, q)|
  {
    if q == p { ClaimGains(own, D, p); } else { ClaimLosses(own, D, p, q); }
  }

  lemma ClaimGains(own: map<Cell, int>, D: set<Cell>, p: int)
    requires p != 0
    ensures CountOwned(Claim(own, D, p), p) == CountOwned(own, p) + |Flipped(own, D, p)|
  {
    var own' := Claim(own, D, p);
    var G := Flipped(own, D, p);
    var A := set x | x in own && own[x] == p;
    var A' := set x | x in own' && own'[x] == p;
    forall x ensures x in A' <==> x in A + G {
      if x in G { assert x in own' && own'[x] == p; }
      else if x in own' { assert own'[x] == own[x]; }
    }
    assert A' == A + G;
    forall x | x in A ensures x !in G { assert OwnerOf(own, x) == p; }
    assert A * G == {};
  }

  lemma ClaimLosses(own: map<Cell, int>, D: set<Cell>, p: int, q: int)
    requires q != 0 && q != p
    ensures CountOwned(Claim(own, D, p), q) == CountOwned(own, q) - |OwnedIn(own, D, q)|
  {
    var own' := Claim(own, D, p);
    var G := Flipped(own, D, p);
    var L := OwnedIn(own, D, q);
    var A := set x | x in own && own[x] == q;
    var A' := set x | x in own' && own'[x] == q;
    forall x ensures x in A' <==> x in A - L {
      if x in G { assert own'[x] == p; }
      else if x in own' { assert own'[x] == own[x]; }
      if x in L { assert x in G; }
    }
    assert A' == A - L;
    assert L <= A;
    assert A == (A - L) + L;
    assert (A - L) * L == {};
  }

  /** A capture by RED or BLUE keeps the scores equal to the credited cell counts. */
  lemma CaptureKeepsBalance(s: GameState, cfg: Config, line: seq<Cell>, player: int)
    requires ValidConfig(cfg) && WellShaped(s.grid, cfg)
    requires Balanced(s, cfg) && (player == cfg.red || player == cfg.blue)
    ensures Balanced(CaptureEffect(s, cfg, line, player), cfg)
  {
    var F := Flood(s.grid, s.blocked, cfg, line);
    if F != {} && s.scoringMode == Area {
      var D := RectCells(BoundingBox(F));
      ClaimCounts(s.ownership, D, player, cfg.red);
      ClaimCounts(s.ownership, D, player, cfg.blue);
    }
  }

  /**
   * A capture only adds blocked cells: when anything is captured it blocks the
   * whole bounding rectangle of the captured set, which lies inside the grid
   * when the line does; it never touches the grid, the turn or the flags.
   */
  lemma CaptureBlocksRectangle(s: GameState, cfg: Config, line: seq<Cell>, player: int)
    requires WellShaped(s.grid, cfg)
    ensures var t := CaptureEffect(s, cfg, line, player);
      var F := Flood(s.grid, s.blocked, cfg, line);
      && s.blocked <= t.blocked
      && t.(blocked := s.blocked, ownership := s.ownership, red := s.red, blue := s.blue) == s
      && (F == {} ==> t == s)
      && (F != {} ==> exists b :: Tight(b, F) && t.blocked == s.blocked + RectCells(b) && F <= RectCells(b))
      && (F != {} && Elements(line) <= Box(cfg) ==> t.blocked - s.blocked <= Box(cfg))
  {
    var F := Flood(s.grid, s.blocked, cfg, line);
    if F != {} {
      var b := BoundingBox(F);
      BlockingFrame(s, cfg, RectCells(b), player);
      RectCellsMembers(b);
      if Elements(line) <= Box(cfg) {
        FloodInBox(s.grid, s.blocked, cfg, line);
        RectInBox(b, F, cfg);
      }
    }
  }

  lemma BlockingFrame(s: GameState, cfg: Config, D: set<Cell>, player: int)
    ensures var t := Blocking(s, cfg, D, player);
      && t.blocked == s.blocked + D
      && t.(blocked := s.blocked, ownership := s.ownership, red := s.red, blue := s.blue) == s
  {
  }

  /** When the line is inside the grid, so is everything captured from it. */
  lemma FloodInBox(grid: seq<seq<int>>, blocked: set<Cell>, cfg: Config, line: seq<Cell>)
    requires WellShaped(grid, cfg) && Elements(line) <= Box(cfg)
    ensures Flood(grid, blocked, cfg, line) <= Box(cfg)
  {
    FloodSpec(grid, blocked, cfg, line);
    forall y | y in Flood(grid, blocked, cfg, line) ensures y in Box(cfg) {
      if y !in line { AdmittedInBox(grid, blocked, cfg, y); }
    }
  }

  /** The tight rectangle of a set of grid cells lies in the grid. */
  lemma RectInBox(b: Rect, S: set<Cell>, cfg: Config)
    requires Tight(b, S) && S <= Box(cfg)
    ensures RectCells(b) <= Box(cfg)
  {
    var y1 :| y1 in S && y1.0 == b.minRow;
    var y2 :| y2 in S && y2.0 == b.maxRow;
    var y3 :| y3 in S && y3.1 == b.minCol;
    var y4 :| y4 in S && y4.1 == b.maxCol;
    assert y1 in Box(cfg) && y2 in Box(cfg) && y3 in Box(cfg) && y4 in Box(cfg);
    forall x | x in RectCells(b) ensures x in Box(cfg) {
      assert x == (x.0, x.1);
    }
  }

  /** Outside Territory scoring a capture leaves scores and ownership alone. */
  lemma CaptureScoresOnlyArea(s: GameState, cfg: Config, line: seq<Cell>, player: int)
    requires WellShaped(s.grid, cfg) && s.scoringMode != Area
    ensures var t := CaptureEffect(s, cfg, line, player);
      t.red == s.red && t.blue == s.blue && t.ownership == s.ownership
  {
  }

  /** One cell of the row-major sweep of b. */
  lemma SweepCell(s: GameState, cfg: Config, b: Rect, r: int, c: int, player: int)
    requires cfg.red != cfg.blue
    requires b.minRow <= r <= b.maxRow && b.minCol <= c <= b.maxCol
    ensures Blocking(s, cfg, Before(b, r, c + 1), player) ==
            BlockCell(Blocking(s, cfg, Before(b, r, c), player), cfg, (r, c), player)
  {
    BeforeCell(b, r, c);
    BlockingStep(s, cfg, Before(b, r, c), (r, c), player);
  }

  /** The end of one row of the sweep is the start of the next. */
  lemma SweepRow(s: GameState, cfg: Config, b: Rect, r: int, player: int)
    requires b.minCol <= b.maxCol
    ensures Blocking(s, cfg, Before(b, r, b.maxCol + 1), player) == Blocking(s, cfg, Before(b, r + 1, b.minCol), player)
  {
    BeforeRow(b, r);
  }

  /** The sweep starts from the unchanged state and ends having blocked all of b. */
  lemma SweepEnds(s: GameState, cfg: Config, b: Rect, player: int)
    ensures Blocking(s, cfg, Before(b, b.minRow, b.minCol), player) == s
    ensures Blocking(s, cfg, Before(b, b.maxRow + 1, b.minCol), player) == Blocking(s, cfg, RectCells(b), player)
  {
    BeforeEnds(b);
    assert Flipped(s.ownership, {}, player) == {};
    assert OwnedIn(s.ownership, {}, cfg.red) == {};
    assert OwnedIn(s.ownership, {}, cfg.blue) == {};
    assert Claim(s.ownership, {}, player) == s.ownership;
    assert s.blocked + {} == s.blocked;
  }

  /**
   * The state after a row-major sweep of b has blocked, one BlockCell at a
   * time, every cell before (r, c).
   */
  ghost function Sweep(s: GameState, cfg: Config, b: Rect, r: int, c: int, player: int): GameState
    requires b.minRow <= r && b.minCol <= c <= b.maxCol + 1
    decreases r - b.minRow, c - b.minCol
  {
    if c > b.minCol then BlockCell(Sweep(s, cfg, b, r, c - 1, player), cfg, (r, c - 1), player)
    else if r > b.minRow then Sweep(s, cfg, b, r - 1, b.maxCol + 1, player)
    else s
  }

  /** Sweeping cell by cell up to (r, c) is blocking the cells before (r, c) at once. */
  lemma {:induction false} SweepIsBlocking(s: GameState, cfg: Config, b: Rect, r: int, c: int, player: int)
    requires cfg.red != cfg.blue
    requires b.minRow <= r <= b.maxRow + 1 && b.minCol <= c <= b.maxCol + 1 && b.minCol <= b.maxCol
    requires r == b.maxRow + 1 ==> c == b.minCol
    ensures Sweep(s, cfg, b, r, c, player) == Blocking(s, cfg, Before(b, r, c), player)
    decreases r - b.minRow, c - b.minCol
  {
    if c > b.minCol {
      SweepIsBlocking(s, cfg, b, r, c - 1, player);
      SweepCellCase(s, cfg, b, r, c, player);
    } else if r > b.minRow {
      SweepIsBlocking(s, cfg, b, r - 1, b.maxCol + 1, player);
      SweepRowCase(s, cfg, b, r, player);
    } else {
      SweepEnds(s, cfg, b, player);
    }
  }

  /** The step of SweepIsBlocking within a row. */
  lemma SweepCellCase(s: GameState, cfg: Config, b: Rect, r: int, c: int, player: int)
    requires cfg.red != cfg.blue
    requires b.minRow <= r <= b.maxRow && b.minCol < c <= b.maxCol + 1
    requires Sweep(s, cfg, b, r, c - 1, player) == Blocking(s, cfg, Before(b, r, c - 1), player)
    ensures Sweep(s, cfg, b, r, c, player) == Blocking(s, cfg, Before(b, r, c), player)
  {
    SweepCell(s, cfg, b, r, c - 1, player);
  }

  /** The step of SweepIsBlocking from the end of one row to the start of the next. */
  lemma SweepRowCase(s: GameState, cfg: Config, b: Rect, r: int, player: int)
    requires b.minRow < r && b.minCol <= b.maxCol
    requires Sweep(s, cfg, b, r - 1, b.maxCol + 1, player) == Blocking(s, cfg, Before(b, r - 1, b.maxCol + 1), player)
    ensures Sweep(s, cfg, b, r, b.minCol, player) == Blocking(s, cfg, Before(b, r, b.minCol), player)
  {
    SweepRow(s, cfg, b, r - 1, player);
  }

  /** The whole sweep of b blocks exactly the cells of b. */
  lemma SweepAll(s: GameState, cfg: Config, b: Rect, player: int)
    requires cfg.red != cfg.blue
    requires b.minRow <= b.maxRow && b.minCol <= b.maxCol
    ensures Sweep(s, cfg, b, b.maxRow + 1, b.minCol, player) == Blocking(s, cfg, RectCells(b), player)
  {
    SweepIsBlocking(s, cfg, b, b.maxRow + 1, b.minCol, player);
    SweepEnds(s, cfg, b, player);
  }
}
