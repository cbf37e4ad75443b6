# Square Wars rules engine, in Dafny

Square Wars is a column-drop game for RED and BLUE on a `ROWS` x `COLS` grid. A
dropped piece falls to the lowest row of its column that is empty and not
blocked. A run of four or more of the mover's unblocked pieces through the
dropped piece along one of four directions is a win. A win floods outward from
the run over 8-neighbouring non-empty cells and blocks the whole bounding
rectangle of what the flood reached. Classic and Quick-Fire scoring count one
game per win. Territory ("area") scoring credits every blocked cell to the
capturer and takes it from its previous holder. Quick-Fire ends the game when
either score reaches the target. Every mode ends the game when no cell is open.

This project models the engine in `js/script.js`:

- `board.dfy` (module `Board`) holds the configuration and the state as one value.
  The configuration is the grid size, the two player codes, the default
  Quick-Fire target and the four scan directions, which come from a constants
  module that is not part of this model.
- `lines.dfy` (module `Lines`) specifies the maximal run through a cell and the
  first winning direction.
- `capture.dfy` (module `Capture`) specifies the flood as a least fixpoint, the
  bounding rectangle, and the Territory credit moved when a rectangle is
  blocked.
- `rules.dfy` (module `Rules`) gives one drop as a function of the state, plus the
  end-of-game check, the reset, the winner label, the Quick-Fire target clamp and
  the snapshot defaults.
- `game.dfy` (module `Engine`) is the engine as the source writes it. It is a class
  `Game` whose fields are the module variables, with one method per engine
  function of the source, plus the loop bodies extracted as methods that are
  listed under "## Left out". Each loop carries its invariants, and each method
  is proved equal to the rule functions or to an explicit update of the fields.

Coordinates are `(row, col)` pairs in place of the source's `"row-col"` string
keys. Integers are unbounded. The source narrows integers in two places, both
with the `| 0` coercion. On restored scores it is written out as `ToInt32`. On
stored ownership values it is not modelled (see `BlockOffCell` below).

## Model

| member | source | states |
|---|---|---|
| Board.OtherAlternates | js/script.js:225-227 | the turn passes from RED to BLUE and from anything else to RED; the new player differs from the old one, and two passes come back to RED or BLUE |
| Lines.RunFromShape | js/script.js:319-332 | the forward walk starts at its first cell, holds only in-grid, unblocked cells of `player`, steps by the direction, and stops just before a cell it may not walk onto |
| Lines.RunToShape | js/script.js:334-347 | the backward walk ends at its first cell, holds only walkable cells, steps by the direction, and stops just past a cell it may not walk onto |
| Lines.LineShape | js/script.js:316-350 | the line is the anchor plus both walks, has length 1 + backward steps + forward steps, is contiguous along the direction from its negative end to its positive end, every non-anchor cell is walkable, and the cell past each end is not |
| Lines.LineAnchor | js/script.js:316-318 | the anchor sits at index "backward steps" and every other cell is in the grid, held by `player` and unblocked |
| Lines.LineEnds | js/script.js:321-347 | the line is maximal: the cell before its first cell and the cell after its last cell are out of the grid, not `player`'s, or blocked |
| Lines.LineCellsHeld | js/script.js:305-308 | every cell of a line through an in-grid anchor lies in the grid and holds the anchor's player |
| Lines.FirstWinningSpec | js/script.js:304-314 | a winning line is found iff some direction gives a line of four or more, and the one found is that of the first such direction in order |
| Capture.FloodFromSpec | js/script.js:361-386 | iterating one round of absorption from S reaches a set that contains S, lies in the grid plus the line, is closed, and adds only admissible cells |
| Capture.FloodFromLeast | js/script.js:361-386 | the iteration from S stays inside every closed set containing S |
| Capture.FloodSpec | js/script.js:353-386 | the captured set contains every unblocked line cell, each member is unblocked and is a line cell or an in-grid non-empty cell, and the set is closed under 8-neighbour absorption |
| Capture.FloodLeast | js/script.js:353-386 | the captured set is contained in every closed set holding the unblocked line cells |
| Capture.FloodEmptyIff | js/script.js:356-388 | nothing is captured iff every line cell is blocked and no line cell has an admissible neighbour |
| Capture.FloodInGrid | js/script.js:368-381 | when the line lies in the grid on non-empty cells, every captured cell is in the grid (by `Capture.FloodInBox`) and admissible |
| Capture.BoundingBox | js/script.js:396-399 | the bounding rectangle holds every captured cell and each of its four bounds is reached by one |
| Capture.Bounds | js/script.js:390-399 | the min and max row and column of a non-empty list of cells bound all of them and are each reached |
| Capture.TightUnique | js/script.js:396-399 | a set has exactly one such tight rectangle |
| Capture.RectCellsMembers | js/script.js:401-402 | the swept cells are exactly the cells inside the rectangle |
| Capture.ClaimStep | js/script.js:406-414 | blocking one more cell that is not credited to the capturer re-credits it to the capturer and moves one point from its old holder to the capturer; a cell already held changes nothing |
| Capture.FlippedStep | js/script.js:407-408 | one more swept cell adds one re-credited cell exactly when it was not the capturer's |
| Capture.OwnedInStep | js/script.js:407-410 | one more swept cell adds one to a side's holdings in the swept area exactly when that side held it |
| Capture.ClaimMapStep | js/script.js:408-413 | the ownership map after claiming one more cell is the old map with that cell set to the capturer, if it was not already the capturer's |
| Capture.BlockingStep | js/script.js:401-417 | blocking a set of cells one cell at a time, in any order, gives the same state as blocking the whole set at once |
| Capture.ClaimCounts | js/script.js:406-414 | after claiming D for p, p's credited count grows by the cells of D it did not hold and every other side's shrinks by the cells of D it held |
| Capture.ClaimGains | js/script.js:411-413 | the capturer's credited count grows by exactly the re-credited cells |
| Capture.ClaimLosses | js/script.js:409-413 | another side's credited count shrinks by exactly its cells in the swept area |
| Capture.CaptureKeepsBalance | js/script.js:401-417 | a capture by RED or BLUE keeps each score equal to the number of cells credited to that side, and only RED or BLUE is ever credited |
| Capture.CaptureBlocksRectangle | js/script.js:388-417 | a capture only adds blocked cells; when anything is captured it blocks exactly the tight rectangle of the captured set, which contains the whole set and, when the line lies in the grid, lies in the grid (during play this is `Rules.PlayBlocks`); it changes nothing but blocked cells, credit and scores; an empty capture changes nothing |
| Capture.BlockingFrame | js/script.js:401-404 | blocking a set adds exactly that set to the blocked cells and touches nothing but blocked cells, credit and scores |
| Capture.FloodInBox | js/script.js:368-381 | when the line is in the grid, so is every captured cell |
| Capture.RectInBox | js/script.js:396-402 | the tight rectangle of a set of grid cells lies in the grid |
| Capture.CaptureScoresOnlyArea | js/script.js:406 | outside Territory scoring a capture leaves scores and ownership alone |
| Capture.SweepCell | js/script.js:402-415 | blocking the rectangle's cells before the cell after (r, c), in row-major order, equals blocking those before (r, c) and then (r, c) itself |
| Capture.SweepRow | js/script.js:401-402 | the end of one row of the sweep is the start of the next |
| Capture.SweepEnds | js/script.js:401-402 | the sweep starts from the unchanged state and, after the last row, has blocked the whole rectangle |
| Capture.SweepIsBlocking | js/script.js:401-417 | the row-by-row, cell-by-cell sweep up to (r, c) equals blocking at once the cells of the rectangle before (r, c) |
| Capture.SweepAll | js/script.js:401-417 | the whole sweep of a rectangle equals blocking all its cells at once |
| Rules.LandingFrom | js/script.js:208-209 | scanning upward from a row finds the largest open row at or below it, and finds none exactly when no row at or below it is open |
| Rules.PlaceShaped | js/script.js:210 | writing a piece keeps the grid's shape |
| Rules.PlayRefusals | js/script.js:682-714 | a drop is refused, and changes nothing, exactly when the game is over or no row of the column is both empty and unblocked; a column outside the grid never has such a row |
| Rules.PlayPlaces | js/script.js:684-688 | a successful drop writes the mover at the lowest open row of the column (every row below it is occupied or blocked), changes no other cell and records the move |
| Rules.PlayFrame | js/script.js:686-701 | a successful drop passes the turn, win or not, and leaves the settings alone |
| Rules.PlayScoresClassic | js/script.js:691-700 | under Classic and Quick-Fire scoring a winning drop adds exactly one to the mover's score and a non-winning drop leaves both scores unchanged; ownership is untouched |
| Rules.PlayBlocks | js/script.js:691-700 | blocked cells only accumulate, all new blocked cells lie in the grid, and a drop without a win blocks nothing |
| Rules.PlayEnds | js/script.js:293-302 | after a successful drop the game is still on iff the Quick-Fire target is not reached and some cell is open |
| Rules.PlayKeepsBalance | js/script.js:406-415 | under Territory scoring a drop keeps each score equal to the cells credited to that side, and RED or BLUE stays to move |
| Rules.Replay | js/script.js:682-715 | any sequence of drops keeps the grid's shape |
| Rules.ReplayKeepsBalance | js/script.js:174-178 | from a balanced state such as a reset one, every sequence of Territory drops keeps the scores equal to the credited counts |
| Rules.ReplayGrowsBlocked | js/script.js:401-404 | blocked cells only accumulate over any sequence of drops |
| Rules.ResetFresh | js/script.js:170-178 | a reset game is well shaped and balanced, and every cell is open |
| Rules.WinnerLabel | js/script.js:273-286 | "Tie" iff the scores are equal; a RED label iff RED's score is higher; a BLUE label iff BLUE's score is higher; when the scores differ, the labels against the computer are shown iff the mode is single-player |
| Rules.ClampTarget | js/script.js:133 | the target lies in 1..10, is the input when that is in range, and is the nearer bound otherwise |
| Rules.TargetFromInput | js/script.js:132-133 | an empty field counts as 5, and the target lies in 1..10 |
| Rules.ToInt32 | js/script.js:661-662 | the coerced score is a signed 32-bit integer, congruent to the input modulo 2^32, and equal to it when it already fits |
| Rules.Restored | js/script.js:657-669 | a restored state always has a game mode, a non-zero target, no empty difficulty, and 32-bit scores |
| Rules.RestoreDefaults | js/script.js:657-669 | missing fields restore to no blocked cells, zero scores, a stopped game, Multi-player, Classic scoring, the default target and no credited cells; a present game mode is kept |
| Rules.RestoreSerialized | js/script.js:641-669 | restoring a state's own snapshot gives it back iff its scores fit in 32 bits, its target is non-zero, a mode is set and the difficulty is not empty |
| Rules.RestoreIdempotent | js/script.js:641-669 | a restored state survives another snapshot and restore unchanged |
| Engine.Game.constructor | js/script.js:35-50 | the state at module load: no grid, RED to move, nothing blocked or credited, scores zero, game on, Classic scoring, no mode or difficulty, the default target |
| Engine.Game.InitGame | js/script.js:170-179 | the new state is the reset of the old one: an empty grid of the configured shape, RED to move, scores zero, nothing blocked or credited; the settings are kept |
| Engine.Game.GetLine | js/script.js:316-350 | the array built by the two walking loops is the maximal line through the anchor that Lines.LineShape describes |
| Engine.Game.ConnectedSquares | js/script.js:353-386 | the breadth-first queue loop captures exactly the least closed set of the flood, and no cell is listed twice |
| Engine.Game.SeedSquares | js/script.js:356-359 | the flood starts with exactly the line's unblocked cells, and no cell is listed twice |
| Engine.Game.AbsorbNeighbours | js/script.js:364-384 | scanning the eight offsets of a dequeued cell captures and queues each admissible neighbour not yet captured: the queue becomes the old queue followed by exactly the newly captured cells, the captured set stays inside the flood, and no dequeued cell is left with an uncaptured admissible neighbour |
| Engine.Game.AbsorbOffset | js/script.js:366-382 | one offset of the scan keeps the flood bookkeeping (captured cells inside the flood, listed once, queued after the old queue) and extends the scanned offsets by one |
| Engine.Game.BoxOffConnectedArea | js/script.js:352-417 | the new state is the capture effect: unchanged when the flood is empty, otherwise its tight rectangle blocked and, under Territory scoring, claimed |
| Engine.Game.BoxOffRect | js/script.js:401-417 | the nested row and column loops block, and under Territory scoring claim, exactly the cells of the rectangle |
| Engine.Game.BoxOffRow | js/script.js:402-416 | one row of the sweep advances the state from the start of that row to the start of the next |
| Engine.Game.BlockOffCell | js/script.js:403-415 | one swept cell is blocked; under Territory scoring a cell not already the capturer's moves its point from its holder to the capturer |
| Engine.Game.CheckForWin | js/script.js:304-314 | reports a win iff some direction gives a line of four or more; on a win the state is the capture from the first such line by the anchor's player, otherwise nothing changes |
| Engine.Game.HasAnyValidMove | js/script.js:264-271 | the nested scan finds a cell iff some cell is empty and unblocked |
| Engine.Game.ShowEnd | js/script.js:288-291 | the game stops and the label shown is the winner label of the current scores |
| Engine.Game.CheckEndOfGame | js/script.js:293-302 | the game stops exactly when the Quick-Fire target is reached or no cell is open, and then the winner label is shown |
| Engine.Game.ApplyRemoteMove | js/script.js:682-715 | the new state and the returned flag are those of one drop, and the grid keeps its shape |
| Engine.Game.PlaceAt | js/script.js:686-710 | once the landing row is found, the piece lands, the turn passes and the end check runs, as one drop prescribes |
| Engine.Game.LandPiece | js/script.js:686-700 | the piece is written and the move recorded; a completed line is captured and, under Classic or Quick-Fire scoring, scored |
| Engine.Game.DropPiece | js/script.js:205-250 | the state after a click-drop is that of one drop; the computer's reply is scheduled iff a piece was placed, the game is single-player and still on, and BLUE is to move |
| Engine.Game.MakeComputerMove | js/script.js:252-261 | the computer drops into its chosen column only while the game is on, single-player and BLUE is to move, and not when the chooser returns -1; it never schedules a further computer move, since after BLUE's drop RED is to move |
| Engine.Game.OnColumnClick | js/script.js:184-189 | a click drops a piece unless the game is over, a dialog is open, or it is the computer's turn in single-player mode; the computer's reply is scheduled iff the click placed a piece and the game is single-player, still on and BLUE is to move |
| Engine.Game.SetGameMode | js/script.js:53-54 | only the game mode changes |
| Engine.Game.SetScoringMode | js/script.js:62-74 | the scoring mode changes, and credited cells are cleared unless the mode is Quick-Fire |
| Engine.Game.ConfirmQuickfire | js/script.js:130-139 | the target becomes the clamped input, always in 1..10, and credited cells are cleared |
| Engine.Game.SetDifficulty | js/script.js:153-154 | only the difficulty changes |
| Engine.Game.ChangeMode | js/script.js:617-625 | scores are cleared, the game stops, and mode and difficulty are forgotten; the board stays |
| Engine.Game.GetSerializableState | js/script.js:641-656 | the snapshot carries every field of the state as it stands, and restoring it gives this state back whenever nothing in it is normalised away |
| Engine.Game.RestoreFromState | js/script.js:657-669 | the new state is the defaulted snapshot, and it is well shaped iff the snapshot's grid is |

## Left out

- ValidConfig: the constants module is not part of this model, so two facts about it are assumed. Every entry of `DIRECTIONS` is a non-zero step of at most one row and one column (a `(0, 0)` entry would make `getLine` loop forever, and a step of 2 would skip cells). `QUICKFIRE_DEFAULT` lies in 1..10.

- The user interface in `js/ui.js` is not part of this model. This covers drawing, animation, layout and the end-game dialog. It changes no game state.
- The computer's column choice (`chooseComputerMove` in `ai.js`) is not part of this model. `MakeComputerMove` takes the chosen column as a parameter.
- The think delay (`setTimeout`) and `requestAnimationFrame` are not modelled. `DropPiece` returns whether the computer's reply would be scheduled.
- Modal and event wiring is not modelled: `bindModalButtons`, `ensureControlsUI`, the key handler, `openQuickfireModal`, `backFromQuickfire`, `onQuickfireInput` and the instructions dialog. The one thing kept is the state reset behind the two change-mode buttons (`ChangeMode`).
- The "try again" button is `InitGame`, so it gets no member of its own. It also zeroes the scores, which `InitGame` does anyway.
- The open-dialog test of the click handler is the `dialogOpen` parameter of `OnColumnClick`.
- `moveToken` only numbers animations, so it is left out.
- `serializeGame` and `restoreGame` are JSON transport and are left out. A snapshot is a record whose fields may be missing (`Option`).
- TargetFromInput: the slider's text goes through JavaScript's `Number`. Non-numeric and fractional inputs are not modelled. The input is an optional integer.
- Restored: a scoring mode, game mode or difficulty outside the known values cannot be represented. `restoreFromState` stores such a value as it stands when it is truthy. Every `||` on js/script.js:660-669 replaces a falsy value (`0`, `NaN`, `""`, `null`) by its default, and the model does the same for a missing field, a zero target and an empty difficulty.
- Restored: the blocked-cell keys and ownership entries of a snapshot are taken as cells and integers. Malformed keys are not represented.
- BlockOffCell: the `| 0` coercion on stored ownership values is not modelled. Stored values are the integers the engine itself wrote.
- ApplyRemoteMove, DropPiece, MakeComputerMove and OnColumnClick require a grid of the configured shape (`Valid()`), but the source has no such guard, and the following cases are outside the model. A drop before the first `initGame` finds `grid = []` with the game on, and the source throws at the first row lookup. A grid adopted from a snapshot may be wider than the configuration, so a piece can land in a column at or beyond `COLS`. It may also have fewer than `ROWS` rows, and then the lookup of `grid[ROWS-1]` throws. A row that is present but shorter than `COLS` throws nothing. Its missing cells read as `undefined`, so no piece lands there and the open-cell scan skips them, but the flood absorbs them because `undefined !== 0`.
- Snapshot: a snapshot always carries a grid and a player to move. A missing grid, which makes `restoreFromState` throw, and a missing player to move, which is stored as `undefined`, cannot be represented.
- Engine.Game.RestoreFromState does not require the snapshot's grid to have the configured shape, just as the source does not. Its contract says the result is well shaped exactly when the snapshot's grid is.
- The source writes some loop bodies inline. `SeedSquares`, `AbsorbNeighbours`, `AbsorbOffset`, `BoxOffRect`, `BoxOffRow`, `BlockOffCell`, `LandPiece` and `PlaceAt` are those bodies as separate methods, in the same order and with the same effect.
- ASCII only: `Capitalized` upper-cases ASCII letters. JavaScript's `toUpperCase` also maps non-ASCII letters.
- The ownership map uses `0` for "nobody", as `ownership[key] | 0` does for a missing key.

## Notes on the source

These are places where the behaviour of `js/script.js` differs from a plain reading of the game's description. The model follows the code:

- The flood absorbs any in-grid, unblocked, non-empty cell next to a captured cell or a line cell. That includes the opponent's pieces, not only the capturer's.
- The queue starts with the whole winning line, blocked cells included. So the neighbours of a blocked line cell are also absorbed, and a line whose cells are all blocked is not automatically a no-op (`Capture.FloodEmptyIff`). In play this cannot happen, because the anchor of a winning line is never blocked.
- A drop before the first `initGame` is not a harmless no-op. The exported `applyRemoteMove` then meets the load-time state, which has an empty grid with the game on, and throws.
- Empty cells inside the blocked rectangle stay empty. A later piece can therefore rest above a blocked hole, and the model claims no gravity invariant.
