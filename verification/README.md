# Minesweeper engine in Dafny

A model of the minefield engine of a browser minesweeper game
(`js/minesweeper.js`), with proofs about it. The model covers mine placement,
neighbour counting, the cascading reveal, flag markers, and the win/loss
bookkeeping done by a click and by the end of the game.

The board is a row-major grid of `WIDTH * HEIGHT` cells. Each cell is named by
its flat index `row * WIDTH + col`. The three constants `WIDTH`, `HEIGHT` and
`MINES` are the parameters of a `Config`. A cell holds either a mine or the
number of mines next to it (`Content = Mine | Count(n)`). The engine finds a
cell's neighbours with eight tests on the flat index (`i >= WIDTH`,
`i % WIDTH != 0`, and so on). The model keeps those tests as written
(`Grid.Guard`) and proves that they give exactly the geometric neighbourhood,
with no wrap-around between rows.

The page records each cell's status as CSS classes on its `div`. The model
records them as sets of indices in a `Game` value:

- `cell-revealed` becomes `revealed`;
- `flag` becomes `flags`;
- `mine-exploded` becomes `exploded`;
- `mine-revealed` becomes `disclosed`;
- `flag-incorrect` becomes `wrongFlags`.

Two booleans stand for the rest:

- `over` stands for the click and context-menu listeners that `gameOver`
  removes. Once it is set, clicks and right-clicks do nothing.
- `timing` stands for the running interval timer.

Every operation is a pure function from one `Game` to the next.

Modules:

- `Grid`: the configuration, rows and columns, the neighbour list in the
  engine's visiting order, and the proof that it is exactly the adjacent
  in-grid cells.
- `Minefield`: mine placement (`PopulateMinefield`) and neighbour counting
  (`CalculateMinefield`).
- `Engine`: the session state, and the operations `Reveal` (the recursive
  cascade), `CheckCell`, `ToggleMarker` and `GameOver`. It also defines
  `Trail` and `Reached`, a reference definition of the flood fill, and proves
  that the cascade reveals exactly the reached cells.
- `Session`: a new game, the invariant every reachable session keeps, play
  over a sequence of clicks and right-clicks, and the win and loss
  properties.

Mine placement draws `Math.floor(Math.random() * WIDTH * HEIGHT)` until
`MINES` distinct cells hold a mine. In the model, the draws are a parameter:
a sequence of in-grid candidate indices, consumed in order. Placement
succeeds exactly when the draws contain at least `MINES` distinct cells. When
the draws run out first, placement returns `None`. The original loops forever
when `MINES > WIDTH * HEIGHT`; with the draws modelled as a sequence, that
case is always `None`.

Points of the code the model keeps as they are:

- **Win check.** The win test at line 139 compares the number of cells
  carrying `cell-revealed` with `EMPTY_CELLS`, and an exploded mine carries
  that class too (line 150). So a click on a mine, when exactly one safe cell
  is still hidden, ends the game as lost and then also as won.
  `Session.WinAfterLoss` exhibits this on a two-cell board.
  `Session.WinRevealsEverySafeCell` proves that a won game in which no mine
  exploded has revealed exactly the cells without a mine.
- **No input checks.** The code checks neither the configuration nor the
  clicked index. The model requires indices to be on the board, since they
  come from the board's own cells. It requires a board of at least one row
  and one column (`WellSized`, a precondition of `Session.Start` and
  `Session.NewGame`, and part of `Engine.Valid`). It places no bound on the
  number of mines.
- **Flag counter.** The remaining-marker counter has no lower bound
  (`Session.MarkersCanGoNegative`).

## Model

| member | source | states |
|---|---|---|
| Grid.NeighbourhoodExact | js/minesweeper.js:109-117 | The eight guarded index tests select exactly the in-grid cells at most one row and one column away: no wrap-around at the left or right edge, each neighbour once, at most eight. |
| Grid.NeighbourSymmetric | js/minesweeper.js:163-171 | If `j` is one of the cascade's neighbours of `i`, then `i` is one of the neighbours of `j`, and `j` is on the board. |
| Minefield.PopulateMinefield | js/minesweeper.js:87-99 | Placement succeeds exactly when the draws hold at least `MINES` distinct cells. The mines are then exactly the distinct cells among the draws consumed, there are exactly `MINES` of them, and every other cell still holds 0. Placement stops at the draw that places the last mine. |
| Minefield.AdjacentMines | js/minesweeper.js:107-117 | The engine's eight guarded tests count exactly the mines adjacent to the cell, at most eight. |
| Minefield.CalculateMinefield | js/minesweeper.js:101-124 | Mines stay where they are, and every non-mine cell ends up holding the number of mines adjacent to it (0 to 8), even though the loop rewrites the array it reads. |
| Minefield.ZeroHasSafeNeighbours | js/minesweeper.js:161-171 | On a counted board, every neighbour of a zero cell is on the board and holds no mine. |
| Engine.GameOver | js/minesweeper.js:200-211 | The board is locked and the clock stopped. Every flag on a non-mine cell is marked incorrect, and no flag on a mine is. Every mine is disclosed unless the game was won, only mines are, and a win discloses nothing. Earlier marks are kept, and nothing else changes. |
| Engine.Uncover | js/minesweeper.js:148-156 | Revealing a hidden cell reveals only that cell, removes its flag and gives that flag back to the counter. The hidden set shrinks. |
| Engine.Reveal | js/minesweeper.js:146-177 | An already revealed cell changes nothing. Otherwise: the cell is revealed; every new cell lies on a trail from it; every newly revealed zero cell has all its neighbours revealed; flags go exactly with their cells, and the counter with them. A newly revealed mine explodes and locks the board. On a counted board, revealing a non-mine never reveals a mine. |
| Engine.RevealHidden | js/minesweeper.js:158-173 | A mine explodes and ends the game. A zero cascades over its neighbours. Any other count reveals just the cell. Each case is a finished cascade from the cell. |
| Engine.RevealMineLocks | js/minesweeper.js:158-160 | Revealing any hidden mine explodes it and locks the board, whatever was marked before. |
| Engine.RevealAll | js/minesweeper.js:163-171 | Revealing the listed neighbours in turn reveals each of them, and the result is one finished cascade rooted at the list. |
| Engine.RevealExact | js/minesweeper.js:146-177 | Clicking a hidden cell reveals exactly the cells reachable from it along hidden cells, moving on only from zero counts: every such cell, and no other hidden cell. |
| Engine.CascadeExact | js/minesweeper.js:146-177 | Any finished cascade from one hidden cell reveals exactly the cells reached by a trail from it, and leaves every other hidden cell hidden. |
| Engine.TrailRevealed | js/minesweeper.js:161-171 | A finished cascade that reveals the start of a trail reveals every cell on it. |
| Engine.CheckCell | js/minesweeper.js:126-144 | A click on a locked board changes nothing. On a live board it reveals the clicked cell, never un-reveals a cell, and keeps the board unchanged. |
| Engine.ToggleMarker | js/minesweeper.js:179-198 | A locked board is unchanged. A flag is removed, a hidden unflagged cell gets one, and a revealed unflagged cell is left alone. Only this cell's flag and the counter change, and the counter moves by the opposite of the change in flags. Flags never land on revealed cells. |
| Session.Start | js/minesweeper.js:50-55 | A fresh session on a counted board with `MINES` mines satisfies the session invariant. |
| Session.NewGame | js/minesweeper.js:46-85 | A new game exists exactly when the draws hold at least `MINES` distinct cells. It starts counted, with its mines among the draws, nothing revealed or flagged, all markers available, the clock stopped, and not won. |
| Session.Apply | js/minesweeper.js:74-75 | Any click or right-click on a board cell leaves the session well-formed and on the same configuration. |
| Session.RevealKeepsInv | js/minesweeper.js:146-177 | Revealing on a live session that satisfies the invariant keeps the invariant. |
| Session.CheckCellKeepsInv | js/minesweeper.js:126-144 | A click keeps the session invariant: counted board, `MINES` mines, flags off revealed cells, counter equal to `MINES` minus flags, revealed zero cells closed, any revealed mine exploded, an explosion locks the board, a win has exactly `EMPTY_CELLS` revealed, end-of-game marking is done, only mines are disclosed, no flag on a mine is marked incorrect, a live game carries no end-of-game marks, the exploded cells are exactly the revealed mines, and a locked board marks exactly the flags off mines as incorrect. |
| Session.ToggleMarkerKeepsInv | js/minesweeper.js:179-198 | A right-click keeps the session invariant. |
| Session.PlayKeepsInv | js/minesweeper.js:126-198 | Every session reachable by clicks and right-clicks satisfies the invariant. The board never changes, and revealed cells stay revealed. |
| Session.PlayAfterGameOver | js/minesweeper.js:203-205 | Once the game is over, no sequence of clicks or right-clicks changes anything. |
| Session.CheckCellWin | js/minesweeper.js:138-142 | After a click on a live board, the game is won exactly when the number of revealed cells equals `EMPTY_CELLS`, and a won game is locked. |
| Session.CheckCellLoss | js/minesweeper.js:158-160 | Clicking a hidden mine reveals only that cell and explodes it. The board is locked, exactly the mines are disclosed, and exactly the flags on non-mine cells are marked incorrect. |
| Session.CheckCellSafe | js/minesweeper.js:161-173 | Clicking a non-mine cell reveals no mine, explodes nothing and discloses nothing. The board is locked only by a win. |
| Session.RevealCountOnly | js/minesweeper.js:173 | A hidden cell with a non-zero count is revealed alone, without a cascade, losing its flag. It does not end the game. |
| Session.RevealClearsFlag | js/minesweeper.js:152-156 | Revealing a flagged cell removes its flag and gives it back to the counter. |
| Session.FirstClickStartsClock | js/minesweeper.js:128-133 | The first click on an untouched live board starts the clock, unless that click ends the game. |
| Session.WinRevealsEverySafeCell | js/minesweeper.js:10 | A won game without an explosion has revealed exactly the cells without a mine. |
| Session.WinAfterLoss | js/minesweeper.js:139-142 | On a one-by-two board with one mine, clicking the mine first both explodes it and wins. The exploded mine counts towards `EMPTY_CELLS`. |
| Session.ToggleTwice | js/minesweeper.js:179-198 | Toggling the marker twice on a cell restores the session. |
| Session.MarkersCanGoNegative | js/minesweeper.js:191-196 | The counter has no lower bound: on a board without mines, one flag takes it to minus one, and the invariant still holds. |

## Left out

- Page layout and styling (lines 6-9 and 23-42) are left out because they are presentation only. This covers the cell and image sizes, the CSS variables, the floating-point `toFixed` digit size, and the status `div`s.
- Per-cell `cell-N` classes (line 121) and the digits written into cells (line 173) are left out because they are rendering. The count itself is modelled.
- The timer is left out: `setInterval`, `clearInterval` and the `time` counter. Only whether the clock runs is kept (`timing`), because the interval callback is a clock outside the engine.
- Listener wiring (lines 74-75, 204-205, 215) is left out. Listeners are reduced to the `over` flag and the `Action` dispatch in `Session.Apply`.
- `parseInt(e.target.id)` is left out. Actions carry the cell index directly, because the id always comes from a rendered cell.
- `Math.random` is replaced by the `draws` parameter. Randomness is outside the model, so nothing is claimed about the distribution of boards.
- Minefield.PopulateMinefield does not loop forever when there are too few distinct cells. With a finite sequence of draws it returns `None`, which stands for the source's endless loop when `MINES > WIDTH * HEIGHT`.
- Engine.CheckCell states only the frame and reveal facts. The win and loss outcomes are stated separately, under the session invariant, by `Session.CheckCellWin`, `Session.CheckCellLoss` and `Session.CheckCellSafe`.
