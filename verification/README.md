# 2048 rules engine in Dafny

A model of the game logic of `proj0/game2048/Model.java`: the upward slide-and-merge
of `tilt_up`, the four-way `tilt` built on it by viewing the board from a side, the
end-of-game test (`checkGameOver`, `emptySpaceExists`, `maxTileExists`,
`atLeastOneMoveExists`), and the score bookkeeping of `gameOver()`, `clear()` and
`addTile`.

The board is a grid of naturals, `g[col][row]`, with 0 for an empty cell and row 0 /
column 0 the lower-left corner. The modules follow the program:

- `Grids` (grids.dfy): the grid, column and board sums, and the rearrangements
  (reversal, transpose) a change of view performs.
- `MergeRule` (merge_rule.dfy): the merge rule stated on its own, with no scan: the
  tiles of a column listed top first, equal neighbours paired greedily from the leading
  edge, the result packed against the top. A one-tile-at-a-time form of the same rule
  (`Stack`) is proved equal to it.
- `ColumnTilt` (tilt.dfy): the row-by-row scan of `tilt_up` for one column, step for
  step (the pointer loop, slide to an empty top, merge into an unmarked equal tile,
  compact below the blocker), and the column loop over the board. The scan is proved
  equal to the merge rule, and to conserve the tile values, to spend each merge marker
  on exactly one merge, to gain the sum of the marked cells, to pack every column
  against the top and to set its changed flag exactly when the column changed.
- `Boards` (board.dfy): viewing the board from a side, a renaming of cells that can be
  undone, is the identity from NORTH, and keeps the board sum.
- `GameOver` (game_over.dfy): the end-of-game predicates and the scans that compute them.
- `Game` (game.dfy): the state record (board, score, best score, end flag) and its
  operations, plus runs of player calls.
- `Scenarios` (scenarios.dfy): worked examples: the merge cases of a column, a sideways
  tilt, and a deadlocked board.

Two things the model fixes rather than copies are listed under "## Findings": an empty
1-by-1 board is reported as having no move, and the merge markers are an array of four
entries however tall the board is. The rest of the model uses the corrected forms.

The best score is only brought up to the score when `gameOver()` observes the end of
the game, so during play the score can pass it (`Scenarios.ScoreCanPassBestScore`).

## Model

| member | source | states |
|---|---|---|
| MergeRule.StackMatchesMerge | proj0/game2048/Model.java:100-108 | Meeting the tiles one at a time from the leading edge, merging each into the last placed tile when it is equal and not itself a merge product, gives exactly the greedy leading-edge pairing and the same merge total. |
| MergeRule.MergeTilesSum | proj0/game2048/Model.java:100-102 | Pairing equal tiles keeps the total value of the line. |
| MergeRule.MergeTilesLength | proj0/game2048/Model.java:103-105 | Merging never adds tiles and keeps at least half of them: every tile takes part in at most one merge. |
| ColumnTilt.Pointer | proj0/game2048/Model.java:117-120 | The pointer stops at the nearest occupied row at or above its start, or at the top row when all of those are empty; every row it passed is empty. |
| ColumnTilt.StepConserves | proj0/game2048/Model.java:121-136 | One iteration of the row loop keeps the column length and sum, loses one tile for each merge marker it sets, raises the gain by exactly the growth of the marked cells' sum, only marks occupied rows above `r`, and either leaves cells and flag alone or sets the flag while pushing weight strictly upward. |
| ColumnTilt.StepScan | proj0/game2048/Model.java:115-136 | After processing rows from `r` up, those rows are the one-tile-at-a-time merge of their original tiles packed at the top, with markers and gain to match. |
| ColumnTilt.SlideColumnMatchesRule | proj0/game2048/Model.java:110-141 | The scan of a column yields the greedy merge rule's result packed against the top, and gains the rule's merge total. |
| ColumnTilt.SlideColumnConservesValue | proj0/game2048/Model.java:100-102 | A column's tile values add up to the same total after the tilt. |
| ColumnTilt.SlideColumnGainIsMarked | proj0/game2048/Model.java:126-130 | The score gained is the sum of the cells marked as merge destinations, and every marked row holds a tile. |
| ColumnTilt.SlideColumnOneMergePerMarker | proj0/game2048/Model.java:103-105 | Tiles after plus markers set equals tiles before: each marked destination received exactly one merge. |
| ColumnTilt.SlideColumnChangedExact | proj0/game2048/Model.java:121-136 | The changed flag is set if and only if the column differs from before. |
| ColumnTilt.SlideColumnPacked | proj0/game2048/Model.java:117-136 | After the tilt the occupied cells of the column form one block ending at the top row. |
| ColumnTilt.SlideColumnFixedGainsNothing | proj0/game2048/Model.java:126-130 | A column the tilt leaves as it was gained no score. |
| ColumnTilt.RuleGainOfFixedColumns | proj0/game2048/Model.java:113-137 | Columns the tilt leaves as they were contribute nothing to the board's merge total. |
| ColumnTilt.SlideColumnsByColumn | proj0/game2048/Model.java:113-114 | Every column is tilted on its own with fresh markers, the board's gain is the sum of the column gains, and the or-ed flag is set exactly when the board changed. |
| ColumnTilt.SlideColumnsSpec | proj0/game2048/Model.java:110-141 | The whole upward tilt: each column is the merge rule packed at the top, the gain is the rule's total, the board sum is conserved and the flag is exact. |
| ColumnTilt.SlideRowsAsWrittenAgrees | proj0/game2048/Model.java:114-128 | The scan with a four-entry marker array agrees with the scan on a set of markers whenever it finishes, and always finishes on columns of at most four rows. |
| ColumnTilt.SlideColumnAsWrittenAgrees | proj0/game2048/Model.java:114 | The same for a whole column. |
| ColumnTilt.FiveRowMergeOutOfRange | proj0/game2048/Model.java:126 | On a five-row column with 2s in the top two rows, the four-entry marker array is indexed at 4, where the merge rule gives a single 4 at the top. |
| Boards.ViewRoundTrip | proj0/game2048/Model.java:149-151 | The view map of each side and its inverse undo each other on every cell of the board. |
| Boards.ViewUpIsSide | proj0/game2048/Model.java:149 | One row up in the view from a side is one step toward that side on the board; the NORTH view is the identity. |
| Boards.ViewedUnviewed | proj0/game2048/Model.java:149-151 | Writing a view back and viewing it again from the same side gives the same view. |
| Boards.UnviewedViewed | proj0/game2048/Model.java:149-151 | Viewing a board from a side and writing the view back restores the board. |
| Boards.ViewedNorth | proj0/game2048/Model.java:151 | Viewing from NORTH and writing back from NORTH change nothing. |
| Boards.UnviewedInjective | proj0/game2048/Model.java:149-151 | Two views written back from the same side give the same board exactly when the views are equal. |
| Boards.ViewedSum | proj0/game2048/Model.java:149 | Viewing from any side keeps the board sum. |
| Boards.UnviewedSum | proj0/game2048/Model.java:151 | Writing a view back keeps the board sum. |
| GameOver.EmptySpaceExists | proj0/game2048/Model.java:174-185 | The scan answers true if and only if some cell is empty. |
| GameOver.MaxTileExists | proj0/game2048/Model.java:192-210 | The scan answers true if and only if some tile is 2048. |
| GameOver.AllCleared | proj0/game2048/Model.java:257-258 | When every cell of a board of size 2 or more holds a tile unequal to its right and upper neighbours, no move exists. |
| GameOver.AtLeastOneMoveExistsAsWritten | proj0/game2048/Model.java:237-258 | The scan as written only reports real moves, answers exactly on every board whose size is not 1, and answers false on every 1-by-1 board; its body is checked never to read off the board (the `tile(j, j+1)` read included) and never to compare an empty cell. |
| GameOver.AtLeastOneMoveExists | proj0/game2048/Model.java:211-216 | The corrected scan answers true if and only if some cell is empty or two orthogonally adjacent tiles are equal. |
| GameOver.CheckGameOver | proj0/game2048/Model.java:166-169 | The game is over if and only if some tile is 2048, or no cell is empty and no two adjacent tiles are equal. |
| GameOver.UnitBoardHasMove | proj0/game2048/Model.java:239-245 | An empty 1-by-1 board has a move, which the scan as written does not report. |
| Game.New | proj0/game2048/Model.java:31-35 | A new game has a square board of the given size viewed from NORTH with every cell empty, both scores 0 and the game not over. |
| Game.FromRawValues | proj0/game2048/Model.java:37-46 | The raw values are indexed row first: the board holds `raw[r][c]` at column `c`, row `r`; the scores and flag are taken as given. |
| Game.QueryGameOver | proj0/game2048/Model.java:64-70 | The answer is the end-of-game predicate of the board; when the game is over the best score becomes at least the score, it never decreases, and it only ever changes to the score. |
| Game.QueryGameOverIdempotent | proj0/game2048/Model.java:64-70 | Asking whether the game is over twice leaves the same state and answer as asking once. |
| Game.Clear | proj0/game2048/Model.java:83-88 | Clearing empties every cell, keeps the size, resets the score and the end flag, and keeps the best score. |
| Game.AddTile | proj0/game2048/Model.java:90-96 | Adding a tile to an empty cell puts its value there, changes no other cell, raises the board sum by the value, recomputes the end flag and leaves both scores alone. |
| Game.TiltUp | proj0/game2048/Model.java:110-141 | Tilting up the board as viewed packs every viewed column by the merge rule, adds the rule's merge total to the score, conserves the board sum, reports a change exactly when the board changed, and keeps the view, the best score and the end flag. |
| Game.Tilt | proj0/game2048/Model.java:142-157 | Tilting toward a side leaves the board viewed from NORTH; seen from that side every line is the merge rule packed against it; the flag is exact; the board sum is conserved; the score grows by the merge total; the best score is unchanged; the end flag is recomputed. |
| Game.TiltNorthIsTiltUp | proj0/game2048/Model.java:149-151 | On a board viewed from NORTH, tilting NORTH gives the board, score and flag of `tilt_up`. |
| Game.TiltNorthPacksColumns | proj0/game2048/Model.java:142-157 | Tilting NORTH packs every stored column against the top row by the merge rule. |
| Game.UnchangedTiltKeepsBoardAndScore | proj0/game2048/Model.java:153-156 | A tilt that reports no change leaves the board and the score as they were. |
| Game.Apply | proj0/game2048/Model.java:64-157 | One player call keeps the board square and its size, keeps the NORTH view, never lowers the best score, never lowers the score unless it is `clear`, and halts exactly when `addTile` targets an occupied or missing cell or carries value 0. |
| Game.RunKeepsBestScore | proj0/game2048/Model.java:16-17 | Over any run of calls the board keeps its size and view and the best score never decreases. |
| Game.RunKeepsScore | proj0/game2048/Model.java:14-15 | Over any run of calls without `clear` the score never decreases. |
| Scenarios.PairMergesAtTop | proj0/game2048/Model.java:100-102 | Two equal tiles below an empty top merge into one tile of twice the value at the top, gaining that value. |
| Scenarios.LeadingPairOfThreeMerges | proj0/game2048/Model.java:106-108 | Of three equal tiles the leading two merge and the trailing one sits right behind the product: `[x,x,x,0]` becomes `[0,0,x,2x]`. |
| Scenarios.NoChainMerge | proj0/game2048/Model.java:103-105 | A merge product does not merge again in the same tilt: `[x,x,2x,0]` becomes `[0,0,2x,2x]`. |
| Scenarios.FourEqualMakeTwoMerges | proj0/game2048/Model.java:100-105 | Four equal tiles make two merges. |
| Scenarios.BlockedTileStopsBelow | proj0/game2048/Model.java:133-136 | A tile slides up to sit right below a tile of another value and gains nothing. |
| Scenarios.WestTiltMergesBottomRow | proj0/game2048/Model.java:142-157 | Two 2s side by side on the bottom row, tilted WEST, become one 4 in the lower-left corner, scoring 4. |
| Scenarios.DeadlockEndsGame | proj0/game2048/Model.java:64-70 | A full board with no two equal neighbours ends the game and brings the best score up to the score. |
| Scenarios.ScoreCanPassBestScore | proj0/game2048/Model.java:16-17 | During play a merge can raise the score above the best score, which waits for the end of the game. |

## Left out

- `Observable` and `setChanged()`: change notification for the user interface; it carries no game state.
- `toString`, `equals` and `hashCode`: text rendering and equality by comparing renderings. `toString` also calls `gameOver()`, with its side effect on the best score; the model compares states directly.
- `atLeastOneMoveExists_col`: a private helper that nothing calls.
- `Board`, `Tile` and `Side` are not part of this model. A board is its grid of values: tile identity is not kept, `move` is a relocation that doubles an equal target, and viewing from a side is a rotation of the cells, the identity from NORTH. `addTile` addresses stored cells, since every public operation leaves the board viewed from NORTH.
- The queries `tile`, `size`, `score` and `maxScore` are reads of the state record.
- Placing random tiles, the user interface and input handling are outside `Model.java`.
- Java's 32-bit `int` for the score and the best score: both are unbounded naturals here, so an overflow past 2^31 - 1 is not modelled.
- `maxTileExists` walks the board's tile iterator; the model scans columns then rows. The answer does not depend on the order.
- Game.AddTile: requires the new tile's value to be positive, because the model writes an empty cell as 0 and every `Tile` carries a power of two.
- Game.Apply: an `addTile` onto an occupied cell stops the run (`Halted`); what `Board.addTile` does in that case is not part of this model.

## Findings

| source | as written | input that shows it | evidently intended | confidence | as-written member | corrected member |
|---|---|---|---|---|---|---|
| proj0/game2048/Model.java:239-245 | On a 1-by-1 board none of the neighbour tests runs, so an empty only cell is not reported; on larger boards every empty cell is caught at line 241 or 249. | A 1-by-1 board whose only cell is empty: the scan answers false, so `checkGameOver` reports the game over. | Any empty cell is a move, as the doc comment at lines 211-216 says. | not executed; the game is normally played on 4-by-4 boards, where the answer is right | GameOver.AtLeastOneMoveExistsAsWritten | GameOver.AtLeastOneMoveExists |
| proj0/game2048/Model.java:114 | The merge markers are an array of four entries on a board of any size. | A 5-by-5 board whose first column holds 2 at rows 3 and 4, tilted NORTH: `merged[4]` is read at line 126 and indexes past the array. | A marker per row, so the two 2s merge into a 4 at row 4. | not executed; the game is normally played on 4-by-4 boards, where the array is large enough | ColumnTilt.FiveRowMergeOutOfRange | ColumnTilt.SlideColumnMatchesRule |
