# Doomed-marker puzzle engine in Dafny

This project models the game engine of the doomed-marker puzzle (`bin/main.js`), with the page's DOM taken out. The puzzle is played on a 16×16 grid. It starts with one marker in the bottom-left cell (15, 0). A *split* turns a marker into two: one in the cell above and one in the cell to the right. A *join* does the reverse. The *level* is the smallest distance `(15 - row) + col` of any marker. The *score* is the level plus the fraction of that level's diagonal that is empty. The page also keeps a best score, a setup mode for editing the board freely (one cell at a time, or a rectangle with shift-click), and a Reset button.

The model has four modules:

- `Board` (board.dfy): the grid as a value (`seq<seq<bool>>`). It has single-cell writes, the empty and start boards, the setup-mode toggles, and the marker count.
- `Moves` (moves.dfy): the guards and effects of split and join. It proves that each undoes the other and that each changes the count by one.
- `Scoring` (scoring.dfy): level, diagonal, score and highlighted cells as functions. It proves what they mean.
- `Game` (game.dfy): class `Game`. It holds the `markers` grid as an `array2<bool>` and the module-level variables `setupMode`, `highScore` and the last click. It also holds what the page shows: level, score and the highlighted cells. The event handlers are methods that update these in place. Each method is proved against the functions of the other three modules, and its loops carry invariants.

The score is an exact `real`, not a float. Browser services are parameters. The stored high score is the constructor's argument. The answer of the confirmation dialog is `Reset`'s argument. Shift is `Click`'s argument.

Two facts about `bin/main.js` shape the model:

- Reset (bin/main.js:325-340) leaves setup mode without setting `highScore` to 0. Only the Setup button sets it to 0 (bin/main.js:308-312).
- At level 0 the general diagonal rule already picks only (15, 0) (`Scoring.CornerIsGeneralDiagonal`). So the level-0 case of `highlightDiagonal` changes nothing. The early `return 0` of `calculateScore` does matter: on an empty board the general formula would give 1.

## Model

| member | source | states |
|---|---|---|
| `Board.Set` | bin/main.js:149-174 | writing a value at one cell sets that cell and leaves every other cell unchanged |
| `Board.Empty` | bin/main.js:284-292 | the cleared board has no occupied cell |
| `Board.Start` | bin/main.js:272-281 | the start board's only occupied cell is (15, 0) |
| `Board.Toggle` | bin/main.js:57-62 | a single setup click flips exactly the clicked cell |
| `Board.ToggleRect` | bin/main.js:37-52 | the rectangle toggle flips exactly the cells of the inclusive rectangle between the two corners and keeps every other cell |
| `Board.ToggleRectCornerOrder` | bin/main.js:37-40 | the rectangle toggle gives the same board whichever pair of opposite corners is given, in either order |
| `Board.ToggleRectTwice` | bin/main.js:43-52 | toggling the same rectangle twice restores the board |
| `Board.ToggleRectSingleCell` | bin/main.js:43-62 | a rectangle whose two corners are one cell is the single-cell toggle |
| `Board.CountSet` | bin/main.js:149-174 | writing one cell changes the marker count by new value minus old value |
| `Board.CountEmptyAndStart` | bin/main.js:272-292 | the cleared board has 0 markers and the start board has exactly 1 |
| `Moves.Split` | bin/main.js:99-121 | when the split is legal, (r,c) is cleared, (r-1,c) and (r,c+1) are set, and every other cell is unchanged; otherwise the board is unchanged |
| `Moves.Join` | bin/main.js:124-146 | when the join is legal, (r-1,c) and (r,c+1) are cleared, (r,c) is set, and every other cell is unchanged; otherwise the board is unchanged |
| `Moves.SplitCount` | bin/main.js:107-115 | a legal split raises the marker count by exactly 1 |
| `Moves.JoinCount` | bin/main.js:132-140 | a legal join lowers the marker count by exactly 1 |
| `Moves.SplitThenJoin` | bin/main.js:101-140 | after a legal split, the join at the same cell is legal and restores the original board |
| `Moves.JoinThenSplit` | bin/main.js:101-140 | after a legal join, the split at the same cell is legal and restores the original board |
| `Moves.Play` | bin/main.js:74-78 | a play-mode click splits an occupied cell and joins an empty one (`PlayLegal` is that move's guard); a legal move flips the clicked cell, an illegal one leaves the board unchanged |
| `Moves.PlayEffect` | bin/main.js:74-78 | a play-mode click changes the board if and only if its move (split if occupied, join if empty) is legal; the count then changes by +1 or -1 |
| `Moves.OpeningMove` | bin/main.js:99-146 | on the start board, the split at (15,0) is legal and leaves exactly (14,0) and (15,1); the join at (15,0) then gives back the start board |
| `Scoring.MinOf` | bin/main.js:178-189 | the minimum, where None stands for Infinity: None only if both inputs are None, otherwise one of the inputs and no larger than either |
| `Scoring.Level` | bin/main.js:178-195 | the level is in 0..30 |
| `Scoring.LevelIsMinimum` | bin/main.js:178-195 | with no marker the level is 0; otherwise some marker is exactly at distance level and no marker is closer |
| `Scoring.StartLevel` | bin/main.js:272-281 | the start board is at level 0 |
| `Scoring.DiagonalMarkers` | bin/main.js:223-232 | the markers counted on a diagonal are never more than its in-grid cells |
| `Scoring.DiagonalNonEmpty` | bin/main.js:223-235 | the diagonal of a level has at least one in-grid cell if and only if 0 <= level <= 30, so the divisor at line 235 is never 0 |
| `Scoring.Score` | bin/main.js:216-239 | the score is 0 at level 0; otherwise it lies in [level, level+1], and it is below level+1 exactly when at least one marker lies on the level's diagonal |
| `Scoring.ScoreBounds` | bin/main.js:216-238 | at the board's own level, the score is 0 when the level is 0; otherwise level <= score < level + 1; the score's floor is the level |
| `Scoring.OpeningScore` | bin/main.js:99-238 | after the opening split of the start board the level is 1 and the score exactly 1; the join at (15,0) then gives level 0 and score 0 |
| `Scoring.DiagonalCells` | bin/main.js:242-268 | the highlight is {(15,0)} at level 0, and every highlighted cell is in the grid at distance level |
| `Scoring.DiagonalCellsExact` | bin/main.js:242-268 | the highlighted set is {(15,0)} at level 0; otherwise it is exactly the in-grid cells with (15-row)+col == level |
| `Scoring.DiagonalCellsCounted` | bin/main.js:223-232 | away from level 0, the highlighted cells are the cells the score counts: there are as many of them as the diagonal's in-grid cells, and as many occupied ones as the diagonal's markers |
| `Scoring.CornerIsGeneralDiagonal` | bin/main.js:249-268 | at level 0 the general diagonal rule already yields just the corner cell |
| `Game.Raise` | bin/main.js:200-204 | the new high score is at least the old one and at least the score; it is one of the two, and it stays the old one unless the score is larger |
| `Game.Game.constructor` | bin/main.js:10-21 | page load: play mode, no last click, start board shown at level 0 and score 0, high score = stored value raised by score 0 |
| `Game.Game.AddMarker` | bin/main.js:149-161 | the array's board becomes the old board with the cell set; no other cell changes |
| `Game.Game.RemoveMarker` | bin/main.js:164-174 | the array's board becomes the old board with the cell cleared; no other cell changes |
| `Game.Game.ClearAllMarkers` | bin/main.js:284-292 | the array holds the empty board |
| `Game.Game.InitializeMarkers` | bin/main.js:272-281 | the array holds the start board; level 0, score 0 and {(15,0)} are shown; the high score is only raised; mode and last click are unchanged |
| `Game.Game.ScanLevel` | bin/main.js:178-195 | the nested scan returns Level of the array's board |
| `Game.Game.CalculateScore` | bin/main.js:216-239 | the counting loop returns Score of the array's board at the given level |
| `Game.Game.HighlightDiagonal` | bin/main.js:242-269 | the highlighted set becomes DiagonalCells(level) |
| `Game.Game.UpdateLevel` | bin/main.js:177-213 | the displays match the board again; the high score is replaced exactly when the new score is larger; mode and last click are unchanged |
| `Game.Game.HandleLeftClick` | bin/main.js:99-121 | the array's board becomes Split of the old board; the high score changes only on a legal split, and then only upward |
| `Game.Game.HandleRightClick` | bin/main.js:124-146 | the array's board becomes Join of the old board; the high score changes only on a legal join, and then only upward |
| `Game.Game.ToggleRectangle` | bin/main.js:37-52 | the nested loop leaves ToggleRect of the old board in the array |
| `Game.Game.Click` | bin/main.js:32-84 | setup mode: rectangle toggle after shift with a recorded click, else a single toggle, and the click is recorded; play mode: Play of the old board and no recorded click; the mode is unchanged and the high score does not fall |
| `Game.Game.ContextMenu` | bin/main.js:87-92 | a join in play mode; no change at all in setup mode |
| `Game.Game.SetupButton` | bin/main.js:299-322 | the mode flips and the board and displays are unchanged; entering setup mode keeps the high score; leaving it sets the high score to exactly 0 and clears the last click |
| `Game.Game.Reset` | bin/main.js:325-340 | if not confirmed, nothing changes; if confirmed, the start board at level 0 and score 0 is shown in play mode with no last click, and the high score is only raised, never cleared |

## Left out

- DOM work is not modelled: cell and marker `div`s, selector lookups, CSS classes, button colours and texts. The highlight is the set `highlighted`, and the displays are the fields `level` and `score`.
- `localStorage` is not modelled. The stored high score (`parseFloat(...) || 0`) is the constructor's argument, and the writes of line 203 and line 311 are not modelled.
- The `toFixed(2)` formatting and the `L`/`S`/`H` display strings are output only.
- Float arithmetic and `Infinity` are not modelled: the score is an exact `real`, and Infinity is `None`.
- `Game.Game.CalculateScore`: requires 0 <= level <= 30, the only levels its caller passes. The 0/0 = NaN result for other levels is not modelled.
- The `confirm()` dialog is `Reset`'s boolean argument.
- Event-listener registration and `preventDefault()` are not modelled. The click and context-menu handlers keep only their decision logic, with `shiftKey` as an argument.
