# Falling-block board, piece and score model

A Dafny model of the simulation core of a Unity falling-block game. It covers three parts:

- the board (`Board.cs`): a tilemap of integer cells;
- the active piece (`Piece.cs`);
- the score keeper (`TetrisManager.cs`).

The engine around them (rendering, input polling, timers, object lifecycle) is not modelled.

Modules:

- `Tetronimos` (`tetronimos.dfy`): the eight piece kinds `I O T J L S Z F`, where `F` is the custom piece, plus cell vectors and catalogue entries.
- `Grid` (`grid.dfy`): the tilemap as a `map<Vec, Tile>`, where erasing a cell removes its key. It holds:
  - the board bounds, computed with C#'s truncating `/ 2`;
  - placement validity and full rows;
  - the cells a piece covers, and painting them;
  - the effect of shifting the rows above a row down by one.
- `Compaction` (`compaction.dfy`): the reference meaning of a line clear. The rows that are not full, kept in order, are stacked from the bottom, and the rows above them are empty. It also holds the lemmas that connect the board's two clearing loops to that meaning.
- `Rotation` (`rotation.dfy`): the exact integer quarter-turn applied to each cell offset.
- `Spawn` (`spawn.dfy`): the min/max scans over a piece's offsets and the clamping of the spawn position.
- `Manager` (`tetris_manager.dfy`): class `TetrisManager`, holding the score table, the score accumulator and the game-over flag.
- `Game` (`game.dfy`): classes `Board` and `Piece`. Both mutate state in place:
  - the board's `tiles` map and `activePiece` reference;
  - the piece's `cells` array, `position` and `freeze` flag.

`Board.cs` and `Piece.cs` refer to each other, so both classes live in one module.

Each imperative routine is a method whose loops carry invariants. Its `ensures` ties the new state to a specification function. Examples:

- `Set` paints exactly the piece's footprint.
- `ShiftRowsDown` equals `ShiftedAt` cell by cell.
- `CheckBoard` leaves the board equal to `Compacted` of the old board and adds `LockScore` to the score.

The spec functions carry lemmas of their own: the clear leaves no full row, every kept row drops by the number of full rows below it, rotations undo each other, and so on.

`CheckBoard`'s two loops are written as the two methods `DestroyFullLines` and `CollapseLines`, which `CheckBoard` calls in order. The sideways and soft-drop steps of `Piece.Update` are likewise written as the method `Steer`. Their statements are those of the source, in the source's order.

Some fields and members the code uses are missing or out of reach where they are used. The model gives them their evident meaning:

- the manager's `gameOver` flag and `SetGameOver` are used (Board.cs:33, 137, 143) but never declared;
- the piece's `freeze` flag is declared private (Piece.cs:13), yet the board writes it (Board.cs:48);
- the piece's `Move` is private (Piece.cs:106), yet the board calls it (Board.cs:42);
- the catalogue field is spelled `tetronimimo` in Piece.cs:23 and is read as `tetronimo`.

`Rotate(1)` is modelled as a counter-clockwise quarter-turn, because `Quaternion.Euler(0, 0, 90) * (x, y)` gives `(-y, x)`. The comments at Piece.cs:70 and 74 call the two directions the other way round; the model follows the arithmetic, not the comments.

Spawn clamps the start position into bounds and picks the catalogue entry at random. There is no downward search for a free position, no fixed spawn order and no preset terrain.

A hard drop behaves as follows, as the code is written. `Update` erases the piece (Piece.cs:42). `HardDrop` then spawns the next piece (Piece.cs:103), so the new piece's game-over check runs on a tilemap from which the dropped piece is still erased. `Update` then paints the dropped piece (Piece.cs:77) over whatever the new piece covers. No rows are cleared and no score is added on a hard drop. `Game.Piece.Update` states all of this.

## Model

| member | source | states |
|---|---|---|
| Grid.BoundsOf | Assets/Scripts/Board.cs:21-24 | `left = -right` and `bottom = -top`. For a non-negative size, the width is the size rounded down to even, because of C#'s truncating division. A negative size gives an empty board. |
| Grid.SetTile | Assets/Scripts/Board.cs:221-225 | Writing a tile, or erasing with no tile, changes exactly one cell. |
| Grid.Painted | Assets/Scripts/Board.cs:160-167 | Every cell of the footprint holds the tile. Every other cell is unchanged. |
| Grid.ShiftingCell | Assets/Scripts/Board.cs:219-225 | One inner-loop step of `ShiftRowsDown` moves the tile at (x, y) to (x, y - 1) and empties (x, y). This advances the partial-shift description by one column. |
| Grid.ShiftingRow | Assets/Scripts/Board.cs:215-217 | Finishing the columns of row y is the same as starting row y + 1. |
| Grid.ShiftingDone | Assets/Scripts/Board.cs:213-228 | When the row loop ends, the partial shift equals the full effect `ShiftedAt`: rows r+1..top-1 move down one row, row top-1 is emptied when r < top - 1, nothing else changes. |
| Grid.FootprintAppend | Assets/Scripts/Board.cs:162-165 | Each pass of the `Set`/`Clear` loop adds exactly the cell `cells[i] + position`. |
| Compaction.FullRowsIn | Assets/Scripts/Board.cs:233-242 | The list `destroyedLines` contains only full rows inside the scanned range. |
| Compaction.FullRowsSorted | Assets/Scripts/Board.cs:235-241 | The full rows are collected bottom to top, each once (strictly ascending). |
| Compaction.FullRowsComplete | Assets/Scripts/Board.cs:235-241 | Every full row in the range is collected. |
| Compaction.KeptRowsIn | Assets/Scripts/Board.cs:244-249 | The rows that survive the clear are inside the range and not full. |
| Compaction.RowCounts | Assets/Scripts/Board.cs:235-242 | Every row is either destroyed or kept: the two counts add up to the number of rows. |
| Compaction.Compacted | Assets/Scripts/Board.cs:231-249 | The cleared board: kept rows stacked from the bottom in order, empty rows above them, and cells outside the board untouched. |
| Compaction.DestroyRow | Assets/Scripts/Board.cs:237-241 | The destroy loop's scan of row y sees the original row. `destroyedLines` grows by y exactly when that row is full. |
| Compaction.DestroyFullRow | Assets/Scripts/Board.cs:239 | Erasing a full row extends the destroyed region to that row. |
| Compaction.ShiftStart | Assets/Scripts/Board.cs:244 | Before any shift, the board after the destroy loop matches the shift loop's progress description at step 0. |
| Compaction.ShiftStep | Assets/Scripts/Board.cs:245-249 | `ShiftRowsDown(y - rowsShiftedDown)` for the k-th destroyed row takes the progress description from step k to k + 1. The subtraction accounts for the k rows already removed below. |
| Compaction.ShiftDone | Assets/Scripts/Board.cs:244-249 | After the last shift, the progress description is the reference clear `Compacted`. |
| Compaction.NoFullRowAfterClear | Assets/Scripts/Board.cs:231-249 | On a board with at least one column, no row is full after `CheckBoard`. |
| Compaction.KeptRowDrops | Assets/Scripts/Board.cs:244-249 | Every surviving row drops by the number of destroyed rows below it, tile for tile. |
| Compaction.VacatedRowsEmpty | Assets/Scripts/Board.cs:244-249 | The top rows, one for each destroyed row, are empty after the clear. |
| Rotation.RotateCell | Assets/Scripts/Piece.cs:82-91 | A turn by `90 * direction` degrees counter-clockwise about the origin. It keeps the cell's distance from the pivot. A direction of 0 mod 4 leaves the cell alone. 1 mod 4 gives the perpendicular vector on the counter-clockwise side, and 3 mod 4 the one on the clockwise side. 2 mod 4 negates both coordinates. |
| Rotation.RotateAll | Assets/Scripts/Piece.cs:83-92 | Every offset is turned, keeping the array length and the index order. |
| Rotation.RotateCellCompose | Assets/Scripts/Piece.cs:80-93 | Two turns compose into a turn by the sum of the directions. |
| Rotation.RotateAllCompose | Assets/Scripts/Piece.cs:80-93 | The same, for the whole cell array. |
| Rotation.RotateAllFull | Assets/Scripts/Piece.cs:80-93 | A turn by a multiple of four quarter-turns changes nothing. |
| Rotation.RotateUndo | Assets/Scripts/Piece.cs:70-75 | `Rotate(1)` then `Rotate(-1)` restores the cells. |
| Rotation.RotateFourTimes | Assets/Scripts/Piece.cs:80-93 | Four calls of `Rotate(1)` restore the cells. |
| Spawn.MinCoord | Assets/Scripts/Board.cs:67-81 | The scan's minimum is at most `int.MaxValue` and at most every cell's coordinate. |
| Spawn.MaxCoord | Assets/Scripts/Board.cs:59-89 | The scan of `GetMaxCellY` (lines 59-65) and `GetMaxCellX` (lines 83-89). Its maximum is at least `int.MinValue` and at least every cell's coordinate. |
| Spawn.MinCoordAttained | Assets/Scripts/Board.cs:67-81 | The minimum is some cell's coordinate, unless it is still the starting `int.MaxValue`. |
| Spawn.MaxCoordAttained | Assets/Scripts/Board.cs:83-89 | The maximum is some cell's coordinate, unless it is still the starting `int.MinValue`. |
| Spawn.Clamp | Assets/Scripts/Board.cs:106-107 | `Mathf.Clamp` lands in `[min, max]` when that range is non-empty. A value below `min` gives `min`. Otherwise a value above `max` gives `max`, also when `min > max`, the case of a piece wider or taller than the board. A value already in range is unchanged. |
| Spawn.FitInBounds | Assets/Scripts/Board.cs:92-110 | If the piece's span fits the board, every cell is in bounds at the clamped position. |
| Spawn.FitIdempotent | Assets/Scripts/Board.cs:92-110 | If the span fits, clamping twice equals clamping once. |
| Spawn.PlaceableFits | Assets/Scripts/Board.cs:99-104 | A non-empty piece that can be placed somewhere on the board has a span that fits. |
| Spawn.FitKeepsPlacedPiece | Assets/Scripts/Board.cs:99-109 | A position at which every cell is already in bounds is unchanged by the clamp. |
| Spawn.FitValidOnEmptyBoard | Assets/Scripts/Board.cs:118-125 | On an empty board, a piece whose span fits spawns at a valid position. |
| Manager.TetrisManager.CalculateScore | Assets/Scripts/TetrisManager.cs:19-30 | The result is in `[0, 800]`. It is positive exactly for 1 to 4 lines. |
| Manager.ScoreTable | Assets/Scripts/TetrisManager.cs:21-27 | 0, 1, 2, 3 and 4 lines score 0, 100, 300, 500 and 800. |
| Manager.ScoreOutsideTable | Assets/Scripts/TetrisManager.cs:28 | Any other count, negative ones included, scores 0. |
| Manager.ScoreIncreasing | Assets/Scripts/TetrisManager.cs:21-29 | More lines at once (up to four) always score strictly more. |
| Manager.TetrisManager.Start | Assets/Scripts/TetrisManager.cs:13-17 | The score becomes 0, and listeners are notified once. |
| Manager.TetrisManager.ChangeScore | Assets/Scripts/TetrisManager.cs:32-36 | The score becomes exactly old score + amount. Listeners are notified once, and the game-over flag is kept. |
| Manager.TetrisManager.SetGameOver | Assets/Scripts/Board.cs:137 | Sets the flag and leaves the score alone. |
| Game.FirstIndexOf | Assets/Scripts/Piece.cs:20-28 | The index is that of the first catalogue entry of the kind: no earlier entry has it. It is the catalogue length when there is none. |
| Game.LockScore | Assets/Scripts/Board.cs:251-258 | The points are the table's points for the count, plus 200 exactly when the locked kind is `F` and the count is at least 2. They are never negative. |
| Game.Horizontal | Assets/Scripts/Piece.cs:44-51 | A wins over D: at most one sideways step per update. |
| Game.Vertical | Assets/Scripts/Piece.cs:53-56 | S steps down one row; otherwise there is no vertical step. |
| Game.Turn | Assets/Scripts/Piece.cs:68-75 | LeftArrow (+1) wins over RightArrow (-1): at most one rotation per update. |
| Game.DroppedToUnique | Assets/Scripts/Piece.cs:95-100 | A hard drop has exactly one possible resting place. |
| Game.Board.Start | Assets/Scripts/Board.cs:26-29 | Spawns the first piece, as `SpawnPiece` states. |
| Game.Board.DropTick | Assets/Scripts/Board.cs:31-56 | The old piece keeps its data, its board and its cell array. Nothing happens while the game is over or there is no active piece: the tilemap, score, flag, active piece and the piece's position and freeze flag are all kept. Otherwise the piece is erased and tries one row down. If the move is valid it moves, is repainted, and the score is unchanged. If the move fails, three things happen: it is repainted where it was and frozen; the board becomes `Compacted`, with the score raised by `LockScore` for its kind; and a new piece is spawned on the cleared board. Listeners are notified once on a lock and never otherwise. The score never decreases. |
| Game.Board.GetMaxCellY | Assets/Scripts/Board.cs:59-65 | Returns the maximum `MaxCoord` of the y offsets. |
| Game.Board.GetMinCellY | Assets/Scripts/Board.cs:67-73 | Returns the minimum `MinCoord` of the y offsets. |
| Game.Board.GetMinCellX | Assets/Scripts/Board.cs:75-81 | Returns the minimum `MinCoord` of the x offsets. |
| Game.Board.GetMaxCellX | Assets/Scripts/Board.cs:83-89 | Returns the maximum `MaxCoord` of the x offsets. |
| Game.Board.FitSpawnInsideBoard | Assets/Scripts/Board.cs:92-110 | The piece's new position is `FitPosition` of its old one. |
| Game.Board.SpawnPiece | Assets/Scripts/Board.cs:112-128 | A fresh piece is created from the first catalogue entry of the chosen kind: a fresh copy of its cells, at the clamped start position. The game is over iff it already was or that position is invalid on the board as it was. The score and the listener count are unchanged. The piece is then painted over its footprint. |
| Game.Board.CheckEndGame | Assets/Scripts/Board.cs:130-139 | The game-over flag is set iff there is an active piece whose placement is invalid. An already-set flag stays set. |
| Game.Board.UpdateGameOver | Assets/Scripts/Board.cs:141-147 | While the game is over, nothing changes. Otherwise the board is reset. |
| Game.Board.ResetBoard | Assets/Scripts/Board.cs:149-158 | The tilemap is emptied and a piece is spawned on it. If that piece's span fits the board, the game-over flag is unchanged. |
| Game.Board.Set | Assets/Scripts/Board.cs:160-167 | The tilemap becomes `Painted` with the piece's footprint and tile. |
| Game.Board.Clear | Assets/Scripts/Board.cs:169-176 | Exactly the piece's footprint is removed from the tilemap. |
| Game.Board.IsPositionValid | Assets/Scripts/Board.cs:178-192 | True iff every `cells[i] + position` is inside `[left,right) x [bottom,top)` and holds no tile. |
| Game.Board.IsLineFull | Assets/Scripts/Board.cs:194-202 | True iff every column of `[left,right)` in row y holds a tile. |
| Game.Board.DestroyLine | Assets/Scripts/Board.cs:204-211 | Exactly the cells of row y within `[left,right)` are emptied. |
| Game.Board.ShiftRowsDown | Assets/Scripts/Board.cs:213-228 | The tilemap becomes `ShiftedAt`: for r < y < top, new row y-1 is old row y; row top-1 is emptied when r < top - 1; every other cell is untouched. |
| Game.Board.CheckBoard | Assets/Scripts/Board.cs:231-259 | The tilemap becomes `Compacted` of the old one. The score rises by `LockScore` of the placed kind and the number of full rows. The game-over flag is kept. Listeners are notified exactly once. |
| Game.Board.DestroyFullLines | Assets/Scripts/Board.cs:233-242 | Returns exactly the full rows, bottom to top, and erases them. |
| Game.Board.CollapseLines | Assets/Scripts/Board.cs:244-249 | Shifting down above each destroyed row, less the rows already shifted, yields `Compacted` of the board before destruction. |
| Game.Piece.Initialize | Assets/Scripts/Piece.cs:15-36 | `data` is the first catalogue entry of the requested kind. `cells` is a fresh array with the same contents, so the catalogue is not aliased. The position is `startPosition` and the piece is not frozen. |
| Game.Piece.Update | Assets/Scripts/Piece.cs:38-78 | A frozen piece ignores all commands. Otherwise the piece is erased, then five things happen in order: one sideways `Move` (A before D); one soft-drop `Move`; a hard drop; a rotation (LeftArrow before RightArrow) of the cells, in the same array; and a repaint. The score is never changed. |
| Game.Piece.Steer | Assets/Scripts/Piece.cs:44-56 | The position after the sideways and soft-drop steps is `Steered`, each step taken only if valid. |
| Game.Piece.Rotate | Assets/Scripts/Piece.cs:80-93 | The cells become `RotateAll` of the old cells, in place. The position is untouched, and there is no validity check, kick or revert. |
| Game.Piece.HardDrop | Assets/Scripts/Piece.cs:95-104 | The loop ends at the `DroppedTo` position: the same column, no higher, every row passed valid, and one more row down invalid. Then three things happen: the piece is frozen; the next piece is spawned on the tilemap as it was; and no rows are cleared and no score changes. |
| Game.Piece.Move | Assets/Scripts/Piece.cs:106-115 | Returns whether `position + translation` is valid. The piece moves there iff it is. The cells are untouched. |

## Left out

- Unity object lifecycle: `Instantiate`, `Destroy` and `FindObjectsByType` are not modelled (Board.cs:114, 151-152). A new piece is a fresh `Piece`. Destroyed piece objects simply stop being referenced.
- Engine scheduling: `Start`/`Update` callbacks become explicit methods, and the order in which Unity calls them is not modelled.
- The drop timer: `Time.deltaTime`, `dropTime` and `dropInterval` are not modelled. `Game.Board.DropTick` is one `Update` call in which the interval has elapsed.
- Keyboard polling: `Input.GetKeyDown` is replaced by the `Commands` record passed to `Update`.
- `Random.Range`: the chosen catalogue index is a parameter `choice` with `choice < |tetronimos|`.
- Rotation arithmetic: `Game.Piece.Rotate` does not model the float `Quaternion` product and `Mathf.RoundToInt`. It uses the exact integer quarter-turn that they round to. The rounding itself is not proved.
- `OnScoreChanged.Invoke()`: only counted, in the ghost field `notifications`.
- `UIController.cs` is not part of this model.
- 32-bit integers: positions, offsets and the score are unbounded integers, so overflow and wrap-around are not modelled. The `int.MinValue`/`int.MaxValue` starting values of the cell scans are kept.
- `Game.Piece.HardDrop` requires a piece with at least one cell. For an empty piece every position is valid, so the source's drop loop never ends.
- `Game.Piece.Update` requires a piece with at least one cell only when the hard-drop command is given, for the same reason. The other steps handle an empty piece.
- `Game.Piece.Initialize` requires the requested kind to be in the catalogue. Its only caller, `SpawnPiece` (Board.cs:117-118), passes the kind of an existing entry, so the requirement holds wherever the source calls it.
- Tiles are opaque values (an asset number). Rendering and colours are not modelled.
