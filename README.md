# pixel-tetris game logic in Dafny

This project models the game logic of the pixel-tetris browser game
(`script.js`). The game state is:

- a `rows × columns` board of settled blocks, where 0 is an empty cell and
  `t` is a block of piece type `t`;
- the active piece: a square matrix taken from the seven-entry piece
  catalogue, and the board position of its top-left corner.

The player's actions follow one pattern: try a change, test it for a
collision, and roll it back when it collides. The actions are moving
sideways, dropping one row (a drop that lands merges the piece into the
board and spawns the next piece), rotating a quarter turn clockwise in
place, and spawning a new piece (which clears the board when the new piece
does not fit).

Layout:

- `grids.dfy` (module `Grids`) holds integer matrices as values (`Grid`)
  and as two-dimensional arrays (`Cells` reads one as the other). It
  defines the clockwise quarter turn `Rotated`. It also holds the in-place
  array algorithms the game runs: creating an empty grid, transposing, and
  reversing every row. The rotation round trip is proved here.
- `playfield.dfy` (module `Playfield`) states the collision rule
  (`CollidesAt`) and the commit rule (`Merged`) on matrix values, with
  lemmas about them.
- `pieces.dfy` (module `Pieces`) holds the seven piece templates, their
  widths and the spawn column.
- `tetris.dfy` (module `Tetris`) holds the class `Game`, whose fields are
  the board, the catalogue and the active piece. Its methods are the
  source's actions, each proved against the value-level rules above.

The piece catalogue is a sequence of seven distinct arrays. The active
piece is one of those arrays itself, not a copy. The code hands out the
catalogue entry (`script.js:47-49`), so a rotation turns that entry in
place, and the next piece of the same type appears in the turned
orientation. The model keeps this aliasing: `PlayerRotate` modifies the
active array, which is the catalogue entry, and leaves every other entry
unchanged. The O template is 3 × 3 (`script.js:26`), like every piece
but the I piece.

The board is a single `array2<int>` rather than an array of row arrays.
The source's rows are never shared or replaced one by one, so nothing
observable depends on this.

## Model

| member | source | states |
|---|---|---|
| Grids.CreateMatrix | script.js:41-45 | returns a fresh `h × w` array whose every cell is 0, i.e. whose contents are `Zeros(h, w)` |
| Grids.FromSquares | script.js:21-30 | builds one fresh array per catalogue matrix, in order, holding exactly that matrix, with no two entries the same array |
| Grids.Transpose | script.js:101-105 | swapping each cell below the diagonal with its mirror, row by row, leaves the array holding the transpose of its old contents |
| Grids.ReverseRows | script.js:106 | reversing every row in place by swaps from both ends leaves the array holding every old row read back to front |
| Grids.TurnClockwise | script.js:100-106 | transposing and then reversing the rows turns a square array a quarter clockwise: new cell `(i, j)` is old cell `(n-1-j, i)` |
| Grids.TurnBack | script.js:107-114 | reversing the rows and then transposing undoes a quarter turn: turning the result clockwise gives back the old contents |
| Grids.TransposeThenReverseRotates | script.js:101-106 | for every square matrix, transposing and then reversing every row equals the clockwise quarter turn |
| Grids.ReverseThenTransposeUndoes | script.js:108-113 | for every square matrix, reversing every row and then transposing yields a square matrix whose quarter turn is the original |
| Grids.RotatedInjective | script.js:107-114 | two square matrices of one size with equal quarter turns are equal, so the rollback restores the piece exactly |
| Grids.FullTurn | script.js:99-116 | four quarter turns give back every square matrix unchanged |
| Pieces.Template | script.js:21-30 | type `t` in 1..7 has a square template, 4 × 4 for the I piece and 3 × 3 otherwise, whose cells are 0 or `t` |
| Pieces.Templates | script.js:21-30 | the catalogue has seven entries; entry `k` is the square template of type `k + 1` |
| Pieces.SpawnFits | script.js:133-136 | on an empty board at least as tall and wide as the piece, a piece at the spawn point (top row, centred) never collides |
| Playfield.MergeOfRestingPiece | script.js:71-79 | committing a non-colliding piece writes every filled piece cell inside the board onto an empty cell, and keeps every settled block and every uncovered cell |
| Playfield.LeftWallBlocks | script.js:91-95 | a piece with a filled cell in the left-most column collides when shifted one more column left |
| Playfield.FloorBlocks | script.js:81-84 | a piece with a filled cell in the bottom row collides when lowered one more row |
| Playfield.CollidesOnEmpty | script.js:118-131 | on an empty board a piece collides exactly when one of its filled cells falls outside the board |
| Tetris.Game.constructor | script.js:21-38 | the catalogue holds the seven templates in fresh distinct arrays, the board is fresh and empty, and the first piece (type 1..6) is spawned; on a board of at least 4 × 4 it does not collide |
| Tetris.Game.CreatePiece | script.js:47-49 | returns the catalogue array of type `t` itself, square and as wide as type `t`, and never the board |
| Tetris.Game.Collide | script.js:118-131 | reports a collision exactly when some filled piece cell lies outside the board or on a settled block; it changes nothing |
| Tetris.Game.Merge | script.js:71-79 | the board's new contents are the old ones with every in-bounds filled piece cell written in; only the board changes |
| Tetris.Game.PlayerMove | script.js:91-97 | the piece ends shifted by `dir` when that position is free, or back where it was when it collides; the row, the matrix and the board are untouched; a non-colliding piece stays non-colliding |
| Tetris.Game.PlayerDrop | script.js:81-89 | when the row below is free only the row advances; otherwise the piece is merged where it stood and the next piece spawns, the board being replaced by a fresh empty one if that piece collides and kept, holding the merged cells, if not; on a board of at least 4 × 4 the new state does not collide |
| Tetris.Game.PlayerRotate | script.js:99-116 | the piece ends turned a quarter clockwise when that fits, or exactly as it was when it collides; position, board and every other catalogue entry are untouched; a non-colliding piece stays non-colliding |
| Tetris.Game.PlayerReset | script.js:133-140 | the catalogue entry of type `t` spawns on the top row, centred; the board is replaced by an empty one exactly when that piece collides there and is kept otherwise; on a board of at least 4 × 4 the new piece does not collide |
| Tetris.Game.Spawn | script.js:134-136 | the active piece becomes the catalogue entry of type `t`, on row 0 at the centred spawn column |
| Tetris.Game.Clear | script.js:138 | the board becomes a fresh empty `rows × columns` grid |

## Left out

- Rendering: `drawMatrix`, `draw` and the colour table (`script.js:8-18`, `51-69`) only paint a canvas.
- The keyboard listener (`script.js:143-148`) only dispatches to the modelled actions.
- The animation loop and the start-up call (`script.js:151-158`) rely on host scheduling and never terminate. The constructor performs the start-up spawn of `script.js:157`.
- `Math.random` (`script.js:134`) becomes a caller-supplied piece type in 1..6. Type 7, the Z piece, is never chosen by the source.
- The canvas lookup and the pixel-to-cell division (`script.js:2-6`) are replaced by positive `rows` and `columns` constructor parameters.
- The `score` field (`script.js:37`) is never used by the source.
- Grids.CreateMatrix: builds one two-dimensional array, not a list of separately allocated rows; no row of the source's board is ever shared, so only row freshness is not stated.
- Tetris.Game.Merge: skips piece cells outside the board, where the source would throw (a missing row) or add a stray entry to a row (a missing column). This only happens when the piece already collides where it stands. The contracts show that it cannot happen on a board of at least 4 × 4, because every action keeps the piece non-colliding there.
- The source starts with no active piece until the first spawn. The model has no null matrix, so it holds the first catalogue entry until the constructor's spawn replaces it.
- The orientation of each catalogue entry is not tracked as a count of quarter turns. The model keeps the rotated arrays themselves, and `PlayerRotate` states which entry changed and how.
