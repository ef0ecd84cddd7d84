# Tetris game state, modelled in Dafny

This project models the game-state logic of a small pygame Tetris (`main.py`, class `Tetris`). The board has 10 columns and 20 rows of cells. A cell is empty or holds the colour of a settled piece. Pieces come from seven templates (I, O, T, J, L, Z, S in catalog order). The player moves a piece left, right or down, or rotates it clockwise with a wall-kick search. Gravity drops the piece one row per frame. When the piece cannot fall, it locks into the board: full rows are cleared and scored, the next piece comes in, and the game ends if that piece does not fit.

The model has five modules:

- `Catalog` (catalog.dfy): board geometry, the palette size and the seven templates.
- `Pieces` (pieces.dfy): the piece record, the clockwise rotation and spawning.
- `Board` (board.dfy): `Legal` (what `can_move` checks), `Merged` (what `merge_piece` writes) and `ClearLines` (what `clear_lines` computes), with their lemmas.
- `Game` (game.dfy): one frame as a pure function of the state. It covers input events, rotation with wall-kick, gravity and locking, and the loop over frames. The invariant that the running game's piece is always legal is proved here.
- `TetrisGame` (tetris.dfy): the class `Tetris`. Its fields `grid`, `current`, `next`, `score` and `gameOver` are updated in place. Each method follows the source's loops and is proved equal to the `Game`/`Board` function above.

The random draws of `random.choice` become inputs of type `Choice` (an index 0..6). Cell colours are 1..7, one per palette entry, and 0 is empty. Input events are the abstract values `Quit`, `Left`, `Right`, `Down`, `Up` and `Other`.

Two details of the game loop:

- A quit event only sets the flag. The remaining events of that frame, gravity and a possible lock still run. The loop condition is tested only at the head.
- The wall-kick search first tries the rotated piece where it stands. It then tries offsets `-w, -w+1, ..., w` in ascending order, where `w` is the rotated width. It does not try offsets by increasing magnitude. Offset 0 is tried a second time inside the range, as the code does.

## Model

| member | source | states |
|---|---|---|
| Catalog.BoardInCells | main.py:6-8 | the board is the 300 x 600 window measured in 30-pixel cells: 10 columns and 20 rows |
| Catalog.CatalogShapes | main.py:23-31 | every template is a non-empty rectangular 0/1 matrix with an occupied cell, at most COLUMNS wide and ROWS high |
| Pieces.Rotate | main.py:51-54 | the rotated matrix has len(orig[0]) rows of len(orig) entries, each 0/1, and rotated[i][j] == orig[len(orig)-1-j][i] |
| Pieces.RotateHasCell | main.py:51-54 | a quarter turn keeps an occupied cell |
| Pieces.RotateTwice | main.py:51-54 | two quarter turns map entry (i, j) to the opposite corner (h-1-i, w-1-j) |
| Pieces.RotateFour | main.py:51-54 | four quarter turns give back the original matrix |
| Pieces.SquareSymmetric | main.py:25 | the O template is unchanged by a quarter turn |
| Pieces.NewPiece | main.py:44-47 | a spawned piece has the drawn template and a palette colour, y = 0, and is centred: its left margin equals its right margin or exceeds it by one |
| Pieces.SpawnBar | main.py:47 | the I template spawns at x = 3 on 10 columns |
| Board.EmptyGrid | main.py:38 | the initial grid has ROWS rows of COLUMNS cells, every one EMPTY |
| Board.Legal | main.py:66-75 | the reference definition of a legal position: every occupied cell, shifted by (dx, dy), lies inside the side walls, above the floor, and on an empty cell unless above the board (proved equal to the loops in Tetris.CanMove) |
| Board.LegalShift | main.py:60-61 | asking about the piece with x moved by d is the same as asking about the shift (d, 0) |
| Board.LegalDrop | main.py:124-129 | asking about the piece with y moved down one is the same as asking about the shift (0, 1) |
| Board.LegalInside | main.py:73 | a piece legal at (0,0) with y >= 0 has every occupied cell inside the board, on an empty cell |
| Board.SpawnLegal | main.py:44-47 | every catalog piece at its spawn position lies inside [0, COLUMNS) x [0, ROWS), so it is legal on an empty board |
| Board.Merged | main.py:77-82 | the reference definition of the merged board: it keeps ROWS rows of COLUMNS cells; its cell contents are stated by MergedCells |
| Board.MergedCells | main.py:77-82 | merging a legal piece sets grid[y+r][x+c] to its colour for every occupied (r, c) and leaves every other cell unchanged |
| Board.MergedBlocks | main.py:77-82 | after merging a piece with an occupied cell, that piece is no longer legal at (0,0) |
| Board.MergedColoured | main.py:82 | merging keeps every cell empty or a palette colour |
| Board.KeepNonFull | main.py:85 | the filter keeps one row per non-full row (kept + full == all) and every kept row is a non-full row of the input |
| Board.NonFullIndicesExact | main.py:85 | the index list is strictly ascending and holds exactly the indices of the non-full rows |
| Board.KeptAtIndices | main.py:85 | the k-th kept row is the row at the k-th non-full index |
| Board.KeptInOrder | main.py:85 | the kept rows are exactly the non-full rows, unchanged and in their original order |
| Board.KeepAll | main.py:85 | with no full row the filter keeps every row and counts no full row |
| Board.ClearLines | main.py:84-88 | clearing leaves ROWS rows of COLUMNS cells, and cleared equals the number of full rows before the call |
| Board.ClearLinesShape | main.py:86-88 | the leading cleared rows are empty, the rest are the filtered rows, and no row is full afterwards |
| Board.ClearLinesKeepsOrder | main.py:85-88 | below the padding sit exactly the non-full rows of the old grid, in order and unchanged |
| Board.ClearLinesIdempotent | main.py:84-88 | a second clear removes 0 rows and leaves the grid unchanged |
| Board.ClearLinesColoured | main.py:88 | clearing keeps every cell empty or a palette colour |
| Game.Initial | main.py:38-42 | the reference definition of a new game: empty grid, two spawned pieces, score 0, running; its invariant is stated by InitialInv |
| Game.InitialInv | main.py:38-42 | a new game (empty grid, two spawned pieces, score 0) satisfies the invariant and is running |
| Game.FirstKick | main.py:59-62 | the search over offsets lo..hi in ascending order: any offset it returns lies in the range and is legal |
| Game.FirstKickSpec | main.py:59-62 | the search returns the least legal offset of the range, or none when no offset in it is legal |
| Game.FirstKickLeast | main.py:59-62 | the search returns exactly the least legal offset when there is one, and none when there is none |
| Game.Kick | main.py:59-64 | the reference definition of the wall-kick: the turned piece at the first legal offset of -w..w, else the original piece; stated in full by KickCases |
| Game.KickCases | main.py:59-64 | the wall-kick ends at the least legal offset in -w..w, or restores the original piece when none is legal |
| Game.RotateOutcome | main.py:49-64 | the reference definition of a rotate request: the turned piece where it stands if legal, else the wall-kick; stated in full by RotateOutcomeCases |
| Game.RotateOutcomeCases | main.py:49-64 | rotation ends with y unchanged, either with the rotated shape at a legal x (unchanged x, or else the first legal offset of -w..w) or with shape and x restored when no offset is legal |
| Game.RotateOutcomeLegal | main.py:49-64 | rotation keeps a legal piece legal |
| Game.HandleEvent | main.py:117-127 | one event changes neither the grid, the next piece nor the score, and raises the flag exactly on quit |
| Game.HandleEventSpec | main.py:116-127 | an event changes only the piece and the flag, keeps the piece legal, and raises the flag exactly on quit |
| Game.AfterInput | main.py:116-127 | draining the events never changes the grid, the next piece or the score, and keeps a well-formed shape |
| Game.AfterInputSpec | main.py:116-127 | after the events the piece is still legal, grid, next piece and score are unchanged, and the flag is raised exactly when a quit arrived |
| Game.Gravity | main.py:128-136 | gravity never lowers the score |
| Game.Lock | main.py:130-136 | locking adds exactly the number of full rows of the merged board to the score, promotes the next piece and draws a new one |
| Game.StepState | main.py:114-136 | one frame never lowers the score; its full outcome is stated by StepSpec |
| Game.StepSpec | main.py:114-136 | a frame keeps the piece legal while running and never lowers the score; a falling piece drops one row; on lock the grid is the merged-and-cleared grid, score grows by the number of full rows, next becomes current, and the game is over exactly when a quit arrived or the promoted piece is illegal |
| Game.RunFrames | main.py:113-136 | running frames keeps the invariant, never lowers the score, and leaves a finished game exactly as it is |
| TetrisGame.Tetris.constructor | main.py:34-42 | the object starts as the initial state with the invariant |
| TetrisGame.Tetris.CanMove | main.py:66-75 | the nested loops with early return answer exactly Legal: every occupied cell lands inside the walls, above the floor, and on an empty cell unless above the board |
| TetrisGame.Tetris.RotatePiece | main.py:49-58 | the piece becomes the rotation outcome; nothing else changes |
| TetrisGame.Tetris.KickSearch | main.py:59-64 | the search loop leaves the piece at the least legal offset or restores shape and x; nothing else changes |
| TetrisGame.Tetris.MergePiece | main.py:77-82 | the grid becomes the merged grid; nothing else changes |
| TetrisGame.Tetris.ClearLines | main.py:84-88 | the grid becomes the cleared grid and the score grows by exactly the rows cleared |
| TetrisGame.Tetris.HandleInput | main.py:118-127 | one event updates the state as the event function says |
| TetrisGame.Tetris.ApplyGravity | main.py:128-136 | gravity updates the state as the gravity function says |
| TetrisGame.Tetris.LockPiece | main.py:131-136 | merge, clear, promote, spawn and overflow check update the state as the lock function says |
| TetrisGame.Tetris.Step | main.py:114-136 | one loop iteration keeps the invariant and equals the frame function |
| TetrisGame.Tetris.Run | main.py:113-136 | the loop runs until game over or the frames run out, keeping the invariant, and equals the run function |

## Left out

- pygame setup and teardown (`pygame.init`, `set_mode`, `set_caption`, `pygame.quit`): I/O plumbing.
- All drawing (`draw_grid`, `draw_piece`, `draw_background_grid`, `screen.fill`, `display.flip`): rendering through a library outside the model.
- `pygame.event.get` and the key constants: a frame's events are an input sequence of abstract events. Any other key or event type is `Other`.
- `clock.tick(7)`: real-time frame pacing.
- `random.choice`: the shape and colour draws are inputs (`Choice` indices). Uniformity is not modelled.
- The RGB values of the palette: colours are the distinct non-zero cell values 1..7.
- TetrisGame.Tetris.Run: the source loops for as long as the game lasts. The model runs over a finite, caller-supplied list of frames and stops early when the game is over.
- TetrisGame.Tetris.MergePiece: requires the piece to be legal at (0,0) with y >= 0. Python's negative-index wrap-around for rows above the board is not modelled, because the game never merges such a piece: y starts at 0 and only grows.
- Pieces.Rotate: requires a non-empty rectangular 0/1 matrix. Python would raise on an empty matrix. Every shape the game holds is a catalog template or a rotation of one.
- The piece is a dictionary in the source and a value here. `current_piece = next_piece` shares one dictionary, but `next_piece` is rebound to a fresh piece straight away, so the sharing is never observable.
- A template's matrix stays shared with the catalog in the source. Rotation builds a new matrix and never mutates the old one, so value semantics agree with it.
