# Tetris board, movement and rotation — a Dafny model

This project models the logic of an early version of a browser Tetris game.
At this stage the game has a fixed 20-row, 10-column board. It has one falling
block that the arrow keys move, and it redraws the board each time the block
moves. A separate utility turns a block matrix a quarter turn clockwise.

- `shapes.dfy`, module `Shapes` (from `src/games/tetris/utils.ts`): block
  matrices and `Rotate`. `Rotate` builds row `i` of the result from column `i`
  of the input, read bottom to top. The lemmas prove the index map, the swap of
  dimensions, the half turn, that four turns give back the input, and that the
  number of occupied cells does not change.
- `tetris.dfy`, module `Tetris` (from `src/games/tetris/Tetris.tsx`):
  - the board constants and `CreateEmptyBoard`;
  - `MovePosition`, the position update run on each keydown. It clamps
    against the walls and the floor and does nothing for any other key;
  - `DrawBlock`, the draw effect. It is imperative: it makes a fresh 20×10
    `array2` of empty cells and fills square `(pos.y + dy, pos.x + dx)` for
    every true matrix cell `(dy, dx)`, skipping squares off the board. It is
    proved equal, square by square, to the function `DrawnBoard`, and the
    lemmas about `DrawnBoard` say what the drawn board holds.
  - The two halves connect in `ReplayKeepsWithin` and `ReplayDrawsWhole`. A
    block whose bounding box fits at the spawn position `(3, 0)` stays on the
    board after any sequence of keys, so it is always drawn whole.

Cells are immutable values (`datatype Cell`). The source fills each row with
one shared cell object, but drawing replaces array elements and never changes
a cell object. So the sharing cannot be observed, and value cells behave the
same way.

This version of the game does not check moves for collision, lock pieces,
clear lines, keep score or end the game. Its moves clamp only against the
walls and the floor, and an empty cell's colour is the empty string.

## Model

| member | source | states |
|---|---|---|
| `Shapes.Rotate` | src/games/tetris/utils.ts:3-6 | For a non-empty rectangular n×w matrix, the result has w rows of n entries (rectangular when w > 0), and entry (i, j) is input entry (n-1-j, i): a clockwise quarter turn |
| `Shapes.RotateTwice` | src/games/tetris/utils.ts:6 | Two rotations of an n×w matrix with w > 0 give an n×w matrix whose entry (i, j) is input entry (n-1-i, w-1-j): the half turn |
| `Shapes.RotateFourTimes` | src/games/tetris/utils.ts:3-6 | Four rotations give back the original matrix |
| `Shapes.RotateCells` | src/games/tetris/utils.ts:6 | The occupied cells of the rotated matrix are exactly the input's occupied cells (r, c), each moved to (c, n-1-r) |
| `Shapes.RotateKeepsCount` | src/games/tetris/utils.ts:6 | Rotation keeps the number of true cells |
| `Tetris.CreateEmptyBoard` | src/games/tetris/Tetris.tsx:4-10 | The board has exactly 20 rows of exactly 10 cells, and every cell is unfilled with the empty colour |
| `Tetris.EmptyBoardHasNoFilledCells` | src/games/tetris/Tetris.tsx:7-10 | No square of a new board is filled |
| `Tetris.MovePosition` | src/games/tetris/Tetris.tsx:20-37 | ArrowLeft: y unchanged, x never below 0, and x moves one left unless it is already at or left of column 0, where it becomes 0 (a no-op at x = 0). ArrowRight: y unchanged, x at most 10 minus the first row's width and at most one more than before, equal to one of those two. ArrowDown: the same for y against 20 minus the row count, x unchanged. Any other key: position unchanged |
| `Tetris.MoveKeepsWithin` | src/games/tetris/Tetris.tsx:22-33 | For a rectangular block inside the board, every key keeps it inside the board |
| `Tetris.ReplayKeepsWithin` | src/games/tetris/Tetris.tsx:18-40 | Any sequence of keydown events keeps a rectangular block that starts inside the board inside it |
| `Tetris.DrawBlock` | src/games/tetris/Tetris.tsx:51-64 | Returns a newly allocated 20×10 array whose every square equals the matching square of `DrawnBoard` |
| `Tetris.DrawnBoard` | src/games/tetris/Tetris.tsx:52-60 | The drawn board is still exactly 20 rows of 10 cells |
| `Tetris.DrawnCellIff` | src/games/tetris/Tetris.tsx:54-61 | Square (y, x) holds {filled: true, color: block colour} exactly when y = pos.y + dy and x = pos.x + dx for some true matrix cell (dy, dx); every other square is empty |
| `Tetris.DrawnFilledCells` | src/games/tetris/Tetris.tsx:57-60 | The filled squares are exactly the true matrix cells that land on the board, each moved by the position; true cells that land off the board are dropped |
| `Tetris.DrawnFilledCount` | src/games/tetris/Tetris.tsx:54-64 | The number of filled squares is at most the number of true matrix cells, with equality exactly when every true cell lands on the board |
| `Tetris.WithinDrawsWhole` | src/games/tetris/Tetris.tsx:51-64 | A rectangular block whose bounding box is inside the board is drawn with all of its true cells |
| `Tetris.ReplayDrawsWhole` | src/games/tetris/Tetris.tsx:15-67 | From the spawn position (3, 0), a rectangular block that fits there is drawn whole after any sequence of keys |

## Left out

- React state and effects (`useState`, `useEffect`, `useCallback`) and the
  `window` keydown listener. The key step and the draw step are plain
  functions and methods over explicit inputs. A stream of keydown events is
  the parameter `keys` of `Replay`.
- The JSX grid rendering (`board.flat()` and the cell divs). It is
  presentation only.
- The pages, router, mobile controls (with `navigator.vibrate`) and mobile
  detection. They contain no game logic.
- The tetromino catalog `./blocks` is not part of this model. A block is any
  boolean matrix with any colour string. The first catalog entry, which the
  component starts with, is therefore a parameter.
- Collision with filled squares, locking, line clearing, scoring, levels, hard
  drop, spawning of new pieces, game over and random piece choice. The code
  modelled here does none of these, and it never calls `rotate`.
- Shapes.Rotate: requires a non-empty matrix whose rows all have the same
  length. The source reads `matrix[0]` and fails on an empty matrix. Rows of
  unequal length are not modelled: the catalog's matrices are taken to be
  rectangular. On a ragged matrix `rotate` yields `undefined` entries and
  drops cells past the first row's width.
- Tetris.MovePosition: requires a non-empty matrix only for ArrowRight, the one
  case that reads `shape[0].length`. Positions are unbounded integers, not
  JavaScript numbers. This makes no difference for positions within a few
  steps of the board.
- The shared default cell object in each board row is not modelled, because
  cells here are immutable values (see above).
