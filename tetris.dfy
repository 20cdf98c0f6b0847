/** The board, the arrow-key movement and the drawing of the current block
    (src/games/tetris/Tetris.tsx).

    A board is 20 rows of 10 cells, row 0 at the top. A position (x, y)
    is the board column and row of the block's top-left matrix cell. */
module Tetris {
  import opened Shapes

  const BoardWidth: nat := 10
  const BoardHeight: nat := 20

  /** One board square; an empty one is unfilled with the empty colour. */
  datatype Cell = Cell(filled: bool, color: string)

  const EmptyCell := Cell(false, "")

  type Board = seq<seq<Cell>>

  /** A catalog entry: the block's matrix and its colour tag. */
  datatype Block = Block(shape: Matrix<bool>, color: string)

  datatype Position = Position(x: int, y: int)

  /** Where a block starts. */
  const SpawnPosition := Position(3, 0)

  /** The board has BoardHeight rows of BoardWidth cells. */
  predicate HasBoardSize(b: Board) {
    |b| == BoardHeight && forall y :: 0 <= y < |b| ==> |b[y]| == BoardWidth
  }

  /** The filled squares of a board, as (row, column) pairs. */
  function FilledCells(b: Board): (cells: set<(int, int)>)
    ensures forall p :: p in cells ==> 0 <= p.0 < |b| && 0 <= p.1 < |b[p.0]| && b[p.0][p.1].filled
  {
    set y, x | 0 <= y < |b| && 0 <= x < |b[y]| && b[y][x].filled :: (y, x)
  }

  // ---------------------------------------------------------------------
  // createEmptyBoard

  /** A fresh board: every square empty. */
  function CreateEmptyBoard(): (b: Board)
    ensures HasBoardSize(b)
    ensures forall y, x :: 0 <= y < BoardHeight && 0 <= x < BoardWidth ==> b[y][x] == EmptyCell
  {
    seq(BoardHeight, _ => seq(BoardWidth, _ => EmptyCell))
  }

  /** Nothing is filled on an empty board. */
  lemma EmptyBoardHasNoFilledCells()
    ensures FilledCells(CreateEmptyBoard()) == {}
  {
  }

  // ---------------------------------------------------------------------
  // The position update of the keydown handler

  /** The next position after key `key`, for a block with matrix `shape`.
      ArrowLeft moves one column left but not past column 0; ArrowRight
      moves one column right but not past the column at which the block's
      first row would reach the right wall; ArrowDown moves one row down
      but not past the row at which the block's last row would reach the
      floor; every other key leaves the position as it is. */
  function MovePosition(prev: Position, key: string, shape: Matrix<bool>): (next: Position)
    requires key == "ArrowRight" ==> |shape| > 0
    ensures key == "ArrowLeft" ==>
      next.y == prev.y && next.x >= 0 && (next.x == prev.x - 1 || (next.x == 0 && prev.x <= 0))
    ensures key == "ArrowRight" ==>
      var bound := BoardWidth - |shape[0]|;
      next.y == prev.y && next.x <= bound && next.x <= prev.x + 1 && (next.x == prev.x + 1 || next.x == bound)
    ensures key == "ArrowDown" ==>
      var bound := BoardHeight - |shape|;
      next.x == prev.x && next.y <= bound && next.y <= prev.y + 1 && (next.y == prev.y + 1 || next.y == bound)
    ensures key != "ArrowLeft" && key != "ArrowRight" && key != "ArrowDown" ==> next == prev
  {
    match key
    case "ArrowLeft" => prev.(x := Max(prev.x - 1, 0))
    case "ArrowRight" => prev.(x := Min(prev.x + 1, BoardWidth - |shape[0]|))
    case "ArrowDown" => prev.(y := Min(prev.y + 1, BoardHeight - |shape|))
    case _ => prev
  }

  function Max(a: int, b: int): (m: int) { if a >= b then a else b }

  function Min(a: int, b: int): (m: int) { if a <= b then a else b }

  /** The position lies between the walls and above the floor for a block
      whose rows are all as long as its first one: its bounding box fits
      on the board. */
  predicate Within(pos: Position, shape: Matrix<bool>)
    requires Rectangular(shape)
  {
    0 <= pos.x <= BoardWidth - |shape[0]| && 0 <= pos.y <= BoardHeight - |shape|
  }

  /** Every key keeps a block whose bounding box fits on the board inside it. */
  lemma MoveKeepsWithin(prev: Position, key: string, shape: Matrix<bool>)
    requires Rectangular(shape) && Within(prev, shape)
    ensures Within(MovePosition(prev, key, shape), shape)
  {
  }

  /** The position after the keys of `keys`, one keydown event each, in order. */
  function Replay(pos: Position, keys: seq<string>, shape: Matrix<bool>): (last: Position)
    requires |shape| > 0
    decreases |keys|
  {
    if keys == [] then pos else Replay(MovePosition(pos, keys[0], shape), keys[1..], shape)
  }

  /** No sequence of keys takes a fitting block out of the board. */
  lemma {:induction false} ReplayKeepsWithin(pos: Position, keys: seq<string>, shape: Matrix<bool>)
    requires Rectangular(shape) && Within(pos, shape)
    ensures Within(Replay(pos, keys, shape), shape)
    decreases |keys|
  {
    if keys != [] {
      MoveKeepsWithin(pos, keys[0], shape);
      ReplayKeepsWithin(MovePosition(pos, keys[0], shape), keys[1..], shape);
    }
  }

  // ---------------------------------------------------------------------
  // Drawing the current block onto a fresh board

  /** Board square (y, x) lies under a true cell of `shape` placed at `pos`. */
  predicate Covers(shape: Matrix<bool>, pos: Position, y: int, x: int) {
    var dy, dx := y - pos.y, x - pos.x;
    0 <= dy < |shape| && 0 <= dx < |shape[dy]| && shape[dy][dx]
  }

  /** The board the draw effect computes: an empty board with the block's
      colour on every square under a true cell of its matrix. */
  function DrawnBoard(block: Block, pos: Position): (b: Board)
    ensures HasBoardSize(b)
  {
    seq(BoardHeight, y =>
      seq(BoardWidth, x =>
        if Covers(block.shape, pos, y, x) then Cell(true, block.color) else EmptyCell))
  }

  /** The draw effect: start from an empty board and, for each true cell
      (dy, dx) of the block's matrix, fill square (pos.y + dy, pos.x + dx)
      with the block's colour when that square is on the board. */
  method DrawBlock(block: Block, pos: Position) returns (board: array2<Cell>)
    ensures fresh(board)
    ensures board.Length0 == BoardHeight && board.Length1 == BoardWidth
    ensures forall y, x :: 0 <= y < BoardHeight && 0 <= x < BoardWidth ==>
      board[y, x] == DrawnBoard(block, pos)[y][x]
  {
    var empty := CreateEmptyBoard();
    board := new Cell[BoardHeight, BoardWidth]((y, x) requires 0 <= y < BoardHeight && 0 <= x < BoardWidth => empty[y][x]);
    var shape := block.shape;
    var filledCell := Cell(true, block.color);
    for dy := 0 to |shape|
      invariant forall y, x :: 0 <= y < BoardHeight && 0 <= x < BoardWidth ==>
        board[y, x] == if Covers(shape, pos, y, x) && y - pos.y < dy then filledCell else EmptyCell
    {
      var row := shape[dy];
      for dx := 0 to |row|
        invariant forall y, x :: 0 <= y < BoardHeight && 0 <= x < BoardWidth ==>
          board[y, x] ==
            if Covers(shape, pos, y, x) && (y - pos.y < dy || (y - pos.y == dy && x - pos.x < dx))
            then filledCell else EmptyCell
      {
        if row[dx] {
          var y := pos.y + dy;
          var x := pos.x + dx;
          if 0 <= y < BoardHeight && 0 <= x < BoardWidth {
            board[y, x] := filledCell;
          }
        }
      }
    }
  }

  /** A square of the drawn board holds the block exactly when some true
      cell (dy, dx) of its matrix lands on it; every other square is empty. */
  lemma DrawnCellIff(block: Block, pos: Position, y: int, x: int)
    requires 0 <= y < BoardHeight && 0 <= x < BoardWidth
    ensures DrawnBoard(block, pos)[y][x] == Cell(true, block.color) <==>
      exists dy, dx :: 0 <= dy < |block.shape| && 0 <= dx < |block.shape[dy]| && block.shape[dy][dx]
        && y == pos.y + dy && x == pos.x + dx
    ensures DrawnBoard(block, pos)[y][x] != Cell(true, block.color) ==> DrawnBoard(block, pos)[y][x] == EmptyCell
  {
  }

  /** Where matrix cell (dy, dx) of a block at `pos` lands on the board. */
  function Translate(pos: Position, p: (int, int)): (q: (int, int)) {
    (pos.y + p.0, pos.x + p.1)
  }

  predicate OnBoard(p: (int, int)) {
    0 <= p.0 < BoardHeight && 0 <= p.1 < BoardWidth
  }

  /** The matrix cells of `shape` that land on the board from `pos`. */
  function LandingCells(shape: Matrix<bool>, pos: Position): (cells: set<(int, int)>)
    ensures cells <= TrueCells(shape)
  {
    set p | p in TrueCells(shape) && OnBoard(Translate(pos, p))
  }

  /** The filled squares of the drawn board are the landing cells, moved
      to the block's position; nothing is written off the board. */
  lemma DrawnFilledCells(block: Block, pos: Position)
    ensures FilledCells(DrawnBoard(block, pos))
         == set p | p in LandingCells(block.shape, pos) :: Translate(pos, p)
  {
    var b := DrawnBoard(block, pos);
    var shape := block.shape;
    var image := set p | p in LandingCells(shape, pos) :: Translate(pos, p);
    forall q | q in FilledCells(b) ensures q in image {
      var p := (q.0 - pos.y, q.1 - pos.x);
      assert Covers(shape, pos, q.0, q.1);
      assert p in TrueCells(shape);
      assert Translate(pos, p) == q;
    }
    forall q | q in image ensures q in FilledCells(b) {
      var p :| p in LandingCells(shape, pos) && Translate(pos, p) == q;
      assert Covers(shape, pos, q.0, q.1);
    }
  }

  /** Translate is one-to-one, so it keeps the size of any set of cells. */
  lemma TranslatedImageSize(cells: set<(int, int)>, pos: Position)
    ensures |(set p | p in cells :: Translate(pos, p))| == |cells|
  {
    var f := p => Translate(pos, p);
    InjectiveImageSize(cells, f);
    assert Image(cells, f) == set p | p in cells :: Translate(pos, p);
  }

  /** A subset is no larger than its superset, and a proper one is smaller. */
  lemma SubsetSize(a: set<(int, int)>, b: set<(int, int)>)
    requires a <= b
    ensures |a| <= |b|
    ensures a < b ==> |a| < |b|
  {
    assert b == a + (b - a);
    assert a * (b - a) == {};
  }

  /** The drawn board has at most as many filled squares as the block has
      true cells, and exactly as many precisely when every true cell lands
      on the board. */
  lemma DrawnFilledCount(block: Block, pos: Position)
    ensures |FilledCells(DrawnBoard(block, pos))| <= |TrueCells(block.shape)|
    ensures |FilledCells(DrawnBoard(block, pos))| == |TrueCells(block.shape)| <==>
      forall p :: p in TrueCells(block.shape) ==> OnBoard(Translate(pos, p))
  {
    var shape := block.shape;
    DrawnFilledCells(block, pos);
    TranslatedImageSize(LandingCells(shape, pos), pos);
    var landing := LandingCells(shape, pos);
    SubsetSize(landing, TrueCells(shape));
    if forall p :: p in TrueCells(shape) ==> OnBoard(Translate(pos, p)) {
      assert landing == TrueCells(shape);
    } else {
      assert landing < TrueCells(shape);
    }
  }

  /** A block whose bounding box fits on the board is drawn whole. */
  lemma WithinDrawsWhole(block: Block, pos: Position)
    requires Rectangular(block.shape) && Within(pos, block.shape)
    ensures |FilledCells(DrawnBoard(block, pos))| == |TrueCells(block.shape)|
  {
    DrawnFilledCount(block, pos);
    forall p | p in TrueCells(block.shape) ensures OnBoard(Translate(pos, p)) {
      assert p.1 < |block.shape[p.0]| == |block.shape[0]|;
    }
  }

  /** A block that fits at the spawn position is drawn whole after any
      sequence of keys. */
  lemma ReplayDrawsWhole(block: Block, keys: seq<string>)
    requires Rectangular(block.shape) && Within(SpawnPosition, block.shape)
    ensures |FilledCells(DrawnBoard(block, Replay(SpawnPosition, keys, block.shape)))|
         == |TrueCells(block.shape)|
  {
    ReplayKeepsWithin(SpawnPosition, keys, block.shape);
    WithinDrawsWhole(block, Replay(SpawnPosition, keys, block.shape));
  }
}
