/**
 * The game board object (src/game_board.rs): a 4 x 4 array of cells,
 * indexed [y][x], that set_cell and move_board update in place.
 */
module Engine {
  import opened Wrappers
  import opened Block
  import opened Constants
  import opened Boards
  import opened Compaction
  import opened MoveLoop
  import opened TextView

  class GameBoard {
    /** game_board_array: row y, column x at cells[y, x]. */
    const cells: array2<Cell>

    ghost predicate Valid()
    {
      cells.Length0 == RowsCount && cells.Length1 == ColsCount
    }

    /** The board the array holds, as rows of cells. */
    ghost function Grid(): (g: Board)
      requires Valid()
      reads cells
      ensures WellFormed(g)
    {
      seq(RowsCount, y requires 0 <= y < RowsCount reads cells =>
        seq(ColsCount, x requires 0 <= x < ColsCount reads cells => cells[y, x]))
    }

    /** Grid() holds the array's cells. */
    lemma GridCells()
      requires Valid()
      ensures forall y, x | OnBoard(x, y) :: Grid()[y][x] == cells[y, x]
    {
    }

    /** new: a board object holding the given cells. */
    constructor (board: Board)
      requires WellFormed(board)
      ensures Valid() && fresh(cells)
      ensures Grid() == board
    {
      cells := new Cell[RowsCount, ColsCount]((y: nat, x: nat) requires y < RowsCount && x < ColsCount => board[y][x]);
      new;
      GridCells();
      BoardExtensionality(Grid(), board);
    }

    /** get_cell: the cell in column x of row y. */
    function GetCell(x: nat, y: nat): (c: Cell)
      requires Valid() && OnBoard(x, y)
      reads cells
      ensures c == Grid()[y][x]
    {
      cells[y, x]
    }

    /** set_cell: write v into column x of row y; every other cell keeps its value. */
    method SetCell(x: nat, y: nat, v: Cell)
      requires Valid() && OnBoard(x, y)
      modifies cells
      ensures Valid()
      ensures Grid() == WithCell(old(Grid()), x, y, v)
    {
      ghost var g := Grid();
      GridCells();
      cells[y, x] := v;
      GridCells();
      BoardExtensionality(Grid(), WithCell(g, x, y, v));
    }

    /** The k-th cell of the row or column that steps scans for (x, y) towards d. */
    function ScannedCell(x: nat, y: nat, d: GameMovementDirection, k: nat): (c: Cell)
      requires Valid() && OnBoard(x, y)
      requires k < if d.Up? || d.Down? then RowsCount else ColsCount
      reads cells
      ensures c == Axis(Grid(), x, y, d)[k]
    {
      match d
      case Up => cells[k, x]
      case Down => cells[k, x]
      case Right => cells[y, k]
      case Left => cells[y, k]
    }

    /** steps: the empty cells of the scan range of (x, y) towards d, counted one by one. */
    method Steps(x: nat, y: nat, d: GameMovementDirection) returns (r: nat)
      requires Valid() && OnBoard(x, y)
      ensures r == StepsOf(Grid(), x, y, d)
    {
      r := 0;
      var (lo, hi) := ScanRange(x, y, d);
      ghost var axis := Axis(Grid(), x, y, d);
      var k := lo;
      while k < hi
        invariant lo <= k <= hi
        invariant r == CountEmpty(axis[lo..k])
      {
        var cell := ScannedCell(x, y, d, k);
        CountEmptyExtend(axis, lo, k);
        if cell.None? {
          r := r + 1;
        }
        k := k + 1;
      }
    }

    /** diff_x and diff_y of move_board: steps along the axis of d, negative towards index 0. */
    method Displacement(x: nat, y: nat, d: GameMovementDirection) returns (dx: int, dy: int)
      requires Valid() && OnBoard(x, y)
      ensures var n := StepsOf(Grid(), x, y, d);
        dx == DiffX(d, n) && dy == DiffY(d, n)
    {
      dx := 0;
      match d {
        case Right =>
          var steps := Steps(x, y, d);
          dx := steps;
        case Left =>
          var steps := Steps(x, y, d);
          dx := -(steps as int);
        case _ =>
      }
      dy := 0;
      match d {
        case Up =>
          var steps := Steps(x, y, d);
          dy := -(steps as int);
        case Down =>
          var steps := Steps(x, y, d);
          dy := steps;
        case _ =>
      }
    }

    /**
     * The loop body of move_board at (x, y): a tile whose displacement is
     * not zero is written at its destination and its own cell is cleared.
     */
    method VisitCell(x: nat, y: nat, d: GameMovementDirection)
      requires Valid() && OnBoard(x, y)
      modifies cells
      ensures Valid()
      ensures Grid() == Visit(old(Grid()), d, x, y)
    {
      var cell := GetCell(x, y);
      if cell.Some? {
        ghost var g := Grid();
        var dx, dy := Displacement(x, y, d);
        VisitOfTile(g, d, x, y);
        if dx != 0 || dy != 0 {
          SetCell(x + dx, y + dy, cell);
          SetCell(x, y, None);
        }
      }
    }

    /**
     * move_board: every cell, from the edge that d points to inwards, is
     * visited once; the board ends with every line packed against that edge.
     */
    method MoveBoard(d: GameMovementDirection)
      requires Valid()
      modifies cells
      ensures Valid()
      ensures Grid() == Compacted(old(Grid()), d)
      ensures Tiles(Grid()) == Tiles(old(Grid()))
      ensures forall l | 0 <= l < LineCount(d) :: Packed(Line(Grid(), d, l))
    {
      ghost var g0 := Grid();
      var range := IterRange(d);
      var j := 0;
      while j < |range|
        invariant 0 <= j <= RowsCount
        invariant Grid() == LoopBoard(g0, d, j, 0)
      {
        var i := 0;
        while i < |range|
          invariant 0 <= i <= ColsCount
          invariant Grid() == LoopBoard(g0, d, j, i)
        {
          LoopBoardNext(g0, d, j, i);
          VisitCell(range[i], range[j], d);
          i := i + 1;
        }
        LoopBoardNextOuter(g0, d, j);
        j := j + 1;
      }
      LoopBoardEnd(g0, d);
    }

    /** pretty_string: the text of the board, built row by row and cell by cell. */
    method PrettyString() returns (s: string)
      requires Valid()
      ensures s == Pretty(Grid())
    {
      ghost var g := Grid();
      s := "\n";
      var y := 0;
      while y < RowsCount
        invariant 0 <= y <= RowsCount
        invariant s == RowsText(g[..y])
      {
        s := s + "|";
        ghost var lineStart := s;
        var x := 0;
        while x < ColsCount
          invariant 0 <= x <= ColsCount
          invariant s == lineStart + CellsText(g[y][..x])
        {
          var cell := GetCell(x, y);
          CellsTextExtendShown(lineStart, g[y], x, s);
          match cell {
            case Some(b) => s := s + (" " + Label(b) + " ");
            case None => s := s + " - ";
          }
          s := s + "|";
          x := x + 1;
        }
        RowsTextExtend(g, y, s);
        s := s + "\n";
        y := y + 1;
      }
      RowsTextWhole(g, s);
    }
  }
}
