# 2048 game board in Dafny

This project models the grid engine of the 2048-rust game and proves what it does. It covers:

- the board object `GameBoard` with `new`, `get_cell`, `set_cell`, `steps`, `move_board` and `pretty_string`;
- the tile ranks `BlockSize` with `to_string` and `next`;
- the board dimensions and movement directions from `src/constants.rs`.

The board is a class `Engine.GameBoard` holding a 4 x 4 `array2` of optional tiles, indexed `[y, x]` like the source's array. Its methods update that array in place. Each method is proved against a pure function of the abstract board `Grid()`:

- `Boards.StepsOf` for `steps`;
- `Compaction.Compacted` for `move_board`, where every line along the direction is packed against the destination edge;
- `TextView.Pretty` for `pretty_string`.

Lemmas then prove what the source promises about those functions:

- every destination lies on the board and on the tile's own axis;
- every destination is empty when it is written, so the multiset of cells is kept;
- after a move every line is packed and keeps its tiles in order;
- a second move in the same direction does nothing;
- the text determines the board.

`move_board` keeps its two nested loops over one index vector. Their invariant is the board after j outer and i inner visits (`MoveLoop.LoopBoard`). `MoveLoop.LoopBoardEnd` proves that running the loops to the end yields `Compacted`. The proof goes through a closed form of every intermediate board, `MoveLoop.Partial`: each line has a packed prefix of visited cells and an untouched rest.

Modules, one file each:

- `wrappers.dfy` (`Option`)
- `constants.dfy`
- `block.dfy`
- `board.dfy` (board values, `steps`)
- `compaction.dfy` (packing lines, `Compacted`)
- `move_loop.dfy` (the loop boards of `move_board`)
- `text_view.dfy` (`pretty_string`)
- `engine.dfy` (the class)
- `scenarios.dfy` (a worked example)

## Model

| member | source | states |
|---|---|---|
| Block.Rank | src/block.rs:10-22 | the position of a variant in declaration order, from 0 for `_2` to 10 for `_2048` |
| Block.FromRankOfRank | src/block.rs:10-22 | declaration order identifies the variant |
| Block.Label | src/block.rs:25-39 | every label is 1 to 4 characters long and all digits |
| Block.LabelInjective | src/block.rs:25-39 | distinct variants have distinct labels |
| Block.LabelIsPowerOfTwo | src/block.rs:25-39 | the label of the k-th variant is the decimal text of 2^(k+1) |
| Block.DecimalRoundTrip | src/block.rs:25-39 | reading back a decimal text gives the number, so labels can be read as magnitudes |
| Block.MagnitudeIsPowerOfTwo | src/block.rs:25-39 | the magnitude the k-th label spells is 2^(k+1) |
| Block.Next | src/block.rs:41-55 | `next` is `None` exactly for `_2048`; otherwise it is the variant one position later |
| Block.NextInjective | src/block.rs:41-55 | two variants with the same successor are the same variant |
| Block.NextDoubles | src/block.rs:27-52 | the successor's label spells twice the magnitude |
| Block.Iterate | src/block.rs:41-55 | n applications of `next` succeed exactly when the rank plus n is at most 10, and then reach the rank plus n |
| Block.IterateFromSmallest | src/block.rs:41-55 | k applications of `next` from `_2` reach the k-th variant |
| Block.TenStepsToLargest | src/block.rs:41-55 | ten applications of `next` lead from `_2` to `_2048` |
| Block.EveryRankReachable | src/block.rs:41-55 | every variant is reached from `_2` |
| Boards.WithCell | src/game_board.rs:21-23 | writing cell (x, y) sets row y, column x and leaves every other cell unchanged |
| Boards.TilesOfWithCell | src/game_board.rs:21-23 | a write replaces exactly that cell's content in the multiset of cells |
| Boards.ScanRange | src/game_board.rs:50-55 | the range steps scans: from index 0 up to the cell, excluded, for Up and Left; from the cell itself to the far edge for Down and Right, so only those two include the origin |
| Boards.StepsOf | src/game_board.rs:47-73 | the steps count is bounded: Up by y, Left by x, Down by ROWS - y, Right by COLS - x; it is 0 for Up at y = 0 and Left at x = 0, and at most 1 at the Down and Right edges (0 there when the origin is occupied, by `Boards.StepsOrigin`) |
| Boards.DiffX | src/game_board.rs:90-94 | diff_x moves only Right (positive) and Left (negative), by exactly the steps count, and is 0 for Up and Down |
| Boards.DiffY | src/game_board.rs:96-100 | diff_y moves only Down (positive) and Up (negative), by exactly the steps count, and is 0 for Left and Right |
| Boards.StepsOrigin | src/game_board.rs:50-67 | the Down and Right ranges include the origin cell and the Up and Left ranges exclude it; an empty origin adds one to Down and Right only |
| Boards.StepsCountsEveryGap | src/game_board.rs:57-67 | steps counts every empty cell of its range, not only the run next to the tile |
| Boards.DestinationOnBoard | src/game_board.rs:87-105 | the destination (x + diff_x, y + diff_y) of an occupied cell is on the board, so the u8/i8 casts never wrap |
| Boards.DestinationOnAxis | src/game_board.rs:90-100 | Up/Down leave x unchanged and Left/Right leave y unchanged; a zero shift means zero steps |
| Compaction.PackKeepsTiles | src/game_board.rs:75-111 | packing keeps the tiles of a line and their order |
| Compaction.PackIsPacked | src/game_board.rs:75-111 | a packed line has no tile after an empty cell |
| Compaction.PackUnique | src/game_board.rs:75-111 | the packed line is the only packed line with the same length and the same tiles in order |
| Compaction.PackIdempotent | src/game_board.rs:75-111 | packing twice is packing once |
| Compaction.PackPermutes | src/game_board.rs:75-111 | packing permutes the cells of a line |
| Compaction.PackPrefixStep | src/game_board.rs:87-107 | one more visited cell of a line: a gap changes nothing; a tile goes to the first gap, whose position is the cell's position minus its gaps, and that gap is empty |
| Compaction.PackClosesGaps | src/game_board.rs:75-111 | the line None, 2, None, 4 packs to 2, 4, None, None |
| Compaction.EqualTilesStayApart | src/game_board.rs:104-107 | two equal tiles side by side do not merge |
| Compaction.Compacted | src/game_board.rs:75-111 | the reference result of a move: each line of the moved board is the packed original line |
| Compaction.CompactedLines | src/game_board.rs:75-111 | after a move a line is packed against the edge and keeps its tiles in order |
| Compaction.CompactedPacked | src/game_board.rs:75-111 | after a move every line is packed |
| Compaction.CompactedIdempotent | src/game_board.rs:75-111 | moving twice in one direction is moving once |
| Compaction.CompactedUnchanged | src/game_board.rs:75-111 | a move changes nothing exactly when every line is already packed |
| MoveLoop.IterRange | src/game_board.rs:76-81 | the index vector is ascending for Up and Left and descending for Down and Right |
| MoveLoop.Destination | src/game_board.rs:87-105 | the destination of a tile is on the board |
| MoveLoop.Visit | src/game_board.rs:87-107 | the loop body as a function of the board, the reference for `Engine.GameBoard.VisitCell`; its contract states only that the result is again a 4 x 4 board, and `MoveLoop.VisitEffect` states what it changes |
| MoveLoop.VisitEffect | src/game_board.rs:87-107 | a visit changes nothing at an empty cell; a tile lands at its destination, its own cell is cleared when the destination differs, and every other cell keeps its content |
| MoveLoop.StepsOnLine | src/game_board.rs:47-73 | for an occupied cell, steps is the number of gaps between it and the edge along its line |
| MoveLoop.DestinationOnLine | src/game_board.rs:87-105 | a tile's destination is on its own line, as many cells nearer the edge as there are gaps before it |
| MoveLoop.LineOfPartial | src/game_board.rs:83-110 | after j outer and i inner visits, each line has its visited prefix packed and its rest untouched |
| MoveLoop.PartialStep | src/game_board.rs:83-107 | each visit turns one intermediate board into the next, and a tile that moves lands on an empty cell |
| MoveLoop.VisitKeepsTiles | src/game_board.rs:104-107 | a visit whose destination is empty keeps the multiset of cells |
| MoveLoop.CompactedKeepsTiles | src/game_board.rs:75-111 | a move loses and creates no tile: the multiset of cells is kept |
| MoveLoop.LoopBoardEnd | src/game_board.rs:83-110 | the two nested loops, run visit by visit, end with the compacted board: lines packed, multiset of cells kept |
| Scenarios.PackLoneTile | src/game_board.rs:75-111 | a lone tile at any position of an otherwise empty line travels to the edge |
| Scenarios.LoneTileSteps | src/game_board.rs:47-105 | for a lone tile on the board, steps is its distance from the edge that d points to, and its destination is the edge cell of its own line |
| Scenarios.MoveDown | src/game_board.rs:75-111 | on a board with 2 at (0,0), 2 at (1,3) and 4 at (2,3), moving Down brings the first 2 to (0,3) and nothing else moves |
| Scenarios.MoveLeftDoesNotMerge | src/game_board.rs:104-107 | moving that board Left changes nothing: the two 2s stay side by side |
| TextView.CellsTextBars | src/game_board.rs:31-39 | the text of a row's cells closes each cell with exactly one bar |
| TextView.RowsTextNewlines | src/game_board.rs:26-42 | the text of the rows starts and ends with a newline and holds one newline per row besides the leading one |
| TextView.RowsTextBars | src/game_board.rs:29-39 | rows of n cells each give n + 1 bars per row: the opening bar and one per cell |
| TextView.PrettyShape | src/game_board.rs:25-45 | the text of a board starts and ends with a newline and holds five newlines and twenty bars |
| TextView.CellToken | src/game_board.rs:32-36 | a cell shows the tile's label or "-", 1 to 4 characters, with no space and no newline |
| TextView.CellsTextExtendShown | src/game_board.rs:31-39 | appending " label " or " - " and then a bar extends the text of a row by one cell |
| TextView.RowsTextExtend | src/game_board.rs:28-42 | an opening bar, the row's cells and a newline extend the text by one row |
| TextView.PrettyEmptyBoard | src/game_board.rs:25-45 | the empty board's text is a newline followed by four lines of an opening bar and four " - " cells, each closed by a bar |
| TextView.CellsTextInjective | src/game_board.rs:31-39 | rows of the same length with the same text are the same row |
| TextView.PrettyInjective | src/game_board.rs:25-45 | boards with the same text are the same board |
| Engine.GameBoard.constructor | src/game_board.rs:11-15 | the new board holds exactly the given cells |
| Engine.GameBoard.GetCell | src/game_board.rs:17-19 | the cell in row y, column x |
| Engine.GameBoard.SetCell | src/game_board.rs:21-23 | afterwards cell (x, y) holds the value and every other cell is unchanged |
| Engine.GameBoard.ScannedCell | src/game_board.rs:58-63 | the cell steps reads at index k is the k-th cell of the column (Up, Down) or row (Left, Right) |
| Engine.GameBoard.Steps | src/game_board.rs:47-73 | the loop counts the empty cells of the scan range, and the board is not changed |
| Engine.GameBoard.Displacement | src/game_board.rs:90-100 | the two matches computing diff_x and diff_y through steps yield the signed displacement of the steps count along the axis of d |
| Engine.GameBoard.VisitCell | src/game_board.rs:87-107 | the body of move_board's loops: an occupied cell with a nonzero shift is written at its destination and cleared |
| Engine.GameBoard.MoveBoard | src/game_board.rs:75-111 | the board becomes the compacted board: every line packed against the edge, tiles kept in order, multiset of cells unchanged |
| Engine.GameBoard.PrettyString | src/game_board.rs:25-45 | the text built row by row and cell by cell is the board's text |

## Left out

- The `println!` calls in `steps` and `move_board` print debug output and change no state, so they are dropped.
- The `Block` and `BlockPlaceholder` marker structs and the `#[derive(Component)]` attributes only serve the rendering library.
- `src/main.rs`, `src/materials.rs`, `src/systems.rs`, `src/components.rs` and `src/events.rs` are the user interface: rendering, colours, animation timers and events. They are not part of this model.
- The f32 window and block-size constants of `src/constants.rs` are presentation only.
- Merging and spawning are not modelled. `move_board` never merges: it writes the destination unconditionally and never calls `next`. There is no random free-cell routine in the board code. The 2048 game as usually played has both, but the model follows the code, as `Scenarios.MoveLeftDoesNotMerge` shows.
- Coordinates and step counts are `nat`, not u8/i8. `Boards.DestinationOnBoard` proves that no cast in `move_board` can wrap: every destination is on the board. The bound on every step count (at most 4) comes from the ensures of `Boards.StepsOf`.
- Off-board coordinates are excluded by the `OnBoard(x, y)` preconditions of `GetCell`, `SetCell`, `Steps` and `StepsOf`. There, `get_cell` and `set_cell` panic on the out-of-bounds index, and `steps` returns 0 without reading a cell whenever its range is empty (for example `steps(200, 0, Up)` or `steps(0, 7, Down)`). Neither the panic nor that value is modelled. `move_board`, the only caller in the board code, stays on the board (`Boards.DestinationOnBoard`).
- `Engine.GameBoard.VisitCell` factors the body of move_board's inner loop into a method of its own so that the loops stay small, and `Engine.GameBoard.Displacement` factors out its two matches computing diff_x and diff_y.
- ScannedCell: the four-way match on the direction inside the steps loop is a separate read-only function member.
- The board is fixed at 4 x 4. The source drives both loops with one index vector, which is only correct because ROWS_COUNT == COLS_COUNT; `MoveLoop.IterRange` states this equality.
- `BlockSize` ordering is its declaration order (`Block.Rank`). The source derives no ordering trait.
