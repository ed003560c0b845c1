/** Board dimensions and movement directions (src/constants.rs). */
module Constants {
  /** Number of rows of the board (ROWS_COUNT). */
  const RowsCount: nat := 4
  /** Number of columns of the board (COLS_COUNT). */
  const ColsCount: nat := 4

  /** The four directions a move can take, in declaration order. */
  datatype GameMovementDirection = Up | Right | Down | Left
}
