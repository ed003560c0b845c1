/**
 * The board as a value (the GameBoardArray of src/game_board.rs): rows of
 * optional tiles, indexed [y][x], and the pure meaning of the read-only
 * queries get_cell and steps.
 */
module Boards {
  import opened Wrappers
  import opened Block
  import opened Constants

  type Cell = Option<BlockSize>
  type Board = seq<seq<Cell>>

  /** RowsCount rows of ColsCount cells each. */
  predicate WellFormed(g: Board)
  {
    |g| == RowsCount && forall y | 0 <= y < |g| :: |g[y]| == ColsCount
  }

  /** Coordinates (x, y) on the board: column x, row y. */
  predicate OnBoard(x: int, y: int)
  {
    0 <= x < ColsCount && 0 <= y < RowsCount
  }

  /** Two well-formed boards with the same cells are the same board. */
  lemma BoardExtensionality(a: Board, b: Board)
    requires WellFormed(a) && WellFormed(b)
    requires forall y, x | OnBoard(x, y) :: a[y][x] == b[y][x]
    ensures a == b
  {
    forall y | 0 <= y < RowsCount
      ensures a[y] == b[y]
    {
      assert forall x | 0 <= x < ColsCount :: a[y][x] == b[y][x];
    }
  }

  /** The board with every cell empty. */
  function EmptyBoard(): (g: Board)
    ensures WellFormed(g)
    ensures forall y, x | OnBoard(x, y) :: g[y][x] == None
  {
    seq(RowsCount, _ => seq(ColsCount, _ => None))
  }

  /** The board after writing v into column x of row y (set_cell). */
  function WithCell(g: Board, x: nat, y: nat, v: Cell): (h: Board)
    requires WellFormed(g) && OnBoard(x, y)
    ensures WellFormed(h)
    ensures h[y][x] == v
    ensures forall y', x' | OnBoard(x', y') && (x', y') != (x, y) :: h[y'][x'] == g[y'][x']
  {
    g[y := g[y][x := v]]
  }

  /** Column x of the board, top row first. */
  function Column(g: Board, x: nat): (c: seq<Cell>)
    requires WellFormed(g) && x < ColsCount
    ensures |c| == RowsCount && forall y | 0 <= y < RowsCount :: c[y] == g[y][x]
  {
    seq(RowsCount, y requires 0 <= y < RowsCount => g[y][x])
  }

  /** The number of empty cells in a sequence of cells. */
  function CountEmpty(s: seq<Cell>): (n: nat)
    ensures n <= |s|
  {
    if s == [] then 0
    else CountEmpty(s[..|s| - 1]) + (if s[|s| - 1].None? then 1 else 0)
  }

  /** Counting one more cell of a scan. */
  lemma CountEmptyExtend(s: seq<Cell>, lo: nat, k: nat)
    requires lo <= k < |s|
    ensures CountEmpty(s[lo..k + 1]) == CountEmpty(s[lo..k]) + (if s[k].None? then 1 else 0)
  {
    assert s[lo..k + 1][..k - lo] == s[lo..k];
  }

  /** CountEmpty is the multiplicity of None. */
  lemma {:induction false} CountEmptyIsMultiplicity(s: seq<Cell>)
    ensures CountEmpty(s) == multiset(s)[None]
  {
    if s != [] {
      CountEmptyIsMultiplicity(s[..|s| - 1]);
      assert s == s[..|s| - 1] + [s[|s| - 1]];
    }
  }

  /** The cells steps scans: the cell's column or its row. */
  function Axis(g: Board, x: nat, y: nat, d: GameMovementDirection): (a: seq<Cell>)
    requires WellFormed(g) && OnBoard(x, y)
    ensures |a| == if d.Up? || d.Down? then RowsCount else ColsCount
  {
    if d.Up? || d.Down? then Column(g, x) else g[y]
  }

  /** The index range of Axis that steps scans: Up 0..y, Down y..ROWS, Right x..COLS, Left 0..x. */
  function ScanRange(x: nat, y: nat, d: GameMovementDirection): (r: (nat, nat))
    requires OnBoard(x, y)
    ensures r.0 <= r.1 <= if d.Up? || d.Down? then RowsCount else ColsCount
    ensures var c := if d.Up? || d.Down? then y else x;
      var len := if d.Up? || d.Down? then RowsCount else ColsCount;
      (r.0 <= c < r.1 <==> d.Down? || d.Right?) &&
      (d.Up? || d.Left? ==> r.0 == 0 && r.1 == c) &&
      (d.Down? || d.Right? ==> r.0 == c && r.1 == len)
  {
    match d
    case Up => (0, y)
    case Down => (y, RowsCount)
    case Right => (x, ColsCount)
    case Left => (0, x)
  }

  /** What steps(x, y, d) returns: the number of empty cells in its scan range. */
  function StepsOf(g: Board, x: nat, y: nat, d: GameMovementDirection): (n: nat)
    requires WellFormed(g) && OnBoard(x, y)
    ensures d.Up? ==> n <= y
    ensures d.Left? ==> n <= x
    ensures d.Down? ==> n <= RowsCount - y
    ensures d.Right? ==> n <= ColsCount - x
  {
    var (lo, hi) := ScanRange(x, y, d);
    CountEmpty(Axis(g, x, y, d)[lo..hi])
  }

  /** Horizontal displacement of a tile that moves n steps (diff_x). */
  function DiffX(d: GameMovementDirection, n: nat): (dx: int)
    ensures dx > 0 ==> d.Right?
    ensures dx < 0 ==> d.Left?
    ensures d.Left? || d.Right? ==> (if dx < 0 then -dx else dx) == n
    ensures d.Up? || d.Down? ==> dx == 0
  {
    match d
    case Right => n
    case Left => -(n as int)
    case _ => 0
  }

  /** Vertical displacement of a tile that moves n steps (diff_y). */
  function DiffY(d: GameMovementDirection, n: nat): (dy: int)
    ensures dy > 0 ==> d.Down?
    ensures dy < 0 ==> d.Up?
    ensures d.Up? || d.Down? ==> (if dy < 0 then -dy else dy) == n
    ensures d.Left? || d.Right? ==> dy == 0
  {
    match d
    case Up => -(n as int)
    case Down => n
    case _ => 0
  }

  /**
   * The Down and Right ranges start at the cell itself, the Up and Left ranges
   * stop before it: an empty origin adds one to Down and Right only.
   */
  lemma StepsOrigin(g: Board, x: nat, y: nat)
    requires WellFormed(g) && OnBoard(x, y)
    ensures StepsOf(g, x, y, Down) == (if g[y][x].None? then 1 else 0) + CountEmpty(Column(g, x)[y + 1..])
    ensures StepsOf(g, x, y, Right) == (if g[y][x].None? then 1 else 0) + CountEmpty(g[y][x + 1..])
    ensures StepsOf(g, x, y, Up) == CountEmpty(Column(g, x)[..y])
    ensures StepsOf(g, x, y, Left) == CountEmpty(g[y][..x])
  {
    var c := Column(g, x);
    assert c[y..RowsCount] == c[y..] && c[0..y] == c[..y];
    assert g[y][x..ColsCount] == g[y][x..] && g[y][0..x] == g[y][..x];
    CountEmptyFirst(c[y..]);
    assert c[y..][1..] == c[y + 1..];
    CountEmptyFirst(g[y][x..]);
    assert g[y][x..][1..] == g[y][x + 1..];
  }

  /** CountEmpty read from the front. */
  lemma CountEmptyFirst(s: seq<Cell>)
    requires s != []
    ensures CountEmpty(s) == (if s[0].None? then 1 else 0) + CountEmpty(s[1..])
  {
    assert s == [s[0]] + s[1..];
    CountEmptyIsMultiplicity(s);
    CountEmptyIsMultiplicity(s[1..]);
  }

  /**
   * An occupied cell scans at most the cells between it and the edge, so its
   * destination (x + diff_x, y + diff_y) lies on the board: the u8 and i8
   * casts in move_board never wrap.
   */
  lemma DestinationOnBoard(g: Board, x: nat, y: nat, d: GameMovementDirection)
    requires WellFormed(g) && OnBoard(x, y) && g[y][x].Some?
    ensures OnBoard(x + DiffX(d, StepsOf(g, x, y, d)), y + DiffY(d, StepsOf(g, x, y, d)))
  {
    StepsOrigin(g, x, y);
  }

  /** A tile moves along the axis of the direction only. */
  lemma DestinationOnAxis(d: GameMovementDirection, n: nat)
    ensures d.Up? || d.Down? ==> DiffX(d, n) == 0 && (DiffY(d, n) == 0 <==> n == 0)
    ensures d.Left? || d.Right? ==> DiffY(d, n) == 0 && (DiffX(d, n) == 0 <==> n == 0)
  {
  }

  /**
   * steps counts every empty cell of its range, not only the run next to the
   * tile: a tile at the bottom of the column None, 2, None, 4 has two Up steps.
   */
  lemma StepsCountsEveryGap()
    ensures var g := WithCell(WithCell(EmptyBoard(), 0, 1, Some(B2)), 0, 3, Some(B4));
            StepsOf(g, 0, 3, Up) == 2
  {
    var g := WithCell(WithCell(EmptyBoard(), 0, 1, Some(B2)), 0, 3, Some(B4));
    var c := Column(g, 0)[..3];
    assert StepsOf(g, 0, 3, Up) == CountEmpty(c) by { assert Column(g, 0)[0..3] == c; }
    assert c == [None, Some(B2), None];
    CountEmptyIsMultiplicity(c);
    assert multiset(c) == multiset{None, None, Some(B2)};
  }

  /** All cells of the board, row by row. */
  function Flatten(g: Board): seq<Cell>
  {
    if g == [] then [] else Flatten(g[..|g| - 1]) + g[|g| - 1]
  }

  /** The multiset of cells of the board, tiles and empty cells alike. */
  function Tiles(g: Board): multiset<Cell>
  {
    multiset(Flatten(g))
  }

  lemma {:induction false} TilesOfRowUpdate(g: Board, y: nat, r: seq<Cell>)
    requires y < |g|
    ensures Tiles(g[y := r]) + multiset(g[y]) == Tiles(g) + multiset(r)
  {
    var n := |g| - 1;
    var h := g[y := r];
    assert Tiles(g) == Tiles(g[..n]) + multiset(g[n]);
    assert Tiles(h) == Tiles(h[..n]) + multiset(h[n]);
    if y == n {
      assert h[..n] == g[..n];
    } else {
      assert h[..n] == g[..n][y := r];
      TilesOfRowUpdate(g[..n], y, r);
      assert g[..n][y] == g[y] && h[n] == g[n];
      calc {
        Tiles(h) + multiset(g[y]);
        Tiles(g[..n][y := r]) + multiset(g[y]) + multiset(g[n]);
        Tiles(g[..n]) + multiset(r) + multiset(g[n]);
      }
    }
  }

  lemma MultisetOfUpdate(r: seq<Cell>, x: nat, v: Cell)
    requires x < |r|
    ensures multiset(r[x := v]) + multiset{r[x]} == multiset(r) + multiset{v}
  {
    assert r == r[..x] + [r[x]] + r[x + 1..];
    assert r[x := v] == r[..x] + [v] + r[x + 1..];
  }

  /** Writing v into a cell replaces that cell's content in the multiset. */
  lemma TilesOfWithCell(g: Board, x: nat, y: nat, v: Cell)
    requires WellFormed(g) && OnBoard(x, y)
    ensures Tiles(WithCell(g, x, y, v)) + multiset{g[y][x]} == Tiles(g) + multiset{v}
  {
    var r := g[y];
    var h := WithCell(g, x, y, v);
    assert h == g[y := r[x := v]];
    TilesOfRowUpdate(g, y, r[x := v]);
    MultisetOfUpdate(r, x, v);
    var a, b := Tiles(h) + multiset{r[x]}, Tiles(g) + multiset{v};
    var t1, t2, m1, m2 := Tiles(h), Tiles(g), multiset(r), multiset(r[x := v]);
    assert t1 + m1 == t2 + m2;
    assert m2 + multiset{r[x]} == m1 + multiset{v};
    forall c
      ensures a[c] == b[c]
    {
      assert (t1 + m1)[c] == (t2 + m2)[c];
      assert (m2 + multiset{r[x]})[c] == (m1 + multiset{v})[c];
    }
    assert a == b;
  }
}
