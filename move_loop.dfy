/**
 * The boards that move_board (src/game_board.rs:75-111) passes through.
 * It visits the cells with two nested loops over the same index vector,
 * y outer and x inner, starting at the destination edge. After each visit
 * every line has a packed prefix (the cells already visited) and an
 * untouched rest; this module defines those boards and proves that one
 * visit turns each into the next.
 */
module MoveLoop {
  import opened Wrappers
  import opened Constants
  import opened Boards
  import opened Compaction

  /**
   * The index vector of move_board: ascending for Up and Left, descending
   * for Down and Right. The source uses it for both x and y, which is right
   * only because the board is square (RowsCount == ColsCount).
   */
  function IterRange(d: GameMovementDirection): (r: seq<nat>)
    ensures |r| == RowsCount == ColsCount
    ensures forall k | 0 <= k < |r| :: r[k] == if d.Up? || d.Left? then k else |r| - 1 - k
  {
    match d
    case Up => seq(RowsCount, k => k)
    case Down => seq(RowsCount, k => RowsCount - 1 - k)
    case Right => seq(ColsCount, k => ColsCount - 1 - k)
    case Left => seq(ColsCount, k => k)
  }

  /** At which step of its loop line l is visited: the outer one for rows, the inner one for columns. */
  function VisitIndex(d: GameMovementDirection, l: nat): nat
    requires l < LineCount(d)
  {
    if d.Up? || d.Left? then l else LineCount(d) - 1 - l
  }

  /** The bounds on the loop counters: j outer steps done, then i inner steps. */
  predicate LoopBounds(j: nat, i: nat)
  {
    j <= RowsCount && i <= ColsCount && (j == RowsCount ==> i == 0)
  }

  /** How many cells of line l, from the edge, have been visited after j outer and i inner steps. */
  function Processed(d: GameMovementDirection, j: nat, i: nat, l: nat): (n: nat)
    requires LoopBounds(j, i) && l < LineCount(d)
    ensures n <= LineLength(d)
  {
    if IsVertical(d) then (if VisitIndex(d, l) < i then j + 1 else j)
    else if VisitIndex(d, l) < j then LineLength(d)
    else if VisitIndex(d, l) == j then i
    else 0
  }

  /** The board after j outer and i inner steps of move_board on board g. */
  function Partial(g: Board, d: GameMovementDirection, j: nat, i: nat): (h: Board)
    requires WellFormed(g) && LoopBounds(j, i)
    ensures WellFormed(h)
  {
    seq(RowsCount, y requires 0 <= y < RowsCount =>
      seq(ColsCount, x requires 0 <= x < ColsCount =>
        PackPrefix(Line(g, d, LineIndex(d, x, y)), Processed(d, j, i, LineIndex(d, x, y)))[LinePos(d, x, y)]))
  }

  lemma LineOfPartial(g: Board, d: GameMovementDirection, j: nat, i: nat, l: nat)
    requires WellFormed(g) && LoopBounds(j, i) && l < LineCount(d)
    ensures Line(Partial(g, d, j, i), d, l) == PackPrefix(Line(g, d, l), Processed(d, j, i, l))
  {
  }

  lemma LinesOfPartial(g: Board, d: GameMovementDirection, j: nat, i: nat)
    requires WellFormed(g) && LoopBounds(j, i)
    ensures forall l | 0 <= l < LineCount(d) ::
      Line(Partial(g, d, j, i), d, l) == PackPrefix(Line(g, d, l), Processed(d, j, i, l))
  {
    forall l | 0 <= l < LineCount(d)
      ensures Line(Partial(g, d, j, i), d, l) == PackPrefix(Line(g, d, l), Processed(d, j, i, l))
    {
      LineOfPartial(g, d, j, i, l);
    }
  }

  /** Before the loops the board is the original one. */
  lemma PartialStart(g: Board, d: GameMovementDirection)
    requires WellFormed(g)
    ensures Partial(g, d, 0, 0) == g
  {
    forall y, x | OnBoard(x, y)
      ensures Partial(g, d, 0, 0)[y][x] == g[y][x]
    {
      var s := Line(g, d, LineIndex(d, x, y));
      assert PackPrefix(s, 0) == s;
      CellAtInverse(d, x, y);
    }
    BoardExtensionality(Partial(g, d, 0, 0), g);
  }

  /** Finishing one outer step is starting the next. */
  lemma PartialNextOuter(g: Board, d: GameMovementDirection, j: nat)
    requires WellFormed(g) && j < RowsCount
    ensures Partial(g, d, j, ColsCount) == Partial(g, d, j + 1, 0)
  {
    forall y, x | OnBoard(x, y)
      ensures Partial(g, d, j, ColsCount)[y][x] == Partial(g, d, j + 1, 0)[y][x]
    {
      var l := LineIndex(d, x, y);
      assert Processed(d, j, ColsCount, l) == Processed(d, j + 1, 0, l);
    }
    BoardExtensionality(Partial(g, d, j, ColsCount), Partial(g, d, j + 1, 0));
  }

  /** After the loops the board is the moved board. */
  lemma PartialEnd(g: Board, d: GameMovementDirection)
    requires WellFormed(g)
    ensures Partial(g, d, RowsCount, 0) == Compacted(g, d)
  {
    forall y, x | OnBoard(x, y)
      ensures Partial(g, d, RowsCount, 0)[y][x] == Compacted(g, d)[y][x]
    {
      var s := Line(g, d, LineIndex(d, x, y));
      assert s[..|s|] == s && s[|s|..] == [];
      assert PackPrefix(s, |s|) == Pack(s);
    }
    BoardExtensionality(Partial(g, d, RowsCount, 0), Compacted(g, d));
  }

  lemma ReverseMultiset(a: seq<Cell>, b: seq<Cell>)
    requires |a| == |b| && forall i | 0 <= i < |a| :: a[i] == b[|b| - 1 - i]
    ensures multiset(a) == multiset(b)
  {
    if a != [] {
      var n := |a| - 1;
      ReverseMultiset(a[..n], b[1..]);
      assert a == a[..n] + [a[n]];
      assert b == [b[0]] + b[1..];
    }
  }

  /**
   * For an occupied cell, steps is the number of empty cells between it and
   * the edge along its line.
   */
  lemma StepsOnLine(g: Board, x: nat, y: nat, d: GameMovementDirection)
    requires WellFormed(g) && OnBoard(x, y) && g[y][x].Some?
    ensures StepsOf(g, x, y, d) == CountEmpty(Line(g, d, LineIndex(d, x, y))[..LinePos(d, x, y)])
  {
    if d.Up? || d.Left? {
      StepsOnLineTowardsOrigin(g, x, y, d);
    } else {
      StepsOnLineAwayFromOrigin(g, x, y, d);
    }
  }

  /** StepsOnLine for Up and Left, whose lines run the same way as the board's indices. */
  lemma StepsOnLineTowardsOrigin(g: Board, x: nat, y: nat, d: GameMovementDirection)
    requires WellFormed(g) && OnBoard(x, y) && g[y][x].Some? && (d.Up? || d.Left?)
    ensures StepsOf(g, x, y, d) == CountEmpty(Line(g, d, LineIndex(d, x, y))[..LinePos(d, x, y)])
  {
    StepsOrigin(g, x, y);
    var s := Line(g, d, LineIndex(d, x, y))[..LinePos(d, x, y)];
    if d.Up? {
      assert s == Column(g, x)[..y];
    } else {
      assert s == g[y][..x];
    }
  }

  /** StepsOnLine for Down and Right, whose lines run against the board's indices. */
  lemma StepsOnLineAwayFromOrigin(g: Board, x: nat, y: nat, d: GameMovementDirection)
    requires WellFormed(g) && OnBoard(x, y) && g[y][x].Some? && (d.Down? || d.Right?)
    ensures StepsOf(g, x, y, d) == CountEmpty(Line(g, d, LineIndex(d, x, y))[..LinePos(d, x, y)])
  {
    if d.Down? {
      StepsOnLineDown(g, x, y);
    } else {
      StepsOnLineRight(g, x, y);
    }
  }

  /** StepsOnLine for Down: the column below the tile, read bottom up. */
  lemma StepsOnLineDown(g: Board, x: nat, y: nat)
    requires WellFormed(g) && OnBoard(x, y) && g[y][x].Some?
    ensures StepsOf(g, x, y, Down) == CountEmpty(Line(g, Down, x)[..RowsCount - 1 - y])
  {
    StepsOrigin(g, x, y);
    var s := Line(g, Down, x)[..RowsCount - 1 - y];
    var c := Column(g, x)[y + 1..];
    forall i | 0 <= i < |s|
      ensures s[i] == c[|c| - 1 - i]
    {
      assert s[i] == g[RowsCount - 1 - i][x];
    }
    ReversedGaps(s, c);
  }

  /** StepsOnLine for Right: the row right of the tile, read right to left. */
  lemma StepsOnLineRight(g: Board, x: nat, y: nat)
    requires WellFormed(g) && OnBoard(x, y) && g[y][x].Some?
    ensures StepsOf(g, x, y, Right) == CountEmpty(Line(g, Right, y)[..ColsCount - 1 - x])
  {
    StepsOrigin(g, x, y);
    var s := Line(g, Right, y)[..ColsCount - 1 - x];
    var c := g[y][x + 1..];
    forall i | 0 <= i < |s|
      ensures s[i] == c[|c| - 1 - i]
    {
      assert s[i] == g[y][ColsCount - 1 - i];
    }
    ReversedGaps(s, c);
  }

  /** A sequence and its reverse hold as many empty cells. */
  lemma ReversedGaps(a: seq<Cell>, b: seq<Cell>)
    requires |a| == |b| && forall i | 0 <= i < |a| :: a[i] == b[|b| - 1 - i]
    ensures CountEmpty(a) == CountEmpty(b)
  {
    ReverseMultiset(a, b);
    CountEmptyIsMultiplicity(a);
    CountEmptyIsMultiplicity(b);
  }

  /** Boards with the same lines are the same board. */
  lemma LinesDetermineBoard(a: Board, b: Board, d: GameMovementDirection)
    requires WellFormed(a) && WellFormed(b)
    requires forall l | 0 <= l < LineCount(d) :: Line(a, d, l) == Line(b, d, l)
    ensures a == b
  {
    forall y, x | OnBoard(x, y)
      ensures a[y][x] == b[y][x]
    {
      CellAtInverse(d, x, y);
      var l, p := LineIndex(d, x, y), LinePos(d, x, y);
      assert Line(a, d, l)[p] == Line(b, d, l)[p];
    }
    BoardExtensionality(a, b);
  }

  /** Writing position p of line l changes that line at p and no other line. */
  lemma LineOfWithCell(g: Board, d: GameMovementDirection, l: nat, p: nat, v: Cell)
    requires WellFormed(g) && l < LineCount(d) && p < LineLength(d)
    ensures forall l' | 0 <= l' < LineCount(d) ::
      Line(WithCell(g, CellAt(d, l, p).0, CellAt(d, l, p).1, v), d, l') ==
        if l' == l then Line(g, d, l)[p := v] else Line(g, d, l')
  {
    var h := WithCell(g, CellAt(d, l, p).0, CellAt(d, l, p).1, v);
    forall l' | 0 <= l' < LineCount(d)
      ensures Line(h, d, l') == if l' == l then Line(g, d, l)[p := v] else Line(g, d, l')
    {
      forall q | 0 <= q < LineLength(d)
        ensures Line(h, d, l')[q] == (if l' == l then Line(g, d, l)[p := v] else Line(g, d, l'))[q]
      {
        var c := CellAt(d, l', q);
        assert c == CellAt(d, l, p) <==> l' == l && q == p;
      }
    }
  }

  /** Where the tile at (x, y) lands: (x + diff_x, y + diff_y). */
  function Destination(g: Board, x: nat, y: nat, d: GameMovementDirection): (c: (nat, nat))
    requires WellFormed(g) && OnBoard(x, y) && g[y][x].Some?
    ensures OnBoard(c.0, c.1)
  {
    DestinationOnBoard(g, x, y, d);
    var n := StepsOf(g, x, y, d);
    (x + DiffX(d, n), y + DiffY(d, n))
  }

  /**
   * One visit of move_board's loop body to cell (x, y): a tile with a
   * nonzero displacement is written at its destination and its cell cleared.
   */
  function Visit(g: Board, d: GameMovementDirection, x: nat, y: nat): (h: Board)
    requires WellFormed(g) && OnBoard(x, y)
    ensures WellFormed(h)
  {
    if g[y][x].None? then g
    else
      var (nx, ny) := Destination(g, x, y, d);
      if (nx, ny) == (x, y) then g else WithCell(WithCell(g, nx, ny, g[y][x]), x, y, None)
  }

  /**
   * What a visit changes: nothing for an empty cell; for a tile, its
   * destination receives it and its own cell, if different, is cleared;
   * every other cell keeps its content.
   */
  lemma VisitEffect(g: Board, d: GameMovementDirection, x: nat, y: nat)
    requires WellFormed(g) && OnBoard(x, y)
    ensures g[y][x].None? ==> Visit(g, d, x, y) == g
    ensures g[y][x].Some? ==> var (nx, ny) := Destination(g, x, y, d);
      var h := Visit(g, d, x, y);
      h[ny][nx] == g[y][x] && ((nx, ny) != (x, y) ==> h[y][x].None?) &&
      forall y', x' | OnBoard(x', y') && (x', y') != (x, y) && (x', y') != (nx, ny) :: h[y'][x'] == g[y'][x']
  {
  }

  /** A visit to a tile: it moves to its destination unless that is its own cell. */
  lemma VisitOfTile(g: Board, d: GameMovementDirection, x: nat, y: nat)
    requires WellFormed(g) && OnBoard(x, y) && g[y][x].Some?
    ensures var (nx, ny) := Destination(g, x, y, d);
      Visit(g, d, x, y) == if (nx, ny) == (x, y) then g else WithCell(WithCell(g, nx, ny, g[y][x]), x, y, None)
  {
  }

  /** The cell visited at step (j, i) is the first unvisited cell of its line. */
  lemma VisitedCell(d: GameMovementDirection, j: nat, i: nat)
    requires j < RowsCount && i < ColsCount
    ensures var x, y := IterRange(d)[i], IterRange(d)[j];
      OnBoard(x, y) && Processed(d, j, i, LineIndex(d, x, y)) == LinePos(d, x, y) &&
      forall l | 0 <= l < LineCount(d) ::
        Processed(d, j, i + 1, l) == if l == LineIndex(d, x, y) then Processed(d, j, i, l) + 1 else Processed(d, j, i, l)
  {
  }

  /** A tile's destination is on its own line, as many cells nearer the edge as there are gaps before it. */
  lemma DestinationOnLine(g: Board, x: nat, y: nat, d: GameMovementDirection)
    requires WellFormed(g) && OnBoard(x, y) && g[y][x].Some?
    ensures var l, p := LineIndex(d, x, y), LinePos(d, x, y);
      var gaps := CountEmpty(Line(g, d, l)[..p]);
      gaps <= p && Destination(g, x, y, d) == CellAt(d, l, p - gaps)
  {
    StepsOnLine(g, x, y, d);
    StepsBeforeTile(g, x, y, d);
    DestinationAt(g, x, y, d);
  }

  /** An occupied cell has at most as many gaps before it as it has cells before it. */
  lemma StepsBeforeTile(g: Board, x: nat, y: nat, d: GameMovementDirection)
    requires WellFormed(g) && OnBoard(x, y) && g[y][x].Some?
    ensures StepsOf(g, x, y, d) <= LinePos(d, x, y)
  {
    StepsOrigin(g, x, y);
  }

  /** The destination of a tile in line coordinates. */
  lemma DestinationAt(g: Board, x: nat, y: nat, d: GameMovementDirection)
    requires WellFormed(g) && OnBoard(x, y) && g[y][x].Some?
    requires StepsOf(g, x, y, d) <= LinePos(d, x, y)
    ensures Destination(g, x, y, d) == CellAt(d, LineIndex(d, x, y), LinePos(d, x, y) - StepsOf(g, x, y, d))
  {
    ShiftAlongLine(d, x, y, StepsOf(g, x, y, d));
  }

  /** Moving n cells towards the edge along a line is moving from position p to position p - n. */
  lemma ShiftAlongLine(d: GameMovementDirection, x: nat, y: nat, n: nat)
    requires OnBoard(x, y) && n <= LinePos(d, x, y)
    ensures (x + DiffX(d, n), y + DiffY(d, n)) == CellAt(d, LineIndex(d, x, y), LinePos(d, x, y) - n)
  {
  }

  /** Lines before and after visit (j, i): only the visited line changes, by one more packed cell. */
  lemma LinesOfStep(g: Board, d: GameMovementDirection, j: nat, i: nat)
    requires WellFormed(g) && j < RowsCount && i < ColsCount
    ensures var x, y := IterRange(d)[i], IterRange(d)[j];
      OnBoard(x, y) &&
      var l, p := LineIndex(d, x, y), LinePos(d, x, y);
      Line(Partial(g, d, j, i), d, l) == PackPrefix(Line(g, d, l), p) &&
      Line(Partial(g, d, j, i + 1), d, l) == PackPrefix(Line(g, d, l), p + 1) &&
      forall l' | 0 <= l' < LineCount(d) && l' != l ::
        Line(Partial(g, d, j, i + 1), d, l') == Line(Partial(g, d, j, i), d, l')
  {
    var next := i + 1;
    VisitedCell(d, j, i);
    LinesOfPartial(g, d, j, i);
    LinesOfPartial(g, d, j, next);
  }

  /** The board whose line l is that of cur with position k set to v and position p cleared. */
  lemma MovedBoard(cur: Board, next: Board, d: GameMovementDirection, l: nat, k: nat, p: nat, v: Cell)
    requires WellFormed(cur) && WellFormed(next) && l < LineCount(d) && k < p < LineLength(d)
    requires Line(next, d, l) == Line(cur, d, l)[k := v][p := None]
    requires forall l' | 0 <= l' < LineCount(d) && l' != l :: Line(next, d, l') == Line(cur, d, l')
    ensures next == WithCell(WithCell(cur, CellAt(d, l, k).0, CellAt(d, l, k).1, v), CellAt(d, l, p).0, CellAt(d, l, p).1, None)
  {
    var mid := WithCell(cur, CellAt(d, l, k).0, CellAt(d, l, k).1, v);
    LineOfWithCell(cur, d, l, k, v);
    LineOfWithCell(mid, d, l, p, None);
    LinesDetermineBoard(next, WithCell(mid, CellAt(d, l, p).0, CellAt(d, l, p).1, None), d);
  }

  /**
   * The visit of cell (x, y), whose line l is packed before position p and
   * becomes packed up to p + 1, while every other line stays: a tile with a
   * gap before it moves to the first gap.
   */
  lemma StepMoves(cur: Board, next: Board, d: GameMovementDirection, x: nat, y: nat, s: seq<Cell>)
    requires WellFormed(cur) && WellFormed(next) && OnBoard(x, y) && |s| == LineLength(d)
    requires var l, p := LineIndex(d, x, y), LinePos(d, x, y);
      s[p].Some? && |Filled(s[..p])| < p &&
      Line(cur, d, l) == PackPrefix(s, p) && Line(next, d, l) == PackPrefix(s, p + 1) &&
      forall l' | 0 <= l' < LineCount(d) && l' != l :: Line(next, d, l') == Line(cur, d, l')
    ensures cur[y][x].Some? && Destination(cur, x, y, d) != (x, y)
    ensures cur[Destination(cur, x, y, d).1][Destination(cur, x, y, d).0].None?
    ensures next == Visit(cur, d, x, y)
  {
    var l, p := LineIndex(d, x, y), LinePos(d, x, y);
    var k := |Filled(s[..p])|;
    PackPrefixMove(s, p);
    TileDestination(cur, d, x, y, s);
    var (nx, ny) := CellAt(d, l, k);
    assert LinePos(d, nx, ny) == k != p == LinePos(d, x, y);
    assert cur[ny][nx] == Line(cur, d, l)[k];
    MovedBoard(cur, next, d, l, k, p, s[p]);
    CellAtInverse(d, x, y);
    assert next == WithCell(WithCell(cur, nx, ny, cur[y][x]), x, y, None);
    VisitOfTile(cur, d, x, y);
  }

  /** A tile at position p of a line packed before p goes to the first gap of that line. */
  lemma TileDestination(cur: Board, d: GameMovementDirection, x: nat, y: nat, s: seq<Cell>)
    requires WellFormed(cur) && OnBoard(x, y) && |s| == LineLength(d)
    requires var l, p := LineIndex(d, x, y), LinePos(d, x, y);
      s[p].Some? && Line(cur, d, l) == PackPrefix(s, p)
    ensures var l, p := LineIndex(d, x, y), LinePos(d, x, y);
      cur[y][x] == s[p] && Destination(cur, x, y, d) == CellAt(d, l, |Filled(s[..p])|)
  {
    var l, p := LineIndex(d, x, y), LinePos(d, x, y);
    PackPrefixStep(s, p);
    CellAtInverse(d, x, y);
    assert cur[y][x] == Line(cur, d, l)[p] == s[p];
    DestinationOnLine(cur, x, y, d);
  }

  /** As StepMoves, for an empty cell or a tile with no gap before it: nothing changes. */
  lemma StepStays(cur: Board, next: Board, d: GameMovementDirection, x: nat, y: nat, s: seq<Cell>)
    requires WellFormed(cur) && WellFormed(next) && OnBoard(x, y) && |s| == LineLength(d)
    requires var l, p := LineIndex(d, x, y), LinePos(d, x, y);
      (s[p].None? || |Filled(s[..p])| == p) &&
      Line(cur, d, l) == PackPrefix(s, p) && Line(next, d, l) == PackPrefix(s, p + 1) &&
      forall l' | 0 <= l' < LineCount(d) && l' != l :: Line(next, d, l') == Line(cur, d, l')
    ensures cur[y][x].Some? ==> Destination(cur, x, y, d) == (x, y)
    ensures next == cur
  {
    var l, p := LineIndex(d, x, y), LinePos(d, x, y);
    PackPrefixStep(s, p);
    assert Line(next, d, l) == Line(cur, d, l);
    LinesDetermineBoard(next, cur, d);
    if cur[y][x].Some? {
      CellAtInverse(d, x, y);
      assert cur[y][x] == Line(cur, d, l)[p] == s[p];
      DestinationOnLine(cur, x, y, d);
    }
  }

  /**
   * One visit of move_board turns each loop board into the next, and the
   * destination of the visited tile, if it moves, is still empty.
   */
  lemma PartialStep(g: Board, d: GameMovementDirection, j: nat, i: nat)
    requires WellFormed(g) && j < RowsCount && i < ColsCount
    ensures var x, y := IterRange(d)[i], IterRange(d)[j];
      var cur := Partial(g, d, j, i);
      OnBoard(x, y) &&
      Partial(g, d, j, i + 1) == Visit(cur, d, x, y) &&
      (cur[y][x].Some? && Destination(cur, x, y, d) != (x, y) ==>
        cur[Destination(cur, x, y, d).1][Destination(cur, x, y, d).0].None?)
  {
    var x, y := IterRange(d)[i], IterRange(d)[j];
    LinesOfStep(g, d, j, i);
    var s, p := Line(g, d, LineIndex(d, x, y)), LinePos(d, x, y);
    if s[p].None? || |Filled(s[..p])| == p {
      StepStays(Partial(g, d, j, i), Partial(g, d, j, i + 1), d, x, y, s);
    } else {
      StepMoves(Partial(g, d, j, i), Partial(g, d, j, i + 1), d, x, y, s);
    }
  }

  /** A visit whose destination is empty keeps the multiset of cells. */
  lemma VisitKeepsTiles(g: Board, d: GameMovementDirection, x: nat, y: nat)
    requires WellFormed(g) && OnBoard(x, y)
    requires g[y][x].Some? && Destination(g, x, y, d) != (x, y) ==>
      g[Destination(g, x, y, d).1][Destination(g, x, y, d).0].None?
    ensures Tiles(Visit(g, d, x, y)) == Tiles(g)
  {
    if g[y][x].Some? {
      VisitOfTile(g, d, x, y);
      var (nx, ny) := Destination(g, x, y, d);
      if (nx, ny) != (x, y) {
        MoveKeepsTiles(g, x, y, nx, ny);
      }
    }
  }

  /** Moving a cell's content onto an empty cell and clearing it keeps the multiset of cells. */
  lemma MoveKeepsTiles(g: Board, x: nat, y: nat, nx: nat, ny: nat)
    requires WellFormed(g) && OnBoard(x, y) && OnBoard(nx, ny) && (nx, ny) != (x, y) && g[ny][nx].None?
    ensures Tiles(WithCell(WithCell(g, nx, ny, g[y][x]), x, y, None)) == Tiles(g)
  {
    var mid := WithCell(g, nx, ny, g[y][x]);
    TilesOfWithCell(g, nx, ny, g[y][x]);
    TilesOfWithCell(mid, x, y, None);
    var h := WithCell(mid, x, y, None);
    forall c
      ensures Tiles(h)[c] == Tiles(g)[c]
    {
      assert (Tiles(mid) + multiset{None})[c] == (Tiles(g) + multiset{g[y][x]})[c];
      assert (Tiles(h) + multiset{mid[y][x]})[c] == (Tiles(mid) + multiset{None})[c];
    }
  }

  /** One visit keeps the multiset of cells. */
  lemma PartialStepTiles(g: Board, d: GameMovementDirection, j: nat, i: nat)
    requires WellFormed(g) && j < RowsCount && i < ColsCount
    ensures Tiles(Partial(g, d, j, i + 1)) == Tiles(Partial(g, d, j, i))
  {
    PartialStep(g, d, j, i);
    VisitKeepsTiles(Partial(g, d, j, i), d, IterRange(d)[i], IterRange(d)[j]);
  }

  /*
   * The chain below counts upwards (k to k + 1, never i - 1 to i) and names
   * each next counter before passing it on: the solver then sees the same
   * loop board terms in the callee and in the caller.
   */

  /** A visit that follows a board holding the original cells holds them too. */
  lemma StepKeepsOriginalTiles(g: Board, d: GameMovementDirection, j: nat, k: nat)
    requires WellFormed(g) && j < RowsCount && k < ColsCount
    requires Tiles(Partial(g, d, j, k)) == Tiles(g)
    ensures Tiles(Partial(g, d, j, k + 1)) == Tiles(g)
  {
    PartialStepTiles(g, d, j, k);
  }

  /** Passing from one line of the outer loop to the next changes no cell. */
  lemma OuterKeepsOriginalTiles(g: Board, d: GameMovementDirection, j: nat)
    requires WellFormed(g) && j < RowsCount
    requires Tiles(Partial(g, d, j, ColsCount)) == Tiles(g)
    ensures Tiles(Partial(g, d, j + 1, 0)) == Tiles(g)
  {
    PartialNextOuter(g, d, j);
  }

  /** The rest of an outer step keeps the original cells once a loop board holds them. */
  lemma {:induction false} InnerTiles(g: Board, d: GameMovementDirection, j: nat, k: nat)
    requires WellFormed(g) && j < RowsCount && k <= ColsCount
    requires Tiles(Partial(g, d, j, k)) == Tiles(g)
    ensures Tiles(Partial(g, d, j, ColsCount)) == Tiles(g)
    decreases ColsCount - k, 1
  {
    if k != ColsCount {
      InnerTilesAfterVisit(g, d, j, k);
    }
  }

  /** The inductive step of InnerTiles: one visit, then the rest of the outer step. */
  lemma InnerTilesAfterVisit(g: Board, d: GameMovementDirection, j: nat, k: nat)
    requires WellFormed(g) && j < RowsCount && k < ColsCount
    requires Tiles(Partial(g, d, j, k)) == Tiles(g)
    ensures Tiles(Partial(g, d, j, ColsCount)) == Tiles(g)
    decreases ColsCount - k, 0
  {
    var next := k + 1;
    StepKeepsOriginalTiles(g, d, j, k);
    InnerTiles(g, d, j, next);
  }

  /** The remaining outer steps keep the original cells once a loop board holds them. */
  lemma {:induction false} OuterTiles(g: Board, d: GameMovementDirection, j: nat)
    requires WellFormed(g) && j <= RowsCount
    requires Tiles(Partial(g, d, j, 0)) == Tiles(g)
    ensures Tiles(Partial(g, d, RowsCount, 0)) == Tiles(g)
    decreases RowsCount - j, 1
  {
    if j != RowsCount {
      OuterTilesAfterLine(g, d, j);
    }
  }

  /** The inductive step of OuterTiles: one whole outer step, then the remaining ones. */
  lemma OuterTilesAfterLine(g: Board, d: GameMovementDirection, j: nat)
    requires WellFormed(g) && j < RowsCount
    requires Tiles(Partial(g, d, j, 0)) == Tiles(g)
    ensures Tiles(Partial(g, d, RowsCount, 0)) == Tiles(g)
    decreases RowsCount - j, 0
  {
    var next := j + 1;
    InnerTiles(g, d, j, 0);
    OuterKeepsOriginalTiles(g, d, j);
    OuterTiles(g, d, next);
  }

  /**
   * A move loses no tile and creates none: the multiset of cells, and so the
   * number of tiles of each rank, is the same before and after.
   */
  lemma CompactedKeepsTiles(g: Board, d: GameMovementDirection)
    requires WellFormed(g)
    ensures Tiles(Compacted(g, d)) == Tiles(g)
  {
    PartialStart(g, d);
    OuterTiles(g, d, 0);
    PartialEnd(g, d);
  }

  /**
   * The board move_board holds after j whole passes of its outer loop and
   * i visits of the next one, built visit by visit as the loops build it.
   */
  ghost function LoopBoard(g: Board, d: GameMovementDirection, j: nat, i: nat): (h: Board)
    requires WellFormed(g) && LoopBounds(j, i)
    ensures WellFormed(h)
    decreases j, i
  {
    if i != 0 then Visit(LoopBoard(g, d, j, i - 1), d, IterRange(d)[i - 1], IterRange(d)[j])
    else if j != 0 then LoopBoard(g, d, j - 1, ColsCount)
    else g
  }

  /** One more visit of the inner loop. */
  lemma LoopBoardNext(g: Board, d: GameMovementDirection, j: nat, i: nat)
    requires WellFormed(g) && j < RowsCount && i < ColsCount
    ensures LoopBoard(g, d, j, i + 1) == Visit(LoopBoard(g, d, j, i), d, IterRange(d)[i], IterRange(d)[j])
  {
  }

  /** Starting the next pass of the outer loop changes no cell. */
  lemma LoopBoardNextOuter(g: Board, d: GameMovementDirection, j: nat)
    requires WellFormed(g) && j < RowsCount
    ensures LoopBoard(g, d, j + 1, 0) == LoopBoard(g, d, j, ColsCount)
  {
  }

  /** The visits of the rest of a pass agree with the closed form once a loop board does. */
  lemma {:induction false} InnerAgrees(g: Board, d: GameMovementDirection, j: nat, k: nat)
    requires WellFormed(g) && j < RowsCount && k <= ColsCount
    requires LoopBoard(g, d, j, k) == Partial(g, d, j, k)
    ensures LoopBoard(g, d, j, ColsCount) == Partial(g, d, j, ColsCount)
    decreases ColsCount - k, 1
  {
    if k != ColsCount {
      InnerAgreesAfterVisit(g, d, j, k);
    }
  }

  /** The inductive step of InnerAgrees. */
  lemma InnerAgreesAfterVisit(g: Board, d: GameMovementDirection, j: nat, k: nat)
    requires WellFormed(g) && j < RowsCount && k < ColsCount
    requires LoopBoard(g, d, j, k) == Partial(g, d, j, k)
    ensures LoopBoard(g, d, j, ColsCount) == Partial(g, d, j, ColsCount)
    decreases ColsCount - k, 0
  {
    var next := k + 1;
    LoopBoardNext(g, d, j, k);
    PartialStep(g, d, j, k);
    InnerAgrees(g, d, j, next);
  }

  /** The remaining passes agree with the closed form once a loop board does. */
  lemma {:induction false} OuterAgrees(g: Board, d: GameMovementDirection, j: nat)
    requires WellFormed(g) && j <= RowsCount
    requires LoopBoard(g, d, j, 0) == Partial(g, d, j, 0)
    ensures LoopBoard(g, d, RowsCount, 0) == Partial(g, d, RowsCount, 0)
    decreases RowsCount - j, 1
  {
    if j != RowsCount {
      OuterAgreesAfterPass(g, d, j);
    }
  }

  /** The inductive step of OuterAgrees. */
  lemma OuterAgreesAfterPass(g: Board, d: GameMovementDirection, j: nat)
    requires WellFormed(g) && j < RowsCount
    requires LoopBoard(g, d, j, 0) == Partial(g, d, j, 0)
    ensures LoopBoard(g, d, RowsCount, 0) == Partial(g, d, RowsCount, 0)
    decreases RowsCount - j, 0
  {
    var next := j + 1;
    InnerAgrees(g, d, j, 0);
    LoopBoardNextOuter(g, d, j);
    PartialNextOuter(g, d, j);
    OuterAgrees(g, d, next);
  }

  /**
   * Running both loops to the end, visit by visit, yields Compacted(g, d):
   * every line is packed, and no tile is lost or created.
   */
  lemma LoopBoardEnd(g: Board, d: GameMovementDirection)
    requires WellFormed(g)
    ensures LoopBoard(g, d, RowsCount, 0) == Compacted(g, d)
    ensures Tiles(LoopBoard(g, d, RowsCount, 0)) == Tiles(g)
    ensures forall l | 0 <= l < LineCount(d) :: Packed(Line(LoopBoard(g, d, RowsCount, 0), d, l))
  {
    PartialStart(g, d);
    OuterAgrees(g, d, 0);
    PartialEnd(g, d);
    CompactedKeepsTiles(g, d);
    CompactedPacked(g, d);
  }
}
