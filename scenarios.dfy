/**
 * A worked example of move_board (src/game_board.rs:75-111) on a concrete
 * board: moving Down drops a tile to the bottom row, and moving Left then
 * leaves two equal neighbours side by side, because the code does not merge.
 */
module Scenarios {
  import opened Wrappers
  import opened Block
  import opened Constants
  import opened Boards
  import opened Compaction
  import opened MoveLoop

  /** A 2 at (0, 0), a 2 at (1, 3) and a 4 at (2, 3). */
  function Before(): (g: Board)
    ensures WellFormed(g)
  {
    WithCell(WithCell(WithCell(EmptyBoard(), 0, 0, Some(B2)), 2, 3, Some(B4)), 1, 3, Some(B2))
  }

  /** The same tiles with the first 2 moved to (0, 3). */
  function After(): (g: Board)
    ensures WellFormed(g)
  {
    WithCell(WithCell(WithCell(EmptyBoard(), 0, 3, Some(B2)), 2, 3, Some(B4)), 1, 3, Some(B2))
  }

  /** A lone tile anywhere on a line travels to its start. */
  lemma PackLoneTile(b: BlockSize, p: nat, q: nat)
    ensures Pack(Nones(p) + [Some(b)] + Nones(q)) == [Some(b)] + Nones(p + q)
  {
    LoneTileFilled(b, p, q);
    LoneTileAtStart(b, p + q);
    PackUnique(Nones(p) + [Some(b)] + Nones(q), [Some(b)] + Nones(p + q));
  }

  /** The only tile of a line with one tile. */
  lemma LoneTileFilled(b: BlockSize, p: nat, q: nat)
    ensures Filled(Nones(p) + [Some(b)] + Nones(q)) == [Some(b)]
  {
    FilledAppend(Nones(p) + [Some(b)], Nones(q));
    FilledAppend(Nones(p), [Some(b)]);
    FilledOfNones(p);
    FilledOfNones(q);
    FilledOfOccupied([Some(b)]);
  }

  /** A lone tile at the start of a line is packed. */
  lemma LoneTileAtStart(b: BlockSize, m: nat)
    ensures Packed([Some(b)] + Nones(m)) && Filled([Some(b)] + Nones(m)) == [Some(b)]
  {
    FilledAppend([Some(b)], Nones(m));
    FilledOfNones(m);
    FilledOfOccupied([Some(b)]);
  }

  /** An empty sequence of cells has as many gaps as cells. */
  lemma {:induction false} CountEmptyOfGaps(s: seq<Cell>)
    requires forall i | 0 <= i < |s| :: s[i].None?
    ensures CountEmpty(s) == |s|
  {
    if s != [] {
      CountEmptyOfGaps(s[..|s| - 1]);
    }
  }

  /**
   * A lone tile on the board: steps is its distance from the edge that d
   * points to, and it lands on that edge, on its own line.
   */
  lemma LoneTileSteps(b: BlockSize, x: nat, y: nat, d: GameMovementDirection)
    requires OnBoard(x, y)
    ensures var g := WithCell(EmptyBoard(), x, y, Some(b));
      StepsOf(g, x, y, d) == LinePos(d, x, y) &&
      Destination(g, x, y, d) == CellAt(d, LineIndex(d, x, y), 0)
  {
    var g := WithCell(EmptyBoard(), x, y, Some(b));
    var l, p := LineIndex(d, x, y), LinePos(d, x, y);
    var before := Line(g, d, l)[..p];
    forall i | 0 <= i < |before|
      ensures before[i].None?
    {
      var c := CellAt(d, l, i);
      assert LinePos(d, c.0, c.1) == i != p;
      assert before[i] == g[c.1][c.0];
    }
    CountEmptyOfGaps(before);
    StepsOnLine(g, x, y, d);
    DestinationOnLine(g, x, y, d);
  }

  /** Column 0 read from the bottom holds one tile at its far end; it lands at the bottom. */
  lemma MoveDownFirstColumn()
    ensures Pack(Line(Before(), Down, 0)) == Line(After(), Down, 0)
  {
    assert Line(Before(), Down, 0) == [None, None, None, Some(B2)];
    assert Line(After(), Down, 0) == [Some(B2), None, None, None];
    PackLoneTile(B2, 3, 0);
    assert Nones(3) == [None, None, None] && Nones(0) == [];
    assert Nones(3) + [Some(B2)] + Nones(0) == [None, None, None, Some(B2)];
    assert [Some(B2)] + Nones(3 + 0) == [Some(B2), None, None, None];
  }

  /** The other columns are already packed against the bottom and are the same in both boards. */
  lemma MoveDownOtherColumns(l: nat)
    requires 0 < l < LineCount(Down)
    ensures Pack(Line(Before(), Down, l)) == Line(After(), Down, l)
  {
    var s := Line(Before(), Down, l);
    assert s == Line(After(), Down, l);
    assert Packed(s);
    PackedShape(s);
  }

  /** Moving Down: only the tile at (0, 0) moves, to (0, 3). */
  lemma MoveDown()
    ensures Compacted(Before(), Down) == After()
  {
    var g, h := Before(), After();
    forall l | 0 <= l < LineCount(Down)
      ensures Line(Compacted(g, Down), Down, l) == Line(h, Down, l)
    {
      assert Line(Compacted(g, Down), Down, l) == Pack(Line(g, Down, l));
      if l == 0 {
        MoveDownFirstColumn();
      } else {
        MoveDownOtherColumns(l);
      }
    }
    LinesDetermineBoard(Compacted(g, Down), h, Down);
  }

  /** Moving Left afterwards changes nothing: the two equal tiles stay two tiles. */
  lemma MoveLeftDoesNotMerge()
    ensures Compacted(After(), Left) == After()
    ensures After()[3] == [Some(B2), Some(B2), Some(B4), None]
  {
    var h := After();
    forall l | 0 <= l < LineCount(Left)
      ensures Packed(Line(h, Left, l))
    {
    }
    CompactedUnchanged(h, Left);
  }
}
