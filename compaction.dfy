/**
 * What move_board computes (src/game_board.rs:75-111), as a value: every
 * line along the direction is packed against the destination edge, tiles
 * keeping their order, with no merging. Also the intermediate boards that
 * move_board's loops pass through, and the facts its proof needs.
 */
module Compaction {
  import opened Wrappers
  import opened Block
  import opened Constants
  import opened Boards

  // ---------------------------------------------------------------------
  // Lines: the columns (Up, Down) or rows (Left, Right) of the board, read
  // from the edge the tiles move towards.
  // ---------------------------------------------------------------------

  predicate IsVertical(d: GameMovementDirection)
  {
    d.Up? || d.Down?
  }

  /** How many lines there are for direction d. */
  function LineCount(d: GameMovementDirection): nat
  {
    if IsVertical(d) then ColsCount else RowsCount
  }

  /** How many cells each line has for direction d. */
  function LineLength(d: GameMovementDirection): nat
  {
    if IsVertical(d) then RowsCount else ColsCount
  }

  /** The line a cell belongs to: its column for Up and Down, its row for Left and Right. */
  function LineIndex(d: GameMovementDirection, x: nat, y: nat): (l: nat)
    requires OnBoard(x, y)
    ensures l < LineCount(d)
  {
    if IsVertical(d) then x else y
  }

  /** The distance of a cell from the edge that direction d moves towards. */
  function LinePos(d: GameMovementDirection, x: nat, y: nat): (p: nat)
    requires OnBoard(x, y)
    ensures p < LineLength(d)
  {
    match d
    case Up => y
    case Down => RowsCount - 1 - y
    case Left => x
    case Right => ColsCount - 1 - x
  }

  /** The coordinates (x, y) of position p of line l. */
  function CellAt(d: GameMovementDirection, l: nat, p: nat): (c: (nat, nat))
    requires l < LineCount(d) && p < LineLength(d)
    ensures OnBoard(c.0, c.1)
    ensures LineIndex(d, c.0, c.1) == l && LinePos(d, c.0, c.1) == p
  {
    match d
    case Up => (l, p)
    case Down => (l, RowsCount - 1 - p)
    case Left => (p, l)
    case Right => (ColsCount - 1 - p, l)
  }

  /** Line coordinates identify the cell. */
  lemma CellAtInverse(d: GameMovementDirection, x: nat, y: nat)
    requires OnBoard(x, y)
    ensures CellAt(d, LineIndex(d, x, y), LinePos(d, x, y)) == (x, y)
  {
  }

  /** Line l of the board for direction d, destination edge first. */
  function Line(g: Board, d: GameMovementDirection, l: nat): (s: seq<Cell>)
    requires WellFormed(g) && l < LineCount(d)
    ensures |s| == LineLength(d)
    ensures forall p | 0 <= p < |s| :: s[p] == g[CellAt(d, l, p).1][CellAt(d, l, p).0]
  {
    seq(LineLength(d), p requires 0 <= p < LineLength(d) => g[CellAt(d, l, p).1][CellAt(d, l, p).0])
  }

  // ---------------------------------------------------------------------
  // Packing one line.
  // ---------------------------------------------------------------------

  /** The occupied cells of a sequence, in order. */
  function Filled(s: seq<Cell>): (r: seq<Cell>)
    ensures |r| + CountEmpty(s) == |s|
    ensures forall i | 0 <= i < |r| :: r[i].Some?
  {
    if s == [] then []
    else Filled(s[..|s| - 1]) + (if s[|s| - 1].Some? then [s[|s| - 1]] else [])
  }

  function Nones(n: nat): (r: seq<Cell>)
    ensures |r| == n && forall i | 0 <= i < n :: r[i].None?
  {
    seq(n, _ => None)
  }

  /** The occupied cells first, in order, then the empty ones. */
  function Pack(s: seq<Cell>): (r: seq<Cell>)
    ensures |r| == |s|
  {
    Filled(s) + Nones(|s| - |Filled(s)|)
  }

  /** No occupied cell comes after an empty one. */
  predicate Packed(s: seq<Cell>)
  {
    forall i, j | 0 <= i < j < |s| :: s[i].None? ==> s[j].None?
  }

  lemma {:induction false} FilledAppend(a: seq<Cell>, b: seq<Cell>)
    ensures Filled(a + b) == Filled(a) + Filled(b)
  {
    if b != [] {
      var b' := b[..|b| - 1];
      assert (a + b)[..|a + b| - 1] == a + b';
      FilledAppend(a, b');
    } else {
      assert a + b == a;
    }
  }

  lemma {:induction false} FilledOfOccupied(s: seq<Cell>)
    requires forall i | 0 <= i < |s| :: s[i].Some?
    ensures Filled(s) == s
  {
    if s != [] {
      FilledOfOccupied(s[..|s| - 1]);
    }
  }

  lemma {:induction false} FilledOfNones(n: nat)
    ensures Filled(Nones(n)) == []
  {
    if n > 0 {
      assert Nones(n)[..n - 1] == Nones(n - 1);
      FilledOfNones(n - 1);
    }
  }

  /** Packing keeps the tiles and their order. */
  lemma PackKeepsTiles(s: seq<Cell>)
    ensures Filled(Pack(s)) == Filled(s)
  {
    FilledAppend(Filled(s), Nones(|s| - |Filled(s)|));
    FilledOfOccupied(Filled(s));
    FilledOfNones(|s| - |Filled(s)|);
  }

  /** Packing packs. */
  lemma PackIsPacked(s: seq<Cell>)
    ensures Packed(Pack(s))
  {
  }

  /** A packed line is its tiles followed by empty cells. */
  lemma {:induction false} PackedShape(t: seq<Cell>)
    requires Packed(t)
    ensures t == Pack(t)
  {
    if t != [] {
      var t' := t[..|t| - 1];
      assert Packed(t');
      PackedShape(t');
      var z := t[|t| - 1];
      assert t == t' + [z];
      if z.Some? {
        assert forall i | 0 <= i < |t'| :: t'[i].Some?;
        FilledOfOccupied(t');
        assert Filled(t) == t;
      } else {
        assert Filled(t) == Filled(t');
        assert Nones(|t| - |Filled(t)|) == Nones(|t'| - |Filled(t')|) + [None];
      }
    }
  }

  /**
   * Pack(s) is the one packed sequence of the same length with the same
   * tiles in the same order.
   */
  lemma PackUnique(s: seq<Cell>, t: seq<Cell>)
    requires |t| == |s| && Packed(t) && Filled(t) == Filled(s)
    ensures t == Pack(s)
  {
    PackedShape(t);
  }

  /** Packing twice is packing once. */
  lemma PackIdempotent(s: seq<Cell>)
    ensures Pack(Pack(s)) == Pack(s)
  {
    PackIsPacked(s);
    PackedShape(Pack(s));
  }

  /** Packing a line with one more cell at the far end. */
  lemma PackSnoc(a: seq<Cell>, z: Cell)
    ensures z.Some? ==> Pack(a + [z]) == Filled(a) + [z] + Nones(|a| - |Filled(a)|)
    ensures z.None? ==> Pack(a + [z]) == Pack(a) + [None]
  {
    if z.Some? {
      PackSnocTile(a, z);
    } else {
      PackSnocGap(a, z);
    }
  }

  /** PackSnoc for a tile: it follows the tiles of a. */
  lemma PackSnocTile(a: seq<Cell>, z: Cell)
    requires z.Some?
    ensures Pack(a + [z]) == Filled(a) + [z] + Nones(|a| - |Filled(a)|)
  {
    var s := a + [z];
    assert s[..|s| - 1] == a && s[|s| - 1] == z;
    var f := Filled(s);
    assert f == Filled(a) + [z];
    var gaps := |a + [z]| - |f|;
    assert gaps == |a| - |Filled(a)|;
  }

  /** PackSnoc for a gap: it joins the gaps of a. */
  lemma PackSnocGap(a: seq<Cell>, z: Cell)
    requires z.None?
    ensures Pack(a + [z]) == Pack(a) + [None]
  {
    var s := a + [z];
    assert s[..|s| - 1] == a && s[|s| - 1] == z;
    var f := Filled(s);
    assert f == Filled(a);
    var gaps := |a| - |f|;
    assert gaps + 1 == |a + [z]| - |f|;
    assert Nones(gaps + 1) == Nones(gaps) + [None];
  }

  /** Packing permutes the cells. */
  lemma {:induction false} PackPermutes(s: seq<Cell>)
    ensures multiset(Pack(s)) == multiset(s)
    decreases |s|, 1
  {
    if s != [] {
      PackPermutesLast(s);
    }
  }

  /** The inductive step of PackPermutes: the last cell joins a permuted prefix. */
  lemma PackPermutesLast(s: seq<Cell>)
    requires s != []
    ensures multiset(Pack(s)) == multiset(s)
    decreases |s|, 0
  {
    var a := s[..|s| - 1];
    var z := s[|s| - 1];
    assert s == a + [z];
    PackPermutes(a);
    if z.Some? {
      PackPermutesTile(a, z);
    } else {
      PackPermutesGap(a, z);
    }
  }

  /** A tile after a permuted prefix: it joins the prefix's tiles. */
  lemma PackPermutesTile(a: seq<Cell>, z: Cell)
    requires z.Some? && multiset(Pack(a)) == multiset(a)
    ensures multiset(Pack(a + [z])) == multiset(a + [z])
  {
    PackSnoc(a, z);
    var f := Filled(a);
    var e := Nones(|a| - |f|);
    var p := Pack(a + [z]);
    assert p == (f + [z]) + e;
    assert multiset(p) == multiset(f + [z]) + multiset(e);
    assert multiset(f + [z]) == multiset(f) + multiset{z};
    assert Pack(a) == f + e;
    assert multiset(Pack(a)) == multiset(f) + multiset(e);
    assert multiset(a + [z]) == multiset(a) + multiset{z};
  }

  /** A gap after a permuted prefix: it joins the prefix's gaps. */
  lemma PackPermutesGap(a: seq<Cell>, z: Cell)
    requires z.None? && multiset(Pack(a)) == multiset(a)
    ensures multiset(Pack(a + [z])) == multiset(a + [z])
  {
    PackSnoc(a, z);
    assert multiset(Pack(a) + [None]) == multiset(Pack(a)) + multiset{None};
  }

  /** The first n cells packed, the rest as they were. */
  function PackPrefix(s: seq<Cell>, n: nat): (r: seq<Cell>)
    requires n <= |s|
    ensures |r| == |s|
  {
    Pack(s[..n]) + s[n..]
  }

  /** Before cell n is packed: the tiles of the prefix, its gaps, then cell n and the rest. */
  lemma PackPrefixShape(s: seq<Cell>, n: nat)
    requires n < |s|
    ensures s[..n + 1] == s[..n] + [s[n]]
    ensures PackPrefix(s, n) ==
      Filled(s[..n]) + Nones(n - |Filled(s[..n])|) + [s[n]] + s[n + 1..]
  {
    assert s[n..] == [s[n]] + s[n + 1..];
  }

  /** Packing an empty cell changes nothing. */
  lemma PackPrefixGap(s: seq<Cell>, n: nat)
    requires n < |s| && s[n].None?
    ensures PackPrefix(s, n + 1) == PackPrefix(s, n)
  {
    var a := s[..n];
    PackPrefixShape(s, n);
    assert s[..n + 1][..n] == a;
    assert Filled(s[..n + 1]) == Filled(a);
    assert Nones(n + 1 - |Filled(a)|) == Nones(n - |Filled(a)|) + [None];
  }

  /** Packing a tile moves it to the first empty cell, k cells from the edge. */
  lemma PackPrefixTile(s: seq<Cell>, n: nat)
    requires n < |s| && s[n].Some?
    ensures var k := |Filled(s[..n])|;
      k <= n && CountEmpty(PackPrefix(s, n)[..n]) == n - k &&
      (k == n ==> PackPrefix(s, n + 1) == PackPrefix(s, n)) &&
      (k < n ==> PackPrefix(s, n)[k].None? &&
                 PackPrefix(s, n + 1) == PackPrefix(s, n)[k := s[n]][n := None])
  {
    var a := s[..n];
    var k := |Filled(a)|;
    PackPrefixShape(s, n);
    var b := s[..n + 1];
    assert b[..|b| - 1] == a && b[|b| - 1] == s[n];
    assert Filled(b) == Filled(a) + [s[n]];
    var cur := PackPrefix(s, n);
    assert cur[..n] == Pack(a);
    PackKeepsTiles(a);
    assert |Filled(Pack(a))| + CountEmpty(Pack(a)) == n;
    if k < n {
      assert Nones(n - k) == [None] + Nones(n - k - 1);
    }
  }

  /**
   * Packing one more cell of a line: an empty cell changes nothing; a tile
   * moves into the first empty cell, which lies n - k cells closer to the
   * edge, where k is the number of tiles before it.
   */
  lemma PackPrefixStep(s: seq<Cell>, n: nat)
    requires n < |s|
    ensures PackPrefix(s, n)[n] == s[n]
    ensures s[n].None? ==> PackPrefix(s, n + 1) == PackPrefix(s, n)
    ensures s[n].Some? ==>
      var k := |Filled(s[..n])|;
      k <= n && CountEmpty(PackPrefix(s, n)[..n]) == n - k &&
      (k == n ==> PackPrefix(s, n + 1) == PackPrefix(s, n)) &&
      (k < n ==> PackPrefix(s, n)[k].None? &&
                 PackPrefix(s, n + 1) == PackPrefix(s, n)[k := s[n]][n := None])
  {
    PackPrefixShape(s, n);
    if s[n].None? {
      PackPrefixGap(s, n);
    } else {
      PackPrefixTile(s, n);
    }
  }

  /** PackPrefixStep for a tile with a gap before it: it moves into the first gap. */
  lemma PackPrefixMove(s: seq<Cell>, n: nat)
    requires n < |s| && s[n].Some? && |Filled(s[..n])| < n
    ensures var k := |Filled(s[..n])|;
      PackPrefix(s, n)[k].None? && PackPrefix(s, n + 1) == PackPrefix(s, n)[k := s[n]][n := None]
  {
    PackPrefixStep(s, n);
  }

  /** Gaps between tiles close up: the column None, 2, None, 4 packs to 2, 4, None, None. */
  lemma PackClosesGaps()
    ensures Pack([None, Some(B2), None, Some(B4)]) == [Some(B2), Some(B4), None, None]
  {
    var a1: seq<Cell> := [None];
    var a2 := a1 + [Some(B2)];
    var a3 := a2 + [None];
    var s := a3 + [Some(B4)];
    assert a1[..0] == [] && a2[..1] == a1 && a3[..2] == a2 && s[..3] == a3;
    assert Filled(a1) == [];
    assert Filled(a3) == Filled(a2) == [Some(B2)];
    assert Filled(s) == [Some(B2), Some(B4)];
    assert Nones(2) == [None, None];
    assert s == [None, Some(B2), None, Some(B4)];
  }

  /** Equal neighbours do not merge: 2, 2 stays two tiles of rank 2. */
  lemma EqualTilesStayApart()
    ensures Pack([None, Some(B2), Some(B2), None]) == [Some(B2), Some(B2), None, None]
  {
    var a1: seq<Cell> := [None];
    var a2 := a1 + [Some(B2)];
    var a3 := a2 + [Some(B2)];
    var s := a3 + [None];
    assert a1[..0] == [] && a2[..1] == a1 && a3[..2] == a2 && s[..3] == a3;
    assert Filled(a1) == [];
    assert Filled(a2) == [Some(B2)];
    assert Filled(s) == Filled(a3) == [Some(B2), Some(B2)];
    assert Nones(2) == [None, None];
    assert s == [None, Some(B2), Some(B2), None];
  }

  // ---------------------------------------------------------------------
  // The whole move.
  // ---------------------------------------------------------------------

  /** The board after moving in direction d: every line packed against the edge. */
  function Compacted(g: Board, d: GameMovementDirection): (h: Board)
    requires WellFormed(g)
    ensures WellFormed(h)
    ensures forall l | 0 <= l < LineCount(d) :: Line(h, d, l) == Pack(Line(g, d, l))
  {
    seq(RowsCount, y requires 0 <= y < RowsCount =>
      seq(ColsCount, x requires 0 <= x < ColsCount =>
        Pack(Line(g, d, LineIndex(d, x, y)))[LinePos(d, x, y)]))
  }

  /**
   * After a move every line has its tiles packed against the destination
   * edge, in their original order: tiles move along their own line only.
   */
  lemma CompactedLines(g: Board, d: GameMovementDirection, l: nat)
    requires WellFormed(g) && l < LineCount(d)
    ensures Packed(Line(Compacted(g, d), d, l))
    ensures Filled(Line(Compacted(g, d), d, l)) == Filled(Line(g, d, l))
  {
    assert Line(Compacted(g, d), d, l) == Pack(Line(g, d, l));
    PackIsPacked(Line(g, d, l));
    PackKeepsTiles(Line(g, d, l));
  }

  /** After a move every line is packed. */
  lemma CompactedPacked(g: Board, d: GameMovementDirection)
    requires WellFormed(g)
    ensures forall l | 0 <= l < LineCount(d) :: Packed(Line(Compacted(g, d), d, l))
  {
    forall l | 0 <= l < LineCount(d)
      ensures Packed(Line(Compacted(g, d), d, l))
    {
      CompactedLines(g, d, l);
    }
  }

  /** Moving twice in the same direction is moving once. */
  lemma CompactedIdempotent(g: Board, d: GameMovementDirection)
    requires WellFormed(g)
    ensures Compacted(Compacted(g, d), d) == Compacted(g, d)
  {
    var h := Compacted(g, d);
    forall y, x | OnBoard(x, y)
      ensures Compacted(h, d)[y][x] == h[y][x]
    {
      var l := LineIndex(d, x, y);
      assert Line(Compacted(g, d), d, l) == Pack(Line(g, d, l));
      PackIdempotent(Line(g, d, l));
    }
    BoardExtensionality(Compacted(h, d), h);
  }

  /** A move changes nothing exactly when every line is already packed. */
  lemma CompactedUnchanged(g: Board, d: GameMovementDirection)
    requires WellFormed(g)
    ensures Compacted(g, d) == g <==> forall l | 0 <= l < LineCount(d) :: Packed(Line(g, d, l))
  {
    if Compacted(g, d) == g {
      forall l | 0 <= l < LineCount(d)
        ensures Packed(Line(g, d, l))
      {
        CompactedLines(g, d, l);
      }
    }
    if forall l | 0 <= l < LineCount(d) :: Packed(Line(g, d, l)) {
      forall y, x | OnBoard(x, y)
        ensures Compacted(g, d)[y][x] == g[y][x]
      {
        PackedShape(Line(g, d, LineIndex(d, x, y)));
        CellAtInverse(d, x, y);
      }
      BoardExtensionality(Compacted(g, d), g);
    }
  }
}
