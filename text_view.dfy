/**
 * The text form of a board (pretty_string, src/game_board.rs:25-45): a
 * newline, then one line per row, "|" followed by " <label> |" for each
 * tile and " - |" for each empty cell. The text determines the board.
 */
module TextView {
  import opened Wrappers
  import opened Block
  import opened Constants
  import opened Boards

  /** What a cell shows between its spaces: the tile's label, or "-" when empty. */
  function CellToken(c: Cell): (t: string)
    ensures 1 <= |t| <= 4 && ' ' !in t && '\n' !in t
  {
    match c
    case Some(b) => Label(b)
    case None => "-"
  }

  /** The text of one cell with the bar that closes it. */
  function CellText(c: Cell): string
  {
    " " + CellToken(c) + " |"
  }

  /** The texts of a row's cells, left to right. */
  function CellsText(r: seq<Cell>): string
  {
    if r == [] then "" else CellsText(r[..|r| - 1]) + CellText(r[|r| - 1])
  }

  /** The line of one row: the opening bar, its cells, the newline. */
  function RowText(r: seq<Cell>): string
  {
    "|" + CellsText(r) + "\n"
  }

  /** The leading newline, then the lines of the rows, top to bottom. */
  function RowsText(rows: seq<seq<Cell>>): string
  {
    if rows == [] then "\n" else RowsText(rows[..|rows| - 1]) + RowText(rows[|rows| - 1])
  }

  /** What pretty_string returns for board g. */
  function Pretty(g: Board): string
  {
    RowsText(g)
  }

  /** The text of a row of four empty cells. */
  lemma EmptyRowText()
    ensures CellsText([None, None, None, None]) == " - | - | - | - |"
  {
    var r1: seq<Cell> := [None];
    var r2 := r1 + [None];
    var r3 := r2 + [None];
    var r4 := r3 + [None];
    assert r1[..0] == [] && r2[..1] == r1 && r3[..2] == r2 && r4[..3] == r3;
    assert CellText(None) == " - |";
    assert CellsText(r1) == " - |";
    assert CellsText(r2) == " - | - |";
    assert CellsText(r3) == " - | - | - |";
    assert CellsText(r4) == " - | - | - | - |";
    assert r4 == [None, None, None, None];
  }

  /** The text of four copies of one row. */
  lemma FourRowsText(r: seq<Cell>)
    ensures RowsText([r, r, r, r]) == "\n" + RowText(r) + RowText(r) + RowText(r) + RowText(r)
  {
    var g1 := [r];
    var g2 := g1 + [r];
    var g3 := g2 + [r];
    var g4 := g3 + [r];
    assert g1[..0] == [] && g2[..1] == g1 && g3[..2] == g2 && g4[..3] == g3;
    assert RowsText(g1) == "\n" + RowText(r);
    assert RowsText(g2) == "\n" + RowText(r) + RowText(r);
    assert RowsText(g3) == "\n" + RowText(r) + RowText(r) + RowText(r);
    assert g4 == [r, r, r, r];
  }

  /** The empty board is four rows of four empty cells. */
  lemma EmptyBoardRows()
    ensures EmptyBoard() == [[None, None, None, None], [None, None, None, None], [None, None, None, None], [None, None, None, None]]
  {
    var r: seq<Cell> := [None, None, None, None];
    BoardExtensionality(EmptyBoard(), [r, r, r, r]);
  }

  /** The text of the empty board: four lines of four dashes. */
  lemma PrettyEmptyBoard()
    ensures var line := "| - | - | - | - |\n";
      Pretty(EmptyBoard()) == "\n" + line + line + line + line
  {
    var r: seq<Cell> := [None, None, None, None];
    EmptyBoardRows();
    FourRowsText(r);
    EmptyRowLine();
  }

  /** The line of a row of four empty cells. */
  lemma EmptyRowLine()
    ensures RowText([None, None, None, None]) == "| - | - | - | - |\n"
  {
    EmptyRowText();
  }

  /** Different cells show different tokens. */
  lemma CellTokenInjective(a: Cell, b: Cell)
    requires CellToken(a) == CellToken(b)
    ensures a == b
  {
    if a.Some? && b.Some? {
      LabelInjective(a.value, b.value);
    }
  }

  lemma AppendAssociative(a: string, b: string, c: string)
    ensures (a + b) + c == a + (b + c)
  {
  }

  /**
   * Splitting a text at the last separator before a fixed ending: when
   * neither token holds the separator, both splittings are the same.
   */
  lemma SplitAtLastSeparator(p1: string, t1: string, p2: string, t2: string, sep: char, e: string)
    requires p1 + ([sep] + (t1 + e)) == p2 + ([sep] + (t2 + e))
    requires sep !in t1 && sep !in t2
    ensures p1 == p2 && t1 == t2
  {
    var s := p1 + ([sep] + (t1 + e));
    var n := |s| - |e|;
    assert s[|p1|] == sep && s[|p2|] == sep;
    assert forall i | |p1| < i < n :: s[i] == t1[i - |p1| - 1];
    assert forall i | |p2| < i < n :: s[i] == t2[i - |p2| - 1];
    assert |p1| == |p2|;
    assert t1 == s[n - |t1|..n] == t2;
    assert p1 == s[..n - |t1| - 1] == p2;
  }

  /** Sequences with the same front and the same last element are equal. */
  lemma SameFrontAndLast<T>(a: seq<T>, b: seq<T>)
    requires a != [] && |a| == |b| && a[..|a| - 1] == b[..|b| - 1] && a[|a| - 1] == b[|b| - 1]
    ensures a == b
  {
    assert a == a[..|a| - 1] + [a[|a| - 1]];
    assert b == b[..|b| - 1] + [b[|b| - 1]];
  }

  /** The cells of a row never show a newline. */
  lemma {:induction false} CellsTextOnOneLine(r: seq<Cell>)
    ensures '\n' !in CellsText(r)
  {
    if r != [] {
      CellsTextOnOneLine(r[..|r| - 1]);
    }
  }

  /** Each cell's text closes with exactly one bar. */
  lemma {:induction false} CellsTextBars(r: seq<Cell>)
    ensures multiset(CellsText(r))['|'] == |r|
  {
    if r != [] {
      CellsTextBars(r[..|r| - 1]);
      var t := CellToken(r[|r| - 1]);
      assert CellText(r[|r| - 1]) == " " + t + " |";
      assert multiset(t)['|'] == 0;
    }
  }

  /** One more line appended to a text: what it adds at the ends and in newlines and bars. */
  lemma AppendLine(f: string, c: string, t: string)
    requires f != [] && t == f + ("|" + c + "\n")
    ensures t[0] == f[0] && t[|t| - 1] == '\n'
    ensures multiset(t)['\n'] == multiset(f)['\n'] + multiset(c)['\n'] + 1
  {
    assert multiset(t) == multiset(f) + multiset("|") + multiset(c) + multiset("\n");
  }

  /** One more line appended to a text adds its cells' bars and the opening bar. */
  lemma AppendLineBars(f: string, c: string, t: string)
    requires t == f + ("|" + c + "\n")
    ensures multiset(t)['|'] == multiset(f)['|'] + multiset(c)['|'] + 1
  {
    assert multiset(t) == multiset(f) + multiset("|") + multiset(c) + multiset("\n");
  }

  /** The text of the rows is the text of all but the last, then the last row's line. */
  lemma RowsTextSnoc(rows: seq<seq<Cell>>)
    requires rows != []
    ensures RowsText(rows) == RowsText(rows[..|rows| - 1]) + ("|" + CellsText(rows[|rows| - 1]) + "\n")
  {
  }

  /** The text of some rows starts and ends with a newline and holds one per row besides the first. */
  lemma {:induction false} RowsTextNewlines(rows: seq<seq<Cell>>)
    ensures var t := RowsText(rows);
      t != [] && t[0] == '\n' && t[|t| - 1] == '\n' && multiset(t)['\n'] == |rows| + 1
  {
    if rows != [] {
      var last := rows[|rows| - 1];
      RowsTextNewlines(rows[..|rows| - 1]);
      CellsTextOnOneLine(last);
      assert multiset(CellsText(last))['\n'] == 0;
      RowsTextSnoc(rows);
      AppendLine(RowsText(rows[..|rows| - 1]), CellsText(last), RowsText(rows));
    }
  }

  /** The text of rows of n cells each holds n + 1 bars per row. */
  lemma {:induction false} RowsTextBars(rows: seq<seq<Cell>>, n: nat)
    requires forall r | r in rows :: |r| == n
    ensures multiset(RowsText(rows))['|'] == |rows| * (n + 1)
  {
    if rows != [] {
      var front := rows[..|rows| - 1];
      var last := rows[|rows| - 1];
      assert forall r | r in front :: r in rows;
      RowsTextBars(front, n);
      CellsTextBars(last);
      RowsTextSnoc(rows);
      AppendLineBars(RowsText(front), CellsText(last), RowsText(rows));
      MoreRowsMoreBars(|front|, n + 1);
    }
  }

  /** One more row of m bars. */
  lemma MoreRowsMoreBars(k: nat, m: nat)
    ensures (k + 1) * m == k * m + m
  {
  }

  /** pretty_string of a 4 x 4 board: five newlines and five bars on each of its four lines. */
  lemma PrettyShape(g: Board)
    requires WellFormed(g)
    ensures var t := Pretty(g);
      t != [] && t[0] == '\n' && t[|t| - 1] == '\n' &&
      multiset(t)['\n'] == RowsCount + 1 && multiset(t)['|'] == RowsCount * (ColsCount + 1)
  {
    RowsTextNewlines(g);
    assert forall r | r in g :: |r| == ColsCount;
    RowsTextBars(g, ColsCount);
  }

  /** The text of some cells: the text of all but the last, then the last cell's. */
  lemma CellsTextLast(r: seq<Cell>)
    requires r != []
    ensures CellsText(r) == CellsText(r[..|r| - 1]) + ([' '] + (CellToken(r[|r| - 1]) + " |"))
  {
    assert CellsText(r) == CellsText(r[..|r| - 1]) + CellText(r[|r| - 1]);
    AppendAssociative([' '], CellToken(r[|r| - 1]), " |");
  }

  /** Rows of the same length with the same cell texts are the same row. */
  lemma {:induction false} CellsTextInjective(a: seq<Cell>, b: seq<Cell>)
    requires |a| == |b| && CellsText(a) == CellsText(b)
    ensures a == b
    decreases |a|, 1
  {
    if a != [] {
      CellsTextInjectiveLast(a, b);
    }
  }

  /** The inductive step of CellsTextInjective: the last cells agree, then the rest. */
  lemma CellsTextInjectiveLast(a: seq<Cell>, b: seq<Cell>)
    requires a != [] && |a| == |b| && CellsText(a) == CellsText(b)
    ensures a == b
    decreases |a|, 0
  {
    var a', b' := a[..|a| - 1], b[..|b| - 1];
    var x, y := a[|a| - 1], b[|b| - 1];
    CellsTextLast(a);
    CellsTextLast(b);
    SplitAtLastSeparator(CellsText(a'), CellToken(x), CellsText(b'), CellToken(y), ' ', " |");
    CellTokenInjective(x, y);
    CellsTextInjective(a', b');
    SameFrontAndLast(a, b);
  }

  /** The text of any rows ends with a newline. */
  lemma RowsTextEndsLine(rows: seq<seq<Cell>>)
    ensures |RowsText(rows)| > 0 && RowsText(rows)[|RowsText(rows)| - 1] == '\n'
  {
  }

  /** The text of some rows: the text of all but the last, then the last row's line. */
  lemma RowsTextLast(rows: seq<seq<Cell>>)
    requires rows != []
    ensures var front := RowsText(rows[..|rows| - 1]);
      RowsText(rows) == front[..|front| - 1] + (['\n'] + (("|" + CellsText(rows[|rows| - 1])) + "\n"))
  {
    var front := RowsText(rows[..|rows| - 1]);
    RowsTextEndsLine(rows[..|rows| - 1]);
    assert front == front[..|front| - 1] + ['\n'];
    assert RowsText(rows) == front + RowText(rows[|rows| - 1]);
    AppendAssociative(front[..|front| - 1], ['\n'], RowText(rows[|rows| - 1]));
  }

  /** Appending one cell's text, as pretty_string does, extends the text of a row's prefix. */
  lemma CellsTextExtend(prefix: string, r: seq<Cell>, x: nat, s: string)
    requires x < |r| && s == prefix + CellsText(r[..x])
    ensures (s + (" " + CellToken(r[x]) + " ")) + "|" == prefix + CellsText(r[..x + 1])
  {
    assert r[..x + 1][..x] == r[..x];
    var t := " " + CellToken(r[x]) + " ";
    assert CellText(r[x]) == t + "|";
    assert CellsText(r[..x + 1]) == CellsText(r[..x]) + (t + "|");
    AppendAssociative(s, t, "|");
    AppendAssociative(prefix, CellsText(r[..x]), t + "|");
  }

  /** CellsTextExtend with the two pieces that pretty_string appends for a tile and for an empty cell. */
  lemma CellsTextExtendShown(prefix: string, r: seq<Cell>, x: nat, s: string)
    requires x < |r| && s == prefix + CellsText(r[..x])
    ensures r[x].Some? ==> (s + (" " + Label(r[x].value) + " ")) + "|" == prefix + CellsText(r[..x + 1])
    ensures r[x].None? ==> (s + " - ") + "|" == prefix + CellsText(r[..x + 1])
  {
    CellsTextExtend(prefix, r, x, s);
    if r[x].None? {
      assert " " + CellToken(r[x]) + " " == " - ";
    }
  }

  /** Closing a row's line, as pretty_string does, extends the text of the rows above it. */
  lemma RowsTextExtend(rows: seq<seq<Cell>>, y: nat, s: string)
    requires y < |rows| && s == (RowsText(rows[..y]) + "|") + CellsText(rows[y][..|rows[y]|])
    ensures s + "\n" == RowsText(rows[..y + 1])
  {
    assert rows[y][..|rows[y]|] == rows[y];
    assert rows[..y + 1][..y] == rows[..y];
    AppendAssociative(RowsText(rows[..y]), "|", CellsText(rows[y]));
    AppendAssociative(RowsText(rows[..y]), "|" + CellsText(rows[y]), "\n");
  }

  /** The text of all the rows is the board's text. */
  lemma RowsTextWhole(g: Board, s: string)
    requires WellFormed(g) && s == RowsText(g[..RowsCount])
    ensures s == Pretty(g)
  {
    assert g[..RowsCount] == g;
  }

  /** As many rows, all of the same length, with the same text are the same rows. */
  lemma {:induction false} RowsTextInjective(a: seq<seq<Cell>>, b: seq<seq<Cell>>, n: nat)
    requires |a| == |b|
    requires forall y | 0 <= y < |a| :: |a[y]| == n && |b[y]| == n
    requires RowsText(a) == RowsText(b)
    ensures a == b
    decreases |a|, 1
  {
    if a != [] {
      RowsTextInjectiveLast(a, b, n);
    }
  }

  /** Two texts that end a line, each followed by one more line: equal results split the same way. */
  lemma SplitAtLastLine(fa: string, ca: string, fb: string, cb: string)
    requires |fa| > 0 && fa[|fa| - 1] == '\n' && |fb| > 0 && fb[|fb| - 1] == '\n'
    requires '\n' !in ca && '\n' !in cb
    requires fa[..|fa| - 1] + (['\n'] + (("|" + ca) + "\n")) == fb[..|fb| - 1] + (['\n'] + (("|" + cb) + "\n"))
    ensures fa == fb && ca == cb
  {
    SplitAtLastSeparator(fa[..|fa| - 1], "|" + ca, fb[..|fb| - 1], "|" + cb, '\n', "\n");
    assert ca == ("|" + ca)[1..];
    assert cb == ("|" + cb)[1..];
    assert fa == fa[..|fa| - 1] + ['\n'];
    assert fb == fb[..|fb| - 1] + ['\n'];
  }

  /** Equal texts of some rows: the texts of all but the last rows agree, and so do the last rows' cells. */
  lemma RowsTextSplitLast(a: seq<seq<Cell>>, b: seq<seq<Cell>>)
    requires a != [] && b != [] && RowsText(a) == RowsText(b)
    ensures RowsText(a[..|a| - 1]) == RowsText(b[..|b| - 1])
    ensures CellsText(a[|a| - 1]) == CellsText(b[|b| - 1])
  {
    RowsTextLast(a);
    RowsTextLast(b);
    CellsTextOnOneLine(a[|a| - 1]);
    CellsTextOnOneLine(b[|b| - 1]);
    RowsTextEndsLine(a[..|a| - 1]);
    RowsTextEndsLine(b[..|b| - 1]);
    SplitAtLastLine(RowsText(a[..|a| - 1]), CellsText(a[|a| - 1]), RowsText(b[..|b| - 1]), CellsText(b[|b| - 1]));
  }

  /** The inductive step of RowsTextInjective: the last rows agree, then the rest. */
  lemma RowsTextInjectiveLast(a: seq<seq<Cell>>, b: seq<seq<Cell>>, n: nat)
    requires a != [] && |a| == |b|
    requires forall y | 0 <= y < |a| :: |a[y]| == n && |b[y]| == n
    requires RowsText(a) == RowsText(b)
    ensures a == b
    decreases |a|, 0
  {
    var a', b' := a[..|a| - 1], b[..|b| - 1];
    RowsTextSplitLast(a, b);
    CellsTextInjective(a[|a| - 1], b[|b| - 1]);
    RowsTextInjective(a', b', n);
    SameFrontAndLast(a, b);
  }

  /** pretty_string loses nothing: boards with the same text are the same board. */
  lemma PrettyInjective(a: Board, b: Board)
    requires WellFormed(a) && WellFormed(b) && Pretty(a) == Pretty(b)
    ensures a == b
  {
    RowsTextInjective(a, b, ColsCount);
  }
}
