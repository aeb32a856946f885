/** Text rendering of a grid: a dashed rule, then the nine rows, with a
    further rule after every band of three rows; inside a row, a bar
    separator opens the line and follows every group of three cells. */
module Formatter {
  import opened Grid

  /** The dashed rule drawn above the board and below each band of rows. */
  const Rule: string := "-------------------------"

  function DigitChar(d: int): char
    requires 0 <= d <= 9
  {
    (48 + d) as char
  }

  /** Decimal digits of n, most significant first. */
  function NatToString(n: nat): (s: string)
    ensures |s| >= 1 && forall k :: 0 <= k < |s| ==> '0' <= s[k] <= '9'
    decreases n
  {
    if n < 10 then [DigitChar(n)] else NatToString(n / 10) + [DigitChar(n % 10)]
  }

  /** Decimal text of an integer, with a leading minus sign when negative. */
  function IntToString(n: int): (s: string)
    ensures |s| >= 1 && forall k :: 0 <= k < |s| ==> s[k] == '-' || '0' <= s[k] <= '9'
    ensures 0 <= n <= 9 ==> s == [DigitChar(n)]
  {
    if n < 0 then "-" + NatToString(-n) else NatToString(n)
  }

  /** The value of a string of decimal digits, most significant first. */
  function DigitsValue(s: string): int
    decreases |s|
  {
    if s == [] then 0 else DigitsValue(s[..|s| - 1]) * 10 + (s[|s| - 1] as int - 48)
  }

  /** The value of a decimal text with an optional leading minus sign. */
  function DecimalValue(s: string): int {
    if s != [] && s[0] == '-' then -DigitsValue(s[1..]) else DigitsValue(s)
  }

  lemma {:induction false} NatToStringValue(n: nat)
    ensures DigitsValue(NatToString(n)) == n
    decreases n
  {
    if n >= 10 {
      var s := NatToString(n);
      NatToStringValue(n / 10);
      assert s[..|s| - 1] == NatToString(n / 10);
    }
  }

  /** Reading the printed text of an integer back gives the integer. */
  lemma IntToStringValue(n: int)
    ensures DecimalValue(IntToString(n)) == n
  {
    var s := IntToString(n);
    if n < 0 {
      NatToStringValue(-n);
      assert s[1..] == NatToString(-n);
    } else {
      NatToStringValue(n);
    }
  }

  /** A cell value followed by one space, as each cell is printed. */
  function CellText(v: int): string {
    IntToString(v) + " "
  }

  /** The printed text of every cell of a row. */
  function RenderRow(row: seq<int>): (cells: seq<string>)
    ensures |cells| == |row|
  {
    seq(|row|, j requires 0 <= j < |row| => CellText(row[j]))
  }

  /** The printed text of every cell of a grid, row by row. */
  function Rendered(g: seq<seq<int>>): (t: seq<seq<string>>)
    requires IsGrid(g)
    ensures |t| == 9 && forall i :: 0 <= i < 9 ==> |t[i]| == 9
  {
    seq(9, i requires 0 <= i < 9 => RenderRow(g[i]))
  }

  /** Nine rows of nine cell texts. */
  ghost predicate IsTable(t: seq<seq<string>>) {
    |t| == 9 && forall i :: 0 <= i < 9 ==> |t[i]| == 9
  }

  // ---------------------------------------------------------------------
  // The layout

  /** Cells k, k+1, k+2 of a row, then a bar separator. */
  function GroupText(cells: seq<string>, k: int): string
    requires 0 <= k && k + 3 <= |cells|
  {
    cells[k] + cells[k + 1] + cells[k + 2] + "| "
  }

  /** One row of the board, without its line break: a bar separator, then
      the three groups of cells. */
  function RowLine(cells: seq<string>): string
    requires |cells| == 9
  {
    "| " + GroupText(cells, 0) + GroupText(cells, 3) + GroupText(cells, 6)
  }

  /** The lines joined, each followed by a line break. */
  function Terminated(lines: seq<string>): string {
    if lines == [] then "" else lines[0] + "\n" + Terminated(lines[1..])
  }

  /** The thirteen lines of a board whose cells print as t: a rule, then the
      rows, with a rule after every third row. */
  function LayoutLines(t: seq<seq<string>>): (lines: seq<string>)
    requires IsTable(t)
    ensures |lines| == 13
  {
    seq(13, k requires 0 <= k < 13 => if k % 4 == 0 then Rule else RowLine(t[k - k / 4 - 1]))
  }

  /** The whole text of a board. */
  function Formatted(g: seq<seq<int>>): string
    requires IsGrid(g)
  {
    Terminated(LayoutLines(Rendered(g)))
  }

  // ---------------------------------------------------------------------
  // The text built so far by the formatting loops

  /** The text of the first y cells of a row as the inner loop builds it. */
  function CellsSoFar(cells: seq<string>, y: int): string
    requires |cells| == 9 && 0 <= y <= 9
  {
    if y == 0 then ""
    else if (y - 1) % 3 == 2 then CellsSoFar(cells, y - 1) + cells[y - 1] + "| "
    else CellsSoFar(cells, y - 1) + cells[y - 1]
  }

  lemma CellsSoFarUnfold(cells: seq<string>, k: int)
    requires |cells| == 9 && k in {0, 3, 6}
    ensures CellsSoFar(cells, k + 3) == CellsSoFar(cells, k) + cells[k] + cells[k + 1] + cells[k + 2] + "| "
  {
    var p := CellsSoFar(cells, k);
    assert CellsSoFar(cells, k + 1) == p + cells[k];
    assert CellsSoFar(cells, k + 2) == p + cells[k] + cells[k + 1];
    assert CellsSoFar(cells, k + 3) == CellsSoFar(cells, k + 2) + cells[k + 2] + "| ";
  }

  lemma CellsSoFarGroup(cells: seq<string>, k: int)
    requires |cells| == 9 && k in {0, 3, 6}
    ensures CellsSoFar(cells, k + 3) == CellsSoFar(cells, k) + GroupText(cells, k)
  {
    var c0, c1, c2 := cells[k], cells[k + 1], cells[k + 2];
    var p := CellsSoFar(cells, k);
    CellsSoFarUnfold(cells, k);
    ConcatAssoc(p, c0, c1);
    ConcatAssoc(p, c0 + c1, c2);
    ConcatAssoc(p, c0 + c1 + c2, "| ");
  }

  /** A bar separator and the nine cells make up the row's line. */
  lemma CellsSoFarIsRowLine(cells: seq<string>)
    requires |cells| == 9
    ensures "| " + CellsSoFar(cells, 9) == RowLine(cells)
  {
    var g0, g3, g6 := GroupText(cells, 0), GroupText(cells, 3), GroupText(cells, 6);
    CellsSoFarGroup(cells, 0);
    CellsSoFarGroup(cells, 3);
    CellsSoFarGroup(cells, 6);
    assert CellsSoFar(cells, 3) == g0;
    ConcatAssoc("| ", g0, g3);
    ConcatAssoc("| ", g0 + g3, g6);
  }

  /** Adding one more line adds that line and a line break at the end. */
  lemma {:induction false} TerminatedSnoc(lines: seq<string>, l: string)
    ensures Terminated(lines + [l]) == Terminated(lines) + l + "\n"
  {
    if lines == [] {
      assert lines + [l] == [l];
      assert [l][1..] == [];
      assert "" + l == l;
      assert l + "\n" + "" == l + "\n";
    } else {
      var h, rest := lines[0], Terminated(lines[1..]);
      assert (lines + [l])[1..] == lines[1..] + [l];
      TerminatedSnoc(lines[1..], l);
      ConcatAssoc(h + "\n", rest, l);
      ConcatAssoc(h + "\n", rest + l, "\n");
    }
  }

  /** The number of lines written before row x. */
  function LinesBefore(x: int): int {
    x + x / 3 + 1
  }

  /** Row x is the line right after the first LinesBefore(x) lines, and a
      rule follows it exactly when it ends a band. */
  lemma RowLineIndex(x: int)
    requires 0 <= x < 9
    ensures var n := LinesBefore(x);
      n % 4 != 0 && n - n / 4 - 1 == x &&
      (x % 3 == 2 ==> (n + 1) % 4 == 0 && LinesBefore(x + 1) == n + 2) &&
      (x % 3 != 2 ==> LinesBefore(x + 1) == n + 1)
  {
    if x < 3 {
    } else if x < 6 {
    } else {
    }
  }

  /** Writing row x, its line break and, at the end of a band, a rule and
      its line break extends the text by the next lines of the layout. */
  lemma RowStep(t: seq<seq<string>>, x: int, done: string)
    requires IsTable(t) && 0 <= x < 9
    requires done == Terminated(LayoutLines(t)[..LinesBefore(x)])
    ensures var row := done + "| " + CellsSoFar(t[x], 9) + "\n";
      var next := Terminated(LayoutLines(t)[..LinesBefore(x + 1)]);
      (x % 3 != 2 ==> row == next) && (x % 3 == 2 ==> row + (Rule + "\n") == next)
  {
    var lines := LayoutLines(t);
    var n := LinesBefore(x);
    var cells := CellsSoFar(t[x], 9);
    RowLineIndex(x);
    CellsSoFarIsRowLine(t[x]);
    ConcatAssoc(done, "| ", cells);
    assert lines[n] == RowLine(t[x]);
    PrefixSnoc(lines, n);
    TerminatedSnoc(lines[..n], RowLine(t[x]));
    if x % 3 == 2 {
      var row := done + "| " + cells + "\n";
      assert lines[n + 1] == Rule;
      PrefixSnoc(lines, n + 1);
      TerminatedSnoc(lines[..n + 1], Rule);
      ConcatAssoc(row, Rule, "\n");
    }
  }

  /** Writing cell y, and after every third cell a bar separator, extends
      the row's text by one cell. */
  lemma CellStep(head: string, cells: seq<string>, y: int)
    requires |cells| == 9 && 0 <= y < 9
    ensures var r := head + CellsSoFar(cells, y) + cells[y];
      (y % 3 != 2 ==> r == head + CellsSoFar(cells, y + 1)) &&
      (y % 3 == 2 ==> r + "| " == head + CellsSoFar(cells, y + 1))
  {
    ConcatAssoc(head, CellsSoFar(cells, y), cells[y]);
    if y % 3 == 2 {
      ConcatAssoc(head, CellsSoFar(cells, y) + cells[y], "| ");
    }
  }

  /** The text written once x rows are done, as the outer loop builds it. */
  function RowsSoFar(t: seq<seq<string>>, x: int): string
    requires IsTable(t) && 0 <= x <= 9
  {
    if x == 0 then Rule + "\n"
    else if (x - 1) % 3 == 2 then RowsSoFar(t, x - 1) + "| " + CellsSoFar(t[x - 1], 9) + "\n" + (Rule + "\n")
    else RowsSoFar(t, x - 1) + "| " + CellsSoFar(t[x - 1], 9) + "\n"
  }

  /** After x rows the text is the first LinesBefore(x) lines of the layout. */
  lemma {:induction false} RowsSoFarLines(t: seq<seq<string>>, x: int)
    requires IsTable(t) && 0 <= x <= 9
    ensures RowsSoFar(t, x) == Terminated(LayoutLines(t)[..LinesBefore(x)])
  {
    if x == 0 {
      TerminatedSnoc([], Rule);
      assert LayoutLines(t)[..1] == [] + [Rule];
    } else {
      RowsSoFarLines(t, x - 1);
      RowStep(t, x - 1, RowsSoFar(t, x - 1));
    }
  }

  /** Renders a grid as text. */
  method FormatBoard(board: seq<seq<int>>) returns (ret: string)
    requires IsGrid(board)
    ensures ret == Formatted(board)
  {
    ghost var t := Rendered(board);
    ret := "";
    ret := ret + (Rule + "\n");
    for x := 0 to 9
      invariant ret == RowsSoFar(t, x)
    {
      ret := ret + "| ";
      ghost var head := ret;
      for y := 0 to 9
        invariant ret == head + CellsSoFar(t[x], y)
      {
        CellStep(head, t[x], y);
        assert t[x][y] == CellText(board[x][y]);
        ret := ret + CellText(board[x][y]);
        if y % 3 == 2 {
          ret := ret + "| ";
        }
      }
      ret := ret + "\n";
      if x % 3 == 2 {
        ret := ret + (Rule + "\n");
      }
    }
    RowsSoFarLines(t, 9);
    assert LayoutLines(t)[..LinesBefore(9)] == LayoutLines(t);
  }

  // ---------------------------------------------------------------------
  // The shape of the output

  /** The position of the first line break in s, or |s| when there is none. */
  function LineEnd(s: string): (k: nat)
    ensures k <= |s| && (k < |s| ==> s[k] == '\n')
    ensures forall i :: 0 <= i < k ==> s[i] != '\n'
  {
    if s == [] || s[0] == '\n' then 0 else 1 + LineEnd(s[1..])
  }

  /** The lines of s, cut at each line break; a final line break ends the
      last line rather than starting an empty one. */
  function SplitLines(s: string): seq<string>
    decreases |s|
  {
    if s == [] then []
    else
      var k := LineEnd(s);
      if k == |s| then [s] else [s[..k]] + SplitLines(s[k + 1..])
  }

  lemma SplitLinesFirst(line: string, rest: string)
    requires '\n' !in line
    ensures SplitLines(line + "\n" + rest) == [line] + SplitLines(rest)
  {
    var s := line + "\n" + rest;
    forall i | 0 <= i < |line| ensures s[i] != '\n' {
      assert s[i] == line[i];
    }
    assert s[|line|] == '\n';
    assert LineEnd(s) == |line|;
    assert s[..|line|] == line;
    assert s[|line| + 1..] == rest;
  }

  /** Splitting newline-terminated lines gives the lines back. */
  lemma {:induction false} SplitTerminated(lines: seq<string>)
    requires forall i :: 0 <= i < |lines| ==> '\n' !in lines[i]
    ensures SplitLines(Terminated(lines)) == lines
  {
    if lines != [] {
      SplitTerminated(lines[1..]);
      SplitLinesFirst(lines[0], Terminated(lines[1..]));
      assert lines == [lines[0]] + lines[1..];
    }
  }

  /** The printed form of a cell holds no line break. */
  lemma CellTextOneLine(v: int)
    ensures '\n' !in CellText(v)
  {
    var s := IntToString(v);
    forall i | 0 <= i < |CellText(v)| ensures CellText(v)[i] != '\n' {
      if i < |s| {
        assert CellText(v)[i] == s[i];
      }
    }
  }

  lemma OneLineConcat(a: string, b: string)
    requires '\n' !in a && '\n' !in b
    ensures '\n' !in a + b
  {
    forall i | 0 <= i < |a + b| ensures (a + b)[i] != '\n' {
      if i < |a| {
        assert (a + b)[i] == a[i];
      } else {
        assert (a + b)[i] == b[i - |a|];
      }
    }
  }

  lemma GroupOneLine(cells: seq<string>, k: int)
    requires 0 <= k && k + 3 <= |cells|
    requires '\n' !in cells[k] && '\n' !in cells[k + 1] && '\n' !in cells[k + 2]
    ensures '\n' !in GroupText(cells, k)
  {
    var c0, c1, c2 := cells[k], cells[k + 1], cells[k + 2];
    OneLineConcat(c0, c1);
    OneLineConcat(c0 + c1, c2);
    OneLineConcat(c0 + c1 + c2, "| ");
  }

  /** A row of cell texts without line breaks makes a single line. */
  lemma RowLineOneLine(cells: seq<string>)
    requires |cells| == 9 && forall j :: 0 <= j < 9 ==> '\n' !in cells[j]
    ensures '\n' !in RowLine(cells)
  {
    GroupOneLine(cells, 0);
    GroupOneLine(cells, 3);
    GroupOneLine(cells, 6);
    var g0, g3, g6 := GroupText(cells, 0), GroupText(cells, 3), GroupText(cells, 6);
    OneLineConcat("| ", g0);
    OneLineConcat("| " + g0, g3);
    OneLineConcat("| " + g0 + g3, g6);
  }

  /** When no cell text holds a line break, no line of the layout does. */
  lemma LayoutLinesOneLine(t: seq<seq<string>>)
    requires IsTable(t) && forall i, j :: 0 <= i < 9 && 0 <= j < 9 ==> '\n' !in t[i][j]
    ensures forall k :: 0 <= k < 13 ==> '\n' !in LayoutLines(t)[k]
  {
    var lines := LayoutLines(t);
    assert '\n' !in Rule;
    forall k | 0 <= k < 13 ensures '\n' !in lines[k] {
      if k % 4 != 0 {
        RowLineOneLine(t[k - k / 4 - 1]);
      }
    }
  }

  lemma RenderedOneLine(g: seq<seq<int>>)
    requires IsGrid(g)
    ensures forall i, j :: 0 <= i < 9 && 0 <= j < 9 ==> '\n' !in Rendered(g)[i][j]
  {
    forall i, j | 0 <= i < 9 && 0 <= j < 9 ensures '\n' !in Rendered(g)[i][j] {
      CellTextOneLine(g[i][j]);
    }
  }

  /** Laid out from cell texts without line breaks, the text splits back
      into exactly the layout's lines. */
  lemma LayoutSplits(t: seq<seq<string>>)
    requires IsTable(t) && forall i, j :: 0 <= i < 9 && 0 <= j < 9 ==> '\n' !in t[i][j]
    ensures SplitLines(Terminated(LayoutLines(t))) == LayoutLines(t)
  {
    LayoutLinesOneLine(t);
    SplitTerminated(LayoutLines(t));
  }

  /** The text of a board is thirteen newline-terminated lines: a dashed
      rule, then the nine rows in order with a dashed rule after rows 2, 5
      and 8. */
  lemma FormattedLines(g: seq<seq<int>>)
    requires IsGrid(g)
    ensures var lines := SplitLines(Formatted(g));
      |lines| == 13 && Terminated(lines) == Formatted(g) &&
      forall k :: 0 <= k < 13 ==>
        lines[k] == if k % 4 == 0 then Rule else RowLine(Rendered(g)[k - k / 4 - 1])
  {
    RenderedOneLine(g);
    LayoutSplits(Rendered(g));
  }

  // ---------------------------------------------------------------------
  // Character positions in a row of single-digit cells

  /** The position of the digit of column y in a row line whose cells are
      single digits: two characters per cell, plus the bar separator that
      opens the line and the one after each earlier group. */
  function Column(y: int): int {
    2 + 2 * y + 2 * (y / 3)
  }

  /** g is the text of a group of three single-digit cells a, b, c. */
  ghost predicate GroupOf(g: string, a: char, b: char, c: char) {
    g == [a, ' ', b, ' ', c, ' ', '|', ' ']
  }

  lemma GroupChars(cells: seq<string>, k: int, d0: char, d1: char, d2: char)
    requires 0 <= k && k + 3 <= |cells|
    requires cells[k] == [d0, ' '] && cells[k + 1] == [d1, ' '] && cells[k + 2] == [d2, ' ']
    ensures GroupOf(GroupText(cells, k), d0, d1, d2)
  {
  }

  lemma LineOfGroups(line: string, g0: string, g3: string, g6: string, d: seq<char>)
    requires |d| == 9 && line == "| " + g0 + g3 + g6
    requires GroupOf(g0, d[0], d[1], d[2]) && GroupOf(g3, d[3], d[4], d[5]) && GroupOf(g6, d[6], d[7], d[8])
    ensures line == ['|', ' ',
      d[0], ' ', d[1], ' ', d[2], ' ', '|', ' ',
      d[3], ' ', d[4], ' ', d[5], ' ', '|', ' ',
      d[6], ' ', d[7], ' ', d[8], ' ', '|', ' ']
  {
  }

  lemma LinePositions(line: string, d: seq<char>)
    requires |d| == 9 && line == ['|', ' ',
      d[0], ' ', d[1], ' ', d[2], ' ', '|', ' ',
      d[3], ' ', d[4], ' ', d[5], ' ', '|', ' ',
      d[6], ' ', d[7], ' ', d[8], ' ', '|', ' ']
    ensures |line| == 26
    ensures forall y :: 0 <= y < 9 ==> line[Column(y)] == d[y] && line[Column(y) + 1] == ' '
    ensures forall b :: 0 <= b < 4 ==> line[8 * b] == '|' && line[8 * b + 1] == ' '
  {
  }

  /** In a row whose values are single digits, the line is 26 characters:
      each digit sits at Column(y) followed by a space, and the bar
      separators sit at 0, 8, 16 and 24, each followed by a space. */
  lemma RowLineChars(row: seq<int>)
    requires |row| == 9 && forall j :: 0 <= j < 9 ==> 0 <= row[j] <= 9
    ensures var line := RowLine(RenderRow(row));
      |line| == 26 &&
      (forall y :: 0 <= y < 9 ==> line[Column(y)] == DigitChar(row[y]) && line[Column(y) + 1] == ' ') &&
      (forall b :: 0 <= b < 4 ==> line[8 * b] == '|' && line[8 * b + 1] == ' ')
  {
    var cells := RenderRow(row);
    var d := seq(9, j requires 0 <= j < 9 => DigitChar(row[j]));
    forall j | 0 <= j < 9 ensures cells[j] == [d[j], ' '] {
      assert cells[j] == IntToString(row[j]) + " ";
    }
    GroupChars(cells, 0, d[0], d[1], d[2]);
    GroupChars(cells, 3, d[3], d[4], d[5]);
    GroupChars(cells, 6, d[6], d[7], d[8]);
    LineOfGroups(RowLine(cells), GroupText(cells, 0), GroupText(cells, 3), GroupText(cells, 6), d);
    LinePositions(RowLine(cells), d);
  }
}
