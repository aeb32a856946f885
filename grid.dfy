/** Values of a Sudoku board and the specification of the board's queries.

    A grid is 9 rows of 9 cell values; -1 marks an empty cell and a filled
    cell holds (normally) a value in 1..9. Rows are indexed by x, columns
    by y, as in the Python board class. */
module Grid {

  /** The cell value that marks an empty cell. */
  const Empty: int := -1

  /** The sentinel returned by the empty-cell search when no cell is empty. */
  const NoCell: (int, int) := (-1, -1)

  ghost predicate IsGrid(g: seq<seq<int>>) {
    |g| == 9 && forall i :: 0 <= i < 9 ==> |g[i]| == 9
  }

  predicate InRange(x: int, y: int) {
    0 <= x < 9 && 0 <= y < 9
  }

  /** The grid with cell (x, y) overwritten by v. */
  function Place(g: seq<seq<int>>, x: int, y: int, v: int): (r: seq<seq<int>>)
    requires IsGrid(g) && InRange(x, y)
    ensures IsGrid(r) && r[x][y] == v
    ensures forall i, j :: InRange(i, j) && (i, j) != (x, y) ==> r[i][j] == g[i][j]
  {
    g[x := g[x][y := v]]
  }

  /** Writing a value into an empty cell and then clearing it gives back the grid. */
  lemma PlaceThenClear(g: seq<seq<int>>, x: int, y: int, v: int)
    requires IsGrid(g) && InRange(x, y) && g[x][y] == Empty
    ensures Place(Place(g, x, y, v), x, y, Empty) == g
  {
    var r := Place(Place(g, x, y, v), x, y, Empty);
    forall i | 0 <= i < 9 ensures r[i] == g[i] {
      assert |r[i]| == |g[i]|;
      forall j | 0 <= j < 9 ensures r[i][j] == g[i][j] {
      }
    }
  }

  ghost predicate Full(g: seq<seq<int>>)
    requires IsGrid(g)
  {
    forall i, j :: InRange(i, j) ==> g[i][j] != Empty
  }

  /** Every cell is empty or holds one of 1..9. */
  ghost predicate WellFormed(g: seq<seq<int>>)
    requires IsGrid(g)
  {
    forall i, j :: InRange(i, j) ==> g[i][j] == Empty || 1 <= g[i][j] <= 9
  }

  /** s keeps every value that g already has in a filled cell. */
  ghost predicate Extends(s: seq<seq<int>>, g: seq<seq<int>>)
    requires IsGrid(s) && IsGrid(g)
  {
    forall i, j :: InRange(i, j) && g[i][j] != Empty ==> s[i][j] == g[i][j]
  }

  // ---------------------------------------------------------------------
  // Units: rows, columns and 3x3 boxes

  /** The first row (or column) of the box that row (or column) i lies in. */
  function BoxStart(i: int): (r: int)
    requires 0 <= i < 9
    ensures 0 <= r <= i < r + 3 <= 9 && r % 3 == 0
  {
    i / 3 * 3
  }

  predicate SameBox(i1: int, j1: int, i2: int, j2: int) {
    i1 / 3 == i2 / 3 && j1 / 3 == j2 / 3
  }

  /** The two cells share a row, a column or a box. */
  predicate SameUnit(i1: int, j1: int, i2: int, j2: int) {
    i1 == i2 || j1 == j2 || SameBox(i1, j1, i2, j2)
  }

  /** No unit holds the same value in two different filled cells. */
  ghost predicate Consistent(g: seq<seq<int>>)
    requires IsGrid(g)
  {
    forall i1, j1, i2, j2 ::
      InRange(i1, j1) && InRange(i2, j2) && (i1, j1) != (i2, j2) &&
      SameUnit(i1, j1, i2, j2) && g[i1][j1] != Empty
      ==> g[i1][j1] != g[i2][j2]
  }

  /** A solved Sudoku: full, values 1..9, and no duplicate in any unit. */
  ghost predicate Solved(g: seq<seq<int>>)
    requires IsGrid(g)
  {
    Full(g) && WellFormed(g) && Consistent(g)
  }

  // ---------------------------------------------------------------------
  // Legal values of a cell

  ghost predicate InRow(g: seq<seq<int>>, x: int, v: int)
    requires IsGrid(g) && 0 <= x < 9
  {
    exists j :: 0 <= j < 9 && g[x][j] == v
  }

  ghost predicate InColumn(g: seq<seq<int>>, y: int, v: int)
    requires IsGrid(g) && 0 <= y < 9
  {
    exists i :: 0 <= i < 9 && g[i][y] == v
  }

  ghost predicate InBox(g: seq<seq<int>>, x: int, y: int, v: int)
    requires IsGrid(g) && InRange(x, y)
  {
    exists i, j ::
      BoxStart(x) <= i < BoxStart(x) + 3 && BoxStart(y) <= j < BoxStart(y) + 3 && g[i][j] == v
  }

  /** The values 1..9 that occur neither in row x, nor in column y, nor in
      the box of (x, y). */
  ghost function Choices(g: seq<seq<int>>, x: int, y: int): set<int>
    requires IsGrid(g) && InRange(x, y)
  {
    set v | 1 <= v <= 9 && !InRow(g, x, v) && !InColumn(g, y, v) && !InBox(g, x, y, v)
  }

  lemma SameBoxBounds(x: int, i: int)
    requires 0 <= x < 9 && 0 <= i < 9
    ensures i / 3 == x / 3 <==> BoxStart(x) <= i < BoxStart(x) + 3
  {
  }

  /** On a consistent grid, a value 1..9 is a legal choice for an empty cell
      exactly when writing it there keeps the grid consistent. */
  lemma ChoicesExact(g: seq<seq<int>>, x: int, y: int, v: int)
    requires IsGrid(g) && InRange(x, y) && Consistent(g) && g[x][y] == Empty && 1 <= v <= 9
    ensures v in Choices(g, x, y) <==> Consistent(Place(g, x, y, v))
  {
    var r := Place(g, x, y, v);
    if v in Choices(g, x, y) {
      forall i1, j1, i2, j2 |
        InRange(i1, j1) && InRange(i2, j2) && (i1, j1) != (i2, j2) &&
        SameUnit(i1, j1, i2, j2) && r[i1][j1] != Empty
        ensures r[i1][j1] != r[i2][j2]
      {
        if (i1, j1) == (x, y) {
          PeerLacksChoice(g, x, y, v, i2, j2);
        } else if (i2, j2) == (x, y) {
          PeerLacksChoice(g, x, y, v, i1, j1);
        }
      }
    } else {
      if InRow(g, x, v) {
        var j :| 0 <= j < 9 && g[x][j] == v;
        assert r[x][j] == v && r[x][y] == v;
      } else if InColumn(g, y, v) {
        var i :| 0 <= i < 9 && g[i][y] == v;
        assert r[i][y] == v && r[x][y] == v;
      } else {
        assert InBox(g, x, y, v);
        var i, j :| BoxStart(x) <= i < BoxStart(x) + 3 && BoxStart(y) <= j < BoxStart(y) + 3 && g[i][j] == v;
        SameBoxBounds(x, i);
        SameBoxBounds(y, j);
        assert r[i][j] == v && r[x][y] == v && SameUnit(x, y, i, j);
      }
    }
  }

  /** A cell sharing a unit with (x, y) does not hold a legal choice of (x, y). */
  lemma PeerLacksChoice(g: seq<seq<int>>, x: int, y: int, v: int, i: int, j: int)
    requires IsGrid(g) && InRange(x, y) && InRange(i, j) && v in Choices(g, x, y)
    requires SameUnit(x, y, i, j)
    ensures g[i][j] != v
  {
    if i == x {
      assert !InRow(g, x, v);
    } else if j == y {
      assert !InColumn(g, y, v);
    } else {
      SameBoxBounds(x, i);
      SameBoxBounds(y, j);
      assert !InBox(g, x, y, v);
    }
  }

  /** A value a solved extension of g puts into an empty cell of g is a legal
      choice for that cell. */
  lemma CompletionValueIsChoice(g: seq<seq<int>>, s: seq<seq<int>>, x: int, y: int)
    requires IsGrid(g) && IsGrid(s) && Solved(s) && Extends(s, g)
    requires InRange(x, y) && g[x][y] == Empty
    ensures s[x][y] in Choices(g, x, y)
  {
    var v := s[x][y];
    forall j | 0 <= j < 9 ensures g[x][j] != v {
      if g[x][j] != Empty {
        assert s[x][j] == g[x][j] && SameUnit(x, j, x, y);
      }
    }
    forall i | 0 <= i < 9 ensures g[i][y] != v {
      if g[i][y] != Empty {
        assert s[i][y] == g[i][y] && SameUnit(i, y, x, y);
      }
    }
    forall i, j | BoxStart(x) <= i < BoxStart(x) + 3 && BoxStart(y) <= j < BoxStart(y) + 3
      ensures g[i][j] != v
    {
      if g[i][j] != Empty {
        SameBoxBounds(x, i);
        SameBoxBounds(y, j);
        assert s[i][j] == g[i][j] && SameUnit(i, j, x, y);
      }
    }
  }

  // ---------------------------------------------------------------------
  // The first empty cell in row-major order

  /** Cell (i, j) comes before cell (x, y) in row-major order. */
  predicate Before(i: int, j: int, x: int, y: int) {
    i < x || (i == x && j < y)
  }

  /** c is the first empty cell of g in row-major order, or NoCell when g is full. */
  ghost predicate IsFirstEmpty(g: seq<seq<int>>, c: (int, int))
    requires IsGrid(g)
  {
    if c == NoCell then Full(g)
    else
      InRange(c.0, c.1) && g[c.0][c.1] == Empty &&
      forall i, j :: InRange(i, j) && Before(i, j, c.0, c.1) ==> g[i][j] != Empty
  }

  /** The first empty cell at or after (x, y) in row-major order. */
  function Scan(g: seq<seq<int>>, x: int, y: int): (c: (int, int))
    requires IsGrid(g) && 0 <= x <= 9 && 0 <= y < 9
    ensures c == NoCell ==>
      forall i, j :: InRange(i, j) && !Before(i, j, x, y) ==> g[i][j] != Empty
    ensures c != NoCell ==>
      InRange(c.0, c.1) && g[c.0][c.1] == Empty && !Before(c.0, c.1, x, y) &&
      forall i, j :: InRange(i, j) && !Before(i, j, x, y) && Before(i, j, c.0, c.1) ==> g[i][j] != Empty
    decreases 9 - x, 9 - y
  {
    if x == 9 then NoCell
    else if g[x][y] == Empty then (x, y)
    else if y == 8 then Scan(g, x + 1, 0)
    else Scan(g, x, y + 1)
  }

  function FirstEmpty(g: seq<seq<int>>): (c: (int, int))
    requires IsGrid(g)
    ensures IsFirstEmpty(g, c)
  {
    Scan(g, 0, 0)
  }

  /** Only one cell is the first empty one. */
  lemma FirstEmptyUnique(g: seq<seq<int>>, c: (int, int))
    requires IsGrid(g) && IsFirstEmpty(g, c)
    ensures c == FirstEmpty(g)
  {
  }

  // ---------------------------------------------------------------------
  // Number of empty cells: the measure that makes the search terminate

  function RowEmptyCount(row: seq<int>): nat {
    if row == [] then 0 else (if row[0] == Empty then 1 else 0) + RowEmptyCount(row[1..])
  }

  function EmptyCount(g: seq<seq<int>>): nat {
    if g == [] then 0 else RowEmptyCount(g[0]) + EmptyCount(g[1..])
  }

  lemma {:induction false} RowEmptyCountBound(row: seq<int>)
    ensures RowEmptyCount(row) <= |row|
  {
    if row != [] {
      RowEmptyCountBound(row[1..]);
    }
  }

  /** A grid has at most 81 empty cells, so the search is at most 81 deep. */
  lemma {:induction false} EmptyCountBound(g: seq<seq<int>>)
    requires forall i :: 0 <= i < |g| ==> |g[i]| == 9
    ensures EmptyCount(g) <= 9 * |g|
  {
    if g != [] {
      RowEmptyCountBound(g[0]);
      EmptyCountBound(g[1..]);
    }
  }

  lemma {:induction false} RowEmptyCountFill(row: seq<int>, y: int, v: int)
    requires 0 <= y < |row| && row[y] == Empty && v != Empty
    ensures RowEmptyCount(row[y := v]) + 1 == RowEmptyCount(row)
  {
    if y > 0 {
      assert row[y := v][1..] == row[1..][y - 1 := v];
      RowEmptyCountFill(row[1..], y - 1, v);
    } else {
      assert row[y := v][1..] == row[1..];
    }
  }

  lemma {:induction false} EmptyCountUpdateRow(g: seq<seq<int>>, x: int, r: seq<int>)
    requires 0 <= x < |g|
    ensures EmptyCount(g[x := r]) + RowEmptyCount(g[x]) == EmptyCount(g) + RowEmptyCount(r)
  {
    if x > 0 {
      assert g[x := r][1..] == g[1..][x - 1 := r];
      EmptyCountUpdateRow(g[1..], x - 1, r);
    } else {
      assert g[x := r][1..] == g[1..];
    }
  }

  /** Filling an empty cell removes exactly one empty cell. */
  lemma EmptyCountPlace(g: seq<seq<int>>, x: int, y: int, v: int)
    requires IsGrid(g) && InRange(x, y) && g[x][y] == Empty && v != Empty
    ensures EmptyCount(Place(g, x, y, v)) + 1 == EmptyCount(g)
  {
    RowEmptyCountFill(g[x], y, v);
    EmptyCountUpdateRow(g, x, g[x][y := v]);
  }

  /** Concatenation is associative (stated once, used where the solver would
      otherwise have to rediscover it on long sequences). */
  lemma ConcatAssoc<T>(a: seq<T>, b: seq<T>, c: seq<T>)
    ensures (a + b) + c == a + (b + c)
  {
  }

  lemma PrefixSnoc<T>(s: seq<T>, n: int)
    requires 0 <= n < |s|
    ensures s[..n + 1] == s[..n] + [s[n]]
  {
  }
}
