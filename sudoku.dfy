/** The Sudoku board: a 9x9 array of ints, -1 for an empty cell, updated in
    place by Put and Reset and read by the search through FindEmpty,
    FindChoices and Get. */
module SudokuBoard {
  import opened Grid

  class Sudoku {
    /** The cells; field[x, y] is row x, column y. */
    const field: array2<int>

    ghost predicate Valid() {
      field.Length0 == 9 && field.Length1 == 9
    }

    /** A new board has every cell empty. */
    constructor ()
      ensures Valid() && fresh(field)
      ensures forall i, j :: InRange(i, j) ==> field[i, j] == Empty
      ensures Get() == seq(9, _ => seq(9, _ => Empty))
    {
      field := new int[9, 9]((_, _) => Empty);
      new;
      ghost var g := Get();
      forall i | 0 <= i < 9 ensures g[i] == seq(9, _ => Empty) {
      }
    }

    /** A copy of the cells as a value: later writes to the board do not
        change a grid already obtained. */
    function Get(): (g: seq<seq<int>>)
      reads field
      requires Valid()
      ensures IsGrid(g)
      ensures forall i, j :: InRange(i, j) ==> g[i][j] == field[i, j]
    {
      seq(9, i reads field requires 0 <= i < 9 =>
        seq(9, j reads field requires 0 <= j < 9 => field[i, j]))
    }

    /** The first empty cell in row-major order, or (-1, -1) when every cell
        is filled. */
    method FindEmpty() returns (c: (int, int))
      requires Valid()
      ensures IsFirstEmpty(Get(), c)
    {
      for x := 0 to 9
        invariant forall i, j :: 0 <= i < x && 0 <= j < 9 ==> field[i, j] != Empty
      {
        for y := 0 to 9
          invariant forall i, j :: InRange(i, j) && Before(i, j, x, y) ==> field[i, j] != Empty
        {
          if field[x, y] == Empty {
            return (x, y);
          }
        }
      }
      return NoCell;
    }

    /** The values 1..9 that are not already used in row x, in column y or in
        the 3x3 box containing (x, y). */
    method FindChoices(x: int, y: int) returns (canUse: set<int>)
      requires Valid() && InRange(x, y)
      ensures canUse == Choices(Get(), x, y)
    {
      ghost var g := Get();
      canUse := {1, 2, 3, 4, 5, 6, 7, 8, 9};
      assert forall v :: v in canUse <==> 1 <= v <= 9;

      // Horizontal check
      for i := 0 to 9
        invariant forall v :: v in canUse <==>
          1 <= v <= 9 && forall j :: 0 <= j < i ==> g[x][j] != v
      {
        if field[x, i] != Empty {
          canUse := canUse - {field[x, i]};
        }
      }
      ghost var afterRow := canUse;

      // Vertical check
      for i := 0 to 9
        invariant forall v :: v in canUse <==>
          v in afterRow && forall k :: 0 <= k < i ==> g[k][y] != v
      {
        if field[i, y] != Empty {
          canUse := canUse - {field[i, y]};
        }
      }
      ghost var afterColumn := canUse;

      // Box check
      var cx := x / 3 * 3 + 1;
      var cy := y / 3 * 3 + 1;
      assert cx - 1 == BoxStart(x) && cy - 1 == BoxStart(y);
      for i := cx - 1 to cx + 2
        invariant forall v :: v in canUse <==>
          v in afterColumn && forall k, j :: cx - 1 <= k < i && cy - 1 <= j < cy + 2 ==> g[k][j] != v
      {
        for j := cy - 1 to cy + 2
          invariant forall v :: v in canUse <==>
            v in afterColumn &&
            (forall k, l :: cx - 1 <= k < i && cy - 1 <= l < cy + 2 ==> g[k][l] != v) &&
            (forall l :: cy - 1 <= l < j ==> g[i][l] != v)
        {
          if field[i, j] != Empty {
            canUse := canUse - {field[i, j]};
          }
        }
      }
      forall v ensures v in canUse <==> v in Choices(g, x, y) {
        assert v in afterRow <==> 1 <= v <= 9 && !InRow(g, x, v);
        assert v in afterColumn <==> v in afterRow && !InColumn(g, y, v);
        assert v in canUse <==> v in afterColumn && !InBox(g, x, y, v);
      }
    }

    /** Writes value into cell (x, y) and nothing else. */
    method Put(x: int, y: int, value: int)
      requires Valid() && InRange(x, y)
      modifies field
      ensures field[x, y] == value
      ensures forall i, j :: InRange(i, j) && (i, j) != (x, y) ==> field[i, j] == old(field[i, j])
      ensures Get() == Place(old(Get()), x, y, value)
    {
      field[x, y] := value;
      GridOfCells(old(Get()), x, y, value);
    }

    /** Clears cell (x, y) back to -1 and changes nothing else. */
    method Reset(x: int, y: int)
      requires Valid() && InRange(x, y)
      modifies field
      ensures field[x, y] == Empty
      ensures forall i, j :: InRange(i, j) && (i, j) != (x, y) ==> field[i, j] == old(field[i, j])
      ensures Get() == Place(old(Get()), x, y, Empty)
    {
      field[x, y] := Empty;
      GridOfCells(old(Get()), x, y, Empty);
    }

    /** After a single-cell write, the copy of the cells is the old copy with
        that cell replaced. */
    lemma GridOfCells(g: seq<seq<int>>, x: int, y: int, v: int)
      requires Valid() && IsGrid(g) && InRange(x, y)
      requires forall i, j :: InRange(i, j) ==> field[i, j] == Place(g, x, y, v)[i][j]
      ensures Get() == Place(g, x, y, v)
    {
      var now, want := Get(), Place(g, x, y, v);
      forall i | 0 <= i < 9 ensures now[i] == want[i] {
        assert |now[i]| == |want[i]|;
      }
    }
  }
}
