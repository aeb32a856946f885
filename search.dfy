/** The backtracking search: fill the first empty cell with each legal value
    in turn, recurse, clear the cell again, and record a copy of the board
    whenever no empty cell is left. */
module Search {
  import opened Grid
  import opened SudokuBoard

  /** The list the search appends its results to. */
  class ResultList {
    var items: seq<seq<seq<int>>>

    constructor ()
      ensures items == []
    {
      items := [];
    }

    method Append(g: seq<seq<int>>)
      modifies this
      ensures items == old(items) + [g]
    {
      items := items + [g];
    }
  }

  /** Every grid the search records from g, in the order it records them:
      depth first, trying the values of the first empty cell in ascending
      order. */
  ghost function Solutions(g: seq<seq<int>>): seq<seq<seq<int>>>
    requires IsGrid(g)
    decreases EmptyCount(g), 1, 0
  {
    var c := FirstEmpty(g);
    if c == NoCell then [g] else Explore(g, c.0, c.1, 1)
  }

  /** The grids recorded while trying the values value..9 at the empty cell (x, y). */
  ghost function Explore(g: seq<seq<int>>, x: int, y: int, value: int): seq<seq<seq<int>>>
    requires IsGrid(g) && InRange(x, y) && g[x][y] == Empty && 1 <= value <= 10
    decreases EmptyCount(g), 0, 10 - value
  {
    if value == 10 then []
    else
      var here :=
        if value in Choices(g, x, y) then
          EmptyCountPlace(g, x, y, value);
          Solutions(Place(g, x, y, value))
        else [];
      here + Explore(g, x, y, value + 1)
  }

  /** Searches from the current board, appends every completed grid to res
      and leaves the board as it found it. */
  method Dfs(board: Sudoku, res: ResultList)
    requires board.Valid()
    modifies board.field, res
    ensures board.Get() == old(board.Get())
    ensures res.items == old(res.items) + Solutions(old(board.Get()))
    decreases EmptyCount(board.Get())
  {
    ghost var g := board.Get();
    var c := board.FindEmpty();
    FirstEmptyUnique(g, c);
    var (x, y) := c;

    if x == -1 && y == -1 {
      res.Append(board.Get());
      return;
    }

    var choices := board.FindChoices(x, y);
    for value := 1 to 10
      invariant board.Get() == g
      invariant res.items + Explore(g, x, y, value) == old(res.items) + Explore(g, x, y, 1)
    {
      ghost var before := res.items;
      ghost var here := if value in choices then Solutions(Place(g, x, y, value)) else [];
      if value in choices {
        board.Put(x, y, value);
        EmptyCountPlace(g, x, y, value);
        Dfs(board, res);
        board.Reset(x, y);
        PlaceThenClear(g, x, y, value);
      }
      assert res.items == before + here;
      ghost var rest := Explore(g, x, y, value + 1);
      assert Explore(g, x, y, value) == here + rest;
      ConcatAssoc(before, here, rest);
    }
  }

  // ---------------------------------------------------------------------
  // What the recorded grids are

  /** Every recorded grid is full and keeps the starting grid's filled cells;
      it has no duplicate in any unit when the start had none, and holds only
      values 1..9 when the start did. */
  lemma {:induction false} SolutionsSound(g: seq<seq<int>>)
    requires IsGrid(g)
    ensures forall s | s in Solutions(g) :: IsGrid(s) && Full(s) && Extends(s, g)
    ensures Consistent(g) ==> forall s | s in Solutions(g) :: IsGrid(s) && Consistent(s)
    ensures WellFormed(g) ==> forall s | s in Solutions(g) :: IsGrid(s) && WellFormed(s)
    decreases EmptyCount(g), 1, 0
  {
    var c := FirstEmpty(g);
    if c != NoCell {
      ExploreSound(g, c.0, c.1, 1);
    }
  }

  /** The grids recorded while trying value..9 at (x, y) are sound as in
      SolutionsSound, and each holds one of value..9 at (x, y). */
  lemma {:induction false} ExploreSound(g: seq<seq<int>>, x: int, y: int, value: int)
    requires IsGrid(g) && InRange(x, y) && g[x][y] == Empty && 1 <= value <= 10
    ensures forall s | s in Explore(g, x, y, value) ::
      IsGrid(s) && Full(s) && Extends(s, g) && value <= s[x][y] <= 9
    ensures Consistent(g) ==> forall s | s in Explore(g, x, y, value) :: IsGrid(s) && Consistent(s)
    ensures WellFormed(g) ==> forall s | s in Explore(g, x, y, value) :: IsGrid(s) && WellFormed(s)
    decreases EmptyCount(g), 0, 10 - value
  {
    if value < 10 {
      var rest := Explore(g, x, y, value + 1);
      ExploreSound(g, x, y, value + 1);
      if value in Choices(g, x, y) {
        var h := Place(g, x, y, value);
        EmptyCountPlace(g, x, y, value);
        var here := Solutions(h);
        SolutionsSound(h);
        if Consistent(g) {
          ChoicesExact(g, x, y, value);
        }
        forall s | s in here ensures IsGrid(s) && Extends(s, g) && s[x][y] == value {
          assert Extends(s, h);
        }
        assert Explore(g, x, y, value) == here + rest;
      } else {
        assert Explore(g, x, y, value) == [] + rest;
      }
    }
  }

  /** Every solved grid that keeps the filled cells of g is recorded. */
  lemma {:induction false} SolutionsComplete(g: seq<seq<int>>, s: seq<seq<int>>)
    requires IsGrid(g) && IsGrid(s) && Solved(s) && Extends(s, g)
    ensures s in Solutions(g)
    decreases EmptyCount(g)
  {
    var c := FirstEmpty(g);
    if c == NoCell {
      forall i | 0 <= i < 9 ensures s[i] == g[i] {
        assert |s[i]| == |g[i]|;
        forall j | 0 <= j < 9 ensures s[i][j] == g[i][j] {
          assert g[i][j] != Empty;
        }
      }
      assert s == g;
      assert Solutions(g) == [g];
    } else {
      var x, y := c.0, c.1;
      var v := s[x][y];
      CompletionValueIsChoice(g, s, x, y);
      var h := Place(g, x, y, v);
      assert Extends(s, h);
      EmptyCountPlace(g, x, y, v);
      SolutionsComplete(h, s);
      ExploreIncludes(g, x, y, 1, v, s);
      assert Solutions(g) == Explore(g, x, y, 1);
    }
  }

  lemma {:induction false} ExploreIncludes(g: seq<seq<int>>, x: int, y: int, value: int, v: int, s: seq<seq<int>>)
    requires IsGrid(g) && InRange(x, y) && g[x][y] == Empty && 1 <= value <= v <= 9
    requires v in Choices(g, x, y) && s in Solutions(Place(g, x, y, v))
    ensures s in Explore(g, x, y, value)
    decreases v - value
  {
    if value < v {
      ExploreIncludes(g, x, y, value + 1, v, s);
      ExploreKeepsLater(g, x, y, value, s);
    } else {
      ExploreKeepsHere(g, x, y, value, s);
    }
  }

  lemma ExploreKeepsLater(g: seq<seq<int>>, x: int, y: int, value: int, s: seq<seq<int>>)
    requires IsGrid(g) && InRange(x, y) && g[x][y] == Empty && 1 <= value <= 9
    requires s in Explore(g, x, y, value + 1)
    ensures s in Explore(g, x, y, value)
  {
  }

  lemma ExploreKeepsHere(g: seq<seq<int>>, x: int, y: int, value: int, s: seq<seq<int>>)
    requires IsGrid(g) && InRange(x, y) && g[x][y] == Empty && 1 <= value <= 9
    requires value in Choices(g, x, y) && s in Solutions(Place(g, x, y, value))
    ensures s in Explore(g, x, y, value)
  {
  }

  ghost predicate Distinct(gs: seq<seq<seq<int>>>) {
    forall i, j :: 0 <= i < j < |gs| ==> gs[i] != gs[j]
  }

  lemma DistinctConcat(a: seq<seq<seq<int>>>, b: seq<seq<seq<int>>>)
    requires Distinct(a) && Distinct(b)
    requires forall u, w | u in a && w in b :: u != w
    ensures Distinct(a + b)
  {
    forall i, j | 0 <= i < j < |a + b| ensures (a + b)[i] != (a + b)[j] {
      if i < |a| && j >= |a| {
        assert (a + b)[i] in a && (a + b)[j] in b;
      }
    }
  }

  /** No grid is recorded twice. */
  lemma {:induction false} SolutionsDistinct(g: seq<seq<int>>)
    requires IsGrid(g)
    ensures Distinct(Solutions(g))
    decreases EmptyCount(g), 1, 0
  {
    var c := FirstEmpty(g);
    if c != NoCell {
      ExploreDistinct(g, c.0, c.1, 1);
    }
  }

  lemma {:induction false} ExploreDistinct(g: seq<seq<int>>, x: int, y: int, value: int)
    requires IsGrid(g) && InRange(x, y) && g[x][y] == Empty && 1 <= value <= 10
    ensures Distinct(Explore(g, x, y, value))
    decreases EmptyCount(g), 0, 10 - value
  {
    if value < 10 {
      var rest := Explore(g, x, y, value + 1);
      ExploreDistinct(g, x, y, value + 1);
      if value in Choices(g, x, y) {
        var h := Place(g, x, y, value);
        EmptyCountPlace(g, x, y, value);
        var here := Solutions(h);
        SolutionsDistinct(h);
        SolutionsSound(h);
        ExploreSound(g, x, y, value + 1);
        forall u, w | u in here && w in rest ensures u != w {
          assert u[x][y] == value < w[x][y];
        }
        DistinctConcat(here, rest);
        assert Explore(g, x, y, value) == here + rest;
      } else {
        assert Explore(g, x, y, value) == [] + rest;
      }
    }
  }

  /** Started from a grid with no duplicate in any unit and only values in
      1..9, the search records exactly the solved grids that keep its filled
      cells, each of them once. */
  lemma SolutionsExact(g: seq<seq<int>>)
    requires IsGrid(g) && Consistent(g) && WellFormed(g)
    ensures forall s :: s in Solutions(g) <==> IsGrid(s) && Solved(s) && Extends(s, g)
    ensures Distinct(Solutions(g))
  {
    SolutionsSound(g);
    forall s | IsGrid(s) && Solved(s) && Extends(s, g) ensures s in Solutions(g) {
      SolutionsComplete(g, s);
    }
    SolutionsDistinct(g);
  }

  /** The grids recorded while trying value..9 at (x, y) come in ascending
      order of the value at (x, y). */
  lemma {:induction false} ExploreOrdered(g: seq<seq<int>>, x: int, y: int, value: int)
    requires IsGrid(g) && InRange(x, y) && g[x][y] == Empty && 1 <= value <= 10
    ensures forall i, j | 0 <= i < j < |Explore(g, x, y, value)| ::
      IsGrid(Explore(g, x, y, value)[i]) && IsGrid(Explore(g, x, y, value)[j]) &&
      Explore(g, x, y, value)[i][x][y] <= Explore(g, x, y, value)[j][x][y]
    decreases 10 - value
  {
    var e := Explore(g, x, y, value);
    if value < 10 {
      var rest := Explore(g, x, y, value + 1);
      ExploreOrdered(g, x, y, value + 1);
      ExploreSound(g, x, y, value + 1);
      var here: seq<seq<seq<int>>> := [];
      if value in Choices(g, x, y) {
        var h := Place(g, x, y, value);
        EmptyCountPlace(g, x, y, value);
        here := Solutions(h);
        SolutionsSound(h);
        forall s | s in here ensures IsGrid(s) && s[x][y] == value {
          assert Extends(s, h);
        }
      }
      assert e == here + rest;
      forall i, j | 0 <= i < j < |e| ensures IsGrid(e[i]) && IsGrid(e[j]) && e[i][x][y] <= e[j][x][y] {
        if j < |here| {
          assert e[i] == here[i] && here[i] in here;
          assert e[j] == here[j] && here[j] in here;
        } else if i < |here| {
          assert e[i] == here[i] && here[i] in here;
          assert e[j] == rest[j - |here|] && rest[j - |here|] in rest;
        } else {
          assert e[i] == rest[i - |here|] && e[j] == rest[j - |here|];
        }
      }
    }
  }
}
