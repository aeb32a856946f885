# python-sudoku in Dafny

A model of the core of python-sudoku, a Sudoku solver. The board is a 9x9
grid of integers, with -1 marking an empty cell. The board class offers
these operations:

- find the first empty cell in row-major order;
- compute the values 1..9 still legal for a cell from its row, its column
  and its 3x3 box;
- write a cell;
- clear a cell;
- return a copy of the grid.

The solver is a depth-first backtracking search. It fills the first empty
cell with each legal value in turn, recurses, and clears the cell again. It
records a copy of the grid whenever no empty cell is left. A formatter
turns a grid into text: dashed rules, bar separators after every third
column, and a rule after every third row.

The project has four modules:

- `Grid` (grid.dfy) is the specification on grid values (`seq<seq<int>>`):
  - `Place` writes a single cell;
  - `Full`, `WellFormed`, `Consistent` and `Solved` describe grids;
  - `Choices` gives the legal values of a cell;
  - `FirstEmpty` gives the first empty cell;
  - `EmptyCount` counts the empty cells, the measure that makes the search
    terminate.
- `SudokuBoard` (sudoku.dfy) holds the class `Sudoku` over an `array2<int>`.
  Its methods are proved against `Grid`; `Get()` is both the copy operation
  and the abstraction of the board's state.
- `Search` (search.dfy) holds the search `Dfs`, which updates the board in
  place and appends to a `ResultList`. It is proved against `Solutions`, a
  specification of the list of grids it records. Lemmas say what that list
  holds:
  - every grid in it is full and keeps the starting grid's filled cells;
  - if the start is consistent, it holds exactly the solved completions of
    the start;
  - no grid appears twice;
  - grids come in ascending order of the value tried.
- `Formatter` (format.dfy) holds `FormatBoard`, a loop that builds the text
  by appends. It is proved equal to `Formatted`, which is thirteen
  newline-terminated lines. Lemmas cover:
  - how that text splits into lines;
  - where each character of a row sits;
  - reading back the decimal text of a number.

## Model

| member | source | states |
|---|---|---|
| SudokuBoard.Sudoku.constructor | Sudoku.py:9-15 | A new board has its own 9x9 array in which every cell is -1. |
| SudokuBoard.Sudoku.Get | Sudoku.py:17-26 | Returns a grid value equal to the array cell by cell. As a value, it is unaffected by later writes to the board. |
| SudokuBoard.Sudoku.FindEmpty | Sudoku.py:28-41 | Returns the first cell in row-major order that holds -1, with every earlier cell filled. Returns (-1, -1) exactly when no cell holds -1. It modifies nothing. |
| Grid.FirstEmpty | Sudoku.py:37-41 | The recursive scan from (0, 0) meets the first-empty-cell specification: the returned cell is empty and no cell before it is, or it is (-1, -1) and the grid is full. |
| Grid.Scan | Sudoku.py:37-41 | Scanning from (x, y) returns the first empty cell at or after (x, y), or (-1, -1) when every such cell is filled. |
| Grid.FirstEmptyUnique | Sudoku.py:37-41 | Only one answer meets the first-empty-cell specification, so the method and the function agree. |
| SudokuBoard.Sudoku.FindChoices | Sudoku.py:43-79 | Returns exactly the values v in 1..9 with no v in row x, in column y, or in the 3x3 box holding (x, y). It modifies nothing. |
| Grid.BoxStart | Sudoku.py:72-75 | The box of row (or column) i starts at a multiple of 3, no later than i and within two of it, and the box lies inside the grid. |
| Grid.ChoicesExact | Sudoku.py:59-79 | On a grid with no duplicate in any unit, a value 1..9 is a legal choice for an empty cell iff writing it there leaves the grid without duplicates. |
| Grid.CompletionValueIsChoice | Sudoku.py:59-79 | A solved grid that keeps g's filled cells puts into each empty cell of g a value that is a legal choice for that cell of g. |
| Grid.Place | Sudoku.py:94 | Writing v at (x, y) changes that cell to v and leaves every other cell as it was. |
| SudokuBoard.Sudoku.Put | Sudoku.py:81-94 | Sets field[x, y] to value and leaves every other cell unchanged. The new grid is the old one with that cell written. |
| SudokuBoard.Sudoku.Reset | Sudoku.py:96-107 | Sets field[x, y] to -1 and leaves every other cell unchanged. |
| Grid.PlaceThenClear | Sudoku.py:94-107 | Writing a value into an empty cell and then clearing it gives back exactly the original grid. |
| Grid.EmptyCountPlace | main.py:43-45 | Filling an empty cell lowers the number of empty cells by exactly one, so each recursive call of the search has fewer empty cells. |
| Grid.EmptyCountBound | main.py:35 | A grid of rows of 9 cells has at most 9 empty cells per row, so a board has at most 81 and the recursion is at most 81 deep. |
| Search.ResultList.Append | main.py:38 | Appending adds the grid at the end and keeps every earlier entry. |
| Search.Dfs | main.py:13-51 | When the search returns, the board equals the board on entry. The result list is its old contents followed by Solutions of the entry grid, in depth-first order with values tried in ascending order. Earlier entries are never removed or changed. |
| Search.SolutionsSound | main.py:35-45 | Every recorded grid is full and agrees with the starting grid on its filled cells. It has no duplicate in any unit if the start had none, and holds only 1..9 if the start did. |
| Search.ExploreSound | main.py:43-45 | The grids recorded while trying values from `value` at (x, y) are sound in the same way, and each holds one of value..9 at (x, y). |
| Search.SolutionsComplete | main.py:35-46 | Every solved grid that keeps the starting grid's filled cells is recorded. |
| Search.ExploreIncludes | main.py:43-45 | A grid recorded after writing a legal value v at (x, y) is among the grids recorded by the loop started at any value up to v. |
| Search.SolutionsDistinct | main.py:43-45 | No grid is recorded twice. |
| Search.SolutionsExact | main.py:13-51 | From a start with no duplicate in any unit and only values -1 and 1..9, a grid is recorded iff it is a solved Sudoku keeping the start's filled cells. Each such grid is recorded once. |
| Search.ExploreOrdered | main.py:43 | The grids recorded at a cell appear in ascending order of the value written there. |
| Formatter.NatToString | main.py:93 | The decimal text of a natural number is non-empty and made of digits only. |
| Formatter.IntToString | main.py:93 | The text of an integer is non-empty and made of digits and '-'. A value 0..9 prints as its single digit. |
| Formatter.IntToStringValue | main.py:93 | Reading the printed text of an integer back as a decimal gives the integer. |
| Formatter.CellsSoFarIsRowLine | main.py:91-95 | An opening "| " followed by the nine cells, each written as its value and a space with "| " after columns 2, 5 and 8, makes the row's line. |
| Formatter.CellStep | main.py:92-95 | Each pass of the inner loop extends the row's text by one cell, and by the bar separator after every third cell. |
| Formatter.RowStep | main.py:90-98 | Each pass of the outer loop extends the text by the row's line and, after rows 2, 5 and 8, by a rule line. |
| Formatter.RowsSoFarLines | main.py:88-98 | After x rows the text is the first LinesBefore(x) lines of the layout, each followed by a newline. |
| Formatter.FormatBoard | main.py:74-99 | Returns exactly Formatted(board), which is thirteen newline-terminated lines. |
| Formatter.FormattedLines | main.py:88-98 | Split at newlines, the text is 13 lines, each followed by a newline. Lines 0, 4, 8 and 12 are the 25-dash rule; the others are rows 0..8 in order. |
| Formatter.RowLineChars | main.py:91-96 | In a row of single-digit values the line has 26 characters. The digit of column y is at 2 + 2y + 2(y/3), followed by a space. "| " sits at 0, 8, 16 and 24. |

## Left out

- `main()` (main.py:102-158) is not part of this model: file and path handling, reading puzzles, timing and printing are I/O. So are `format_print` (main.py:54-71) and the command-line entry point.
- `board.process()` (main.py:33) is called but not defined in Sudoku.py. `Search.Dfs` omits that step.
- The `copy.deepcopy` lines (main.py:30, 40, 48, 51) only rebind the local name `board`, and the copies share the class-level array. They do not change what the caller sees, so they are not modelled.
- SudokuBoard.Sudoku.constructor: in the source, `field` is a class attribute (Sudoku.py:9), so every `Sudoku` object shares one array. A new board starts all -1 only if no earlier board wrote to that array. The model gives each board its own array.
- SudokuBoard.Sudoku.FindChoices requires 0 <= x, y < 9. numpy would wrap negative indexes and reject larger ones. The search only passes cells returned by `find_empty`.
- SudokuBoard.Sudoku.Put and SudokuBoard.Sudoku.Reset require 0 <= x, y < 9, for the same reason.
- Search.Dfs: `find_choices` returns a Python set, and the loop follows the set's iteration order. For the small non-negative integers 1..9, CPython iterates that order ascending. The model tries the values 1..9 in ascending order and checks membership in the returned set.
- Search.Dfs: the result list `res` is modelled as a `ResultList` object holding a sequence of grid values; each entry is the copy `get()` returns.
- Grid.FirstEmpty: (-1, -1) means no cell holds -1. It means every cell holds 1..9 only on a grid that holds -1 or 1..9 in each cell.
- numpy arrays become `array2<int>` on the board and `seq<seq<int>>` for grid values. numpy's fixed-width integers are unbounded integers here, since every value is -1..9.
