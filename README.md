# Sudoku grid generator and board state, in Dafny

This project models the core of a small Sudoku game written in Python:

- **The generator** (`sudoku_generator.py`). `SudokuGenerator` allocates a
  `height x width` grid of zeros. It then fills the grid in place with a
  backtracking search, `fill_remaining`. The search walks the cells in
  row-major order and skips non-zero cells. At each empty cell it tries the
  digits 1..9 in ascending order. It places the first digit that `is_safe`
  accepts, meaning the digit is not yet in the cell's row, column or box. It
  then recurses, and it resets the cell to 0 when the recursion fails. There
  is no randomisation, no diagonal pre-fill and no cell removal. `difficulty`
  is stored and never read.
- **The board** (`sudoku.py`, without pygame). Each `Cell` has a `value`, a
  `temp_value` and a `selected` mark. A `Board` has 81 cells, an optional
  selected position and an integer grid. `select` deselects every cell and then
  selects one. `place_number` writes into the selected cell only when that
  cell's value is 0, so every non-zero cell is immutable, whoever filled it.
  `update_board` rebuilds the grid from the cells. `is_full` looks for zeros.

Files:

- `wrappers.dfy` (module `Wrappers`): `Option`.
- `grid_rules.dfy` (module `GridRules`): the rules and the search as pure
  definitions. Two cells are `Peers` when they share a row, a column or a box.
  `Safe` says a digit is absent from a cell's peers. `Consistent` says no
  non-zero value repeats among peers. `Fill` and `TryDigits` state the
  backtracking search as functions. The lemmas prove three things about the
  search:
  - soundness: a successful search extends its input and keeps it consistent;
  - completeness: the search succeeds whenever a completion exists;
  - order: trying digits in ascending order makes the search return the
    lexicographically least completion.
- `sudoku_generator.dfy` (module `Generator`): the class `SudokuGenerator`.
  Its grid is a `seq<seq<int>>` field that the methods reassign cell by cell.
  `FillRemaining` is a recursive method with a loop over the digits. It is
  proved to leave exactly the grid that `Fill` computes, or the old grid on
  failure. `GenerateSudoku` is the module-level wrapper.
- `sudoku.dfy` (module `Sudoku`): the classes `Cell` and `Board`. The board
  holds the 9 x 9 cells as a fixed sequence of `Cell` objects. Methods that
  change cells say which cells change and that no other cell does.

Decisions and discrepancies:

- `box_length` is `int(height ** 0.5)` in the source, computed in floating
  point. Here it is `IntSqrt(height)`, the integer square root. The generator
  requires that this box side divides both dimensions (`BoxesFit`). The source
  does one of two things on the other shapes. Some raise in the box scan of
  `is_safe`, which indexes past the end of the grid: width 4 and height 9 give
  side 3, and at cell (0, 3) the scan reads column 4. Others fail before any
  such scan: with width 10 and height 9, every digit is already in row 0 when
  the search reaches (0, 9), so `is_safe` returns false at its row check, the
  search fails everywhere, and the source returns the 9 x 10 zero grid. The
  model excludes both kinds of shape.
- `Board.__init__` calls `generate_sudoku(9, difficulty)` (sudoku.py:41).
  `generate_sudoku` takes three parameters (sudoku_generator.py:54), so that
  call raises. `BoardGridAsWritten` models that call (see Findings). The
  model's `Board` constructor takes the grid as a parameter, and `NewBoard`
  shows the evident intent: generate a 9 x 9 grid, then build the board over
  it.
- In `select`, the loop variable `row` (sudoku.py:57) reuses the parameter's
  name. After the loop, `row` names a list of cells, so line 60 raises. Every
  cell has been deselected by then, and the position is not recorded.
  `Board.Select` models the evident intent. `Board.SelectAsWritten` models the
  code as written (see Findings).
- `self.selected` is `None` until a cell is selected (sudoku.py:43), and a
  `(row, col)` pair afterwards. The test `if self.selected:` is false for
  `None` and true for every pair, even `(0, 0)`, since a non-empty tuple is
  always true in Python. So the model's test is "some position is selected"
  (`selected.Some?`).
- This code has no randomised digit order, no diagonal pre-fill and no cell
  removal. It has no separate "given" flag per cell. The cell's temporary
  value can be written (`set_temp_value`), but the board has no operation that
  writes one into the selected cell. A placed value can never be cleared, and
  there is no board check and no reset to the original grid. The model has
  none of these either.

## Model

| member | source | states |
|---|---|---|
| `Generator.IntSqrt` | sudoku_generator.py:7 | the box side is the largest `r` with `r * r <= height` (the truncated square root) |
| `Generator.Zeros` | sudoku_generator.py:6 | the initial grid has `height` rows of `width` cells, every cell 0 |
| `Generator.SudokuGenerator.constructor` | sudoku_generator.py:2-8 | stores width, height and difficulty; the board is the zero grid filled by the search from (0, 0) (`Generated`) |
| `Generator.Generated` | sudoku_generator.py:6-8 | the new generator's grid has the right shape and no duplicate in any row, column or box; if the search succeeded every cell holds 1..9, otherwise every cell is still 0 |
| `Generator.GeneratedIsLeast` | sudoku_generator.py:44-49 | whenever any solved grid of that shape exists, the generator's grid is solved and is the lexicographically least solved grid |
| `GridRules.Safe` | sudoku_generator.py:10-29 | the peer-based definition of a safe digit: `num` occurs in no cell of the grid that shares the row, the column or the box of (row, col). No contract of its own; `IsSafe` is proved equal to it and `SafeAnchored` ties it to the three scans |
| `Generator.SudokuGenerator.IsSafe` | sudoku_generator.py:10-29 | returns true exactly when `num` is absent from every cell of the same row, column or box (`Safe`) |
| `GridRules.SafeAnchored` | sudoku_generator.py:12-27 | `Safe` is exactly: absent from row `row`, from column `col`, and from the box anchored at `((row / b) * b, (col / b) * b)` |
| `GridRules.BoxRange` | sudoku_generator.py:21-25 | a coordinate lies in the box range anchored at `(x / b) * b` exactly when it has the same quotient by `b` as `x` |
| `GridRules.BoxInBounds` | sudoku_generator.py:21-26 | when `b` divides the grid's length, the box range of a coordinate on the grid stays on the grid |
| `Generator.SudokuGenerator.FillValues` | sudoku_generator.py:31-33 | the board becomes the search's result from (0, 0), or stays as it was if the search fails; the outcome is discarded |
| `Generator.SudokuGenerator.FillRemaining` | sudoku_generator.py:35-52 | returns whether `Fill` succeeds and leaves exactly its grid. On failure the board is unchanged. Cells before (row, col) and non-zero cells are never written. On success every cell from (row, col) on is non-zero, and each one that was empty holds 1..9. A board without duplicates keeps none |
| `GridRules.Fill` | sudoku_generator.py:35-52 | the search of `fill_remaining` as a function: past the last row it succeeds, past a row's end it goes to the next row, it skips non-zero cells, and at an empty cell it tries the digits. No contract of its own; `FillSound`, `FillFindsLeast` and `FillSucceedsIff` state its soundness, completeness and least result |
| `GridRules.TryDigits` | sudoku_generator.py:44-52 | the digit loop at an empty cell: the first digit from `num` on that is safe and from which the rest of the search succeeds is kept, otherwise the search fails. No contract of its own; `TryDigitsSound` and `TryDigitsReaches` state what it returns |
| `GridRules.PlaceKeepsConsistent` | sudoku_generator.py:45-47 | writing a digit that `Safe` allows into an empty cell keeps every row, column and box free of duplicates |
| `GridRules.FillSound` | sudoku_generator.py:35-52 | a successful search keeps every cell before (row, col) and every non-zero cell, fills every empty cell from (row, col) on with 1..9, and keeps a consistent grid consistent |
| `GridRules.TryDigitsSound` | sudoku_generator.py:44-52 | the same for the trial of the digits from `num` on at an empty cell |
| `GridRules.CompletionDigitIsSafe` | sudoku_generator.py:45-46 | the digit any completion puts into an empty cell is a digit 1..9 that `Safe` accepts there |
| `GridRules.TryDigitsReaches` | sudoku_generator.py:45-49 | if digit `d` is safe and the rest of the search succeeds from it, trying digits from `num <= d` succeeds with a digit between `num` and `d`; if that digit is `d`, the result is the search from `d` |
| `GridRules.FillFindsLeast` | sudoku_generator.py:35-52 | if any completion of the grid from (row, col) exists, the search succeeds, and its result is lexicographically at most that completion (ascending trial order, first success kept) |
| `GridRules.FillSucceedsIff` | sudoku_generator.py:35-52 | on a grid without duplicates the search succeeds if and only if a completion exists, and what it returns is one |
| `Generator.GenerateSudoku` | sudoku_generator.py:54-56 | returns the new generator's grid: `height` rows of `width` cells, equal to `Generated` |
| `Sudoku.Cell.constructor` | sudoku.py:5-12 | a new cell has the given value and position, temporary value 0, and is not selected |
| `Sudoku.Cell.SetValue` | sudoku.py:14-15 | sets `value`; the temporary value and selection are unchanged |
| `Sudoku.Cell.SetTempValue` | sudoku.py:17-18 | sets `temp_value`; the value and selection are unchanged |
| `Sudoku.Board.constructor` | sudoku.py:37-43 | cell (i, j) holds `grid[i][j]` with temporary value 0 and is not selected; the board keeps `grid`; no position is selected |
| `Sudoku.Board.Select` | sudoku.py:56-61 | afterwards exactly the cell at (row, col) is selected and the position is recorded; values, temporary values and the grid are unchanged |
| `Sudoku.Board.SelectAsWritten` | sudoku.py:56-60 | as written: every cell ends up deselected and the recorded position is unchanged. The model stops where the source raises at sudoku.py:60, so this is the state the exception leaves |
| `Sudoku.SelectShadowingWitness` | sudoku.py:56-61 | on a board over the zero grid, select (0, 0) as written leaves cell (0, 0) unselected, where the intended version selects it |
| `Sudoku.Board.PlaceNumber` | sudoku.py:63-68 | with a selected cell whose value is 0, writes `value` there and leaves the grid equal to the cells' values. Otherwise the grid and every cell are unchanged. No other cell changes in any case, and no temporary value or selection changes |
| `Sudoku.Board.UpdateBoard` | sudoku.py:70-71 | the grid becomes the 9 x 9 grid of the cells' values |
| `Sudoku.Board.IsFull` | sudoku.py:73-77 | returns true exactly when no entry of the grid is 0, and so, while the grid matches the cells, exactly when no cell's value is 0 |
| `Sudoku.CallGenerateSudoku` | sudoku_generator.py:54-56 | a call with any number of positional arguments other than three raises; a call with three returns the new generator's grid (`Generated`) |
| `Sudoku.BoardGridAsWritten` | sudoku.py:41 | the board's constructor as written, `generate_sudoku(9, difficulty)`, raises |
| `Sudoku.NewBoard` | sudoku.py:41-43 | the board over the generator's 9 x 9 grid: the cells hold the generated grid and nothing is selected |

## Findings

| source | as written | input that shows it | evidently intended | confidence | as-written member | corrected member |
|---|---|---|---|---|---|---|
| sudoku.py:57-60 | the loop `for row in self.cells` rebinds the parameter `row`. `self.cells[row][col]` then indexes with a list and raises, after all cells are deselected and before the position is recorded | `select(0, 0)` on any board | deselect all cells, select the cell at (row, col), record (row, col) | not executed | `Sudoku.Board.SelectAsWritten`, `Sudoku.SelectShadowingWitness` | `Sudoku.Board.Select` |
| sudoku.py:41 | `Board.__init__` calls `generate_sudoku(9, difficulty)` with two arguments, but `generate_sudoku` takes `width, height, difficulty` (sudoku_generator.py:54), so the call raises and no board is built | constructing any `Board`, whatever its difficulty | generate a 9 x 9 grid with `generate_sudoku(9, 9, difficulty)` and build the cells over it | not executed | `Sudoku.BoardGridAsWritten`, `Sudoku.CallGenerateSudoku` | `Sudoku.NewBoard` |

## Left out

- Drawing: `Cell.draw`, `Board.draw`, fonts, rectangles and lines are pygame calls. The presentation fields `screen`, `width`, `height` and the pixel geometry are left out with them.
- The event loop and process lifecycle in `main`. This includes `board.click`, which the source calls but never defines.
- Floating point: `int(height ** 0.5)` is the integer square root here.
- Negative and out-of-range arguments. Width, height, row and column are natural numbers in the generator. `Board.Select` requires a position on the board. In Python, negative indices count from the end of a list, and a too-large index raises.
- Generator.SudokuGenerator.constructor: requires that the box side divides both dimensions (`BoxesFit`). On other shapes the source either raises in the box scan (width 4, height 9, at cell (0, 3)) or fails before reaching it and keeps the zero grid (width 10, height 9). The model covers neither case.
- Generator.GenerateSudoku: has the same `BoxesFit` requirement as the constructor, for the same reason. On the excluded shapes the source raises or returns the zero grid, as described for the constructor.
- Sudoku.CallGenerateSudoku: a three-argument call carries `Generator.GenerateSudoku`'s requirement (natural dimensions, `BoxesFit`). On the excluded shapes the source raises (`[4, 9, d]`) or returns the zero grid (`[10, 9, d]`), as described for the generator's constructor.
- Python's recursion limit: `fill_remaining` recurses once per cell and once per row end, so a tall grid exhausts Python's stack. For example, width 0 and height 1024 meet `BoxesFit` (side 32), yet the source raises `RecursionError` after about 1024 calls. `Generator.GenerateSudoku` returns 1024 empty rows there. The model's recursion is unbounded.
- Sudoku.Board.constructor: requires at least 9 rows of at least 9 cells, which the source indexes. The grid is a parameter instead of the result of the call `generate_sudoku(9, difficulty)`, which raises (`Sudoku.BoardGridAsWritten`). `Sudoku.NewBoard` composes the generator and the board as intended.
- Aliasing: the generator's grid list is handed to the board, which keeps that same list object. Here both are values, and `update_board` replaces the board's grid with a new one.
- No proof that the search succeeds on an empty 9 x 9 grid, because that needs the existence of a solved grid. `Generator.GeneratedIsLeast` is conditional on one existing.
