/**
  The game board without its drawing: 81 cells, each with a value, a pencilled
  temporary value and a selection mark; an optional selected position; and the
  integer grid the board rebuilds from its cells. A cell whose value is
  non-zero (a given digit or one the player placed) cannot be written again.
 */
module Sudoku {
  import opened Wrappers
  import opened GridRules
  import Generator

  class Cell {
    var value: int
    var tempValue: int
    const row: int
    const col: int
    var selected: bool

    /** A cell holds its value, no temporary value, and is not selected. */
    constructor (value: int, row: int, col: int)
      ensures this.value == value && tempValue == 0 && !selected
      ensures this.row == row && this.col == col
    {
      this.value := value;
      tempValue := 0;
      this.row := row;
      this.col := col;
      selected := false;
    }

    method SetValue(value: int)
      modifies this
      ensures this.value == value
      ensures tempValue == old(tempValue) && selected == old(selected)
    {
      this.value := value;
    }

    method SetTempValue(value: int)
      modifies this
      ensures tempValue == value
      ensures this.value == old(this.value) && selected == old(selected)
    {
      tempValue := value;
    }
  }

  class Board {
    const cells: seq<seq<Cell>>
    ghost const Repr: set<Cell>
    var board: Grid
    var selected: Option<(int, int)>

    /**
      Nine rows of nine cells, each knowing its own position (so no cell object
      appears twice); a selection, if any, lies on the board; and the selected
      cell is exactly the one at the selected position.
     */
    ghost predicate Valid()
      reads this, Repr
    {
      && |cells| == 9 && (forall i :: 0 <= i < 9 ==> |cells[i]| == 9)
      && Repr == (set i, j | 0 <= i < 9 && 0 <= j < 9 :: cells[i][j])
      && (forall i, j :: 0 <= i < 9 && 0 <= j < 9 ==> cells[i][j].row == i && cells[i][j].col == j)
      && (selected.Some? ==> 0 <= selected.value.0 < 9 && 0 <= selected.value.1 < 9)
      && (forall i, j :: 0 <= i < 9 && 0 <= j < 9 ==> (cells[i][j].selected <==> selected == Some((i, j))))
    }

    /** The integer grid is the 9 x 9 grid of the cells' values. */
    ghost predicate Synced()
      reads this, Repr
      requires Valid()
    {
      && |board| == 9 && (forall i :: 0 <= i < 9 ==> |board[i]| == 9)
      && forall i, j :: 0 <= i < 9 && 0 <= j < 9 ==> board[i][j] == cells[i][j].value
    }

    /** A digit can be placed: some cell is selected and its value is 0. */
    ghost predicate CanPlace()
      reads this, Repr
      requires Valid()
    {
      selected.Some? && cells[selected.value.0][selected.value.1].value == 0
    }

    /**
      The board over a given grid: cell (i, j) holds grid[i][j], the grid is kept
      as the board's integer grid, and nothing is selected.
     */
    constructor (grid: Grid)
      requires |grid| >= 9 && forall i :: 0 <= i < 9 ==> |grid[i]| >= 9
      ensures Valid() && fresh(Repr)
      ensures board == grid && selected == None
      ensures forall i, j :: 0 <= i < 9 && 0 <= j < 9 ==>
                cells[i][j].value == grid[i][j] && cells[i][j].tempValue == 0 && !cells[i][j].selected
    {
      var rows: seq<seq<Cell>> := [];
      for i := 0 to 9
        invariant |rows| == i && forall k :: 0 <= k < i ==> |rows[k]| == 9
        invariant forall k, l :: 0 <= k < i && 0 <= l < 9 ==>
                    && fresh(rows[k][l]) && rows[k][l].row == k && rows[k][l].col == l
                    && rows[k][l].value == grid[k][l] && rows[k][l].tempValue == 0 && !rows[k][l].selected
      {
        var line: seq<Cell> := [];
        for j := 0 to 9
          invariant |line| == j
          invariant forall l :: 0 <= l < j ==>
                      && fresh(line[l]) && line[l].row == i && line[l].col == l
                      && line[l].value == grid[i][l] && line[l].tempValue == 0 && !line[l].selected
          invariant forall k, l :: 0 <= k < i && 0 <= l < 9 ==>
                      && rows[k][l].value == grid[k][l] && rows[k][l].tempValue == 0 && !rows[k][l].selected
        {
          var cell := new Cell(grid[i][j], i, j);
          line := line + [cell];
        }
        rows := rows + [line];
      }
      cells := rows;
      Repr := set i, j | 0 <= i < 9 && 0 <= j < 9 :: rows[i][j];
      board := grid;
      selected := None;
    }

    /**
      Deselects every cell, then selects the cell at (row, col) and records the
      position. Values and temporary values are not touched.
     */
    method Select(row: int, col: int)
      requires Valid() && 0 <= row < 9 && 0 <= col < 9
      modifies this, Repr
      ensures Valid() && selected == Some((row, col)) && board == old(board)
      ensures forall i, j :: 0 <= i < 9 && 0 <= j < 9 ==> (cells[i][j].selected <==> i == row && j == col)
      ensures forall i, j :: 0 <= i < 9 && 0 <= j < 9 ==>
                cells[i][j].value == old(cells[i][j].value) && cells[i][j].tempValue == old(cells[i][j].tempValue)
    {
      for i := 0 to 9
        invariant forall k, l :: 0 <= k < i && 0 <= l < 9 ==> !cells[k][l].selected
        invariant forall k, l :: 0 <= k < 9 && 0 <= l < 9 ==>
                    cells[k][l].value == old(cells[k][l].value) && cells[k][l].tempValue == old(cells[k][l].tempValue)
        invariant board == old(board) && selected == old(selected)
      {
        for j := 0 to 9
          invariant forall l :: 0 <= l < j ==> !cells[i][l].selected
          invariant forall k, l :: 0 <= k < i && 0 <= l < 9 ==> !cells[k][l].selected
          invariant forall k, l :: 0 <= k < 9 && 0 <= l < 9 ==>
                      cells[k][l].value == old(cells[k][l].value) && cells[k][l].tempValue == old(cells[k][l].tempValue)
          invariant board == old(board) && selected == old(selected)
        {
          cells[i][j].selected := false;
        }
      }
      cells[row][col].selected := true;
      selected := Some((row, col));
    }

    /**
      The selection as the source writes it: the loop variable of the deselecting
      loop reuses the name `row`, so after the loop `row` names the last row of
      cells, a list; indexing the cells with it raises, after every cell has been
      deselected and before the position is recorded. The model ends where the
      source raises: the cells' marks and the recorded position are left as the
      exception leaves them.
     */
    method SelectAsWritten(row: int, col: int)
      requires Valid()
      modifies Repr
      ensures selected == old(selected)
      ensures forall i, j :: 0 <= i < 9 && 0 <= j < 9 ==> !cells[i][j].selected
      ensures forall i, j :: 0 <= i < 9 && 0 <= j < 9 ==>
                cells[i][j].value == old(cells[i][j].value) && cells[i][j].tempValue == old(cells[i][j].tempValue)
    {
      for i := 0 to 9
        invariant forall k, l :: 0 <= k < i && 0 <= l < 9 ==> !cells[k][l].selected
        invariant forall k, l :: 0 <= k < 9 && 0 <= l < 9 ==>
                    cells[k][l].value == old(cells[k][l].value) && cells[k][l].tempValue == old(cells[k][l].tempValue)
      {
        for j := 0 to 9
          invariant forall l :: 0 <= l < j ==> !cells[i][l].selected
          invariant forall k, l :: 0 <= k < i && 0 <= l < 9 ==> !cells[k][l].selected
          invariant forall k, l :: 0 <= k < 9 && 0 <= l < 9 ==>
                      cells[k][l].value == old(cells[k][l].value) && cells[k][l].tempValue == old(cells[k][l].tempValue)
        {
          cells[i][j].selected := false;
        }
      }
      // `row` is now cells[8], which is not an integer index: the subscript raises here.
    }

    /**
      With a cell selected whose value is 0, writes `value` into it and rebuilds
      the integer grid; otherwise changes nothing. No other cell changes, and no
      temporary value or selection changes.
     */
    method PlaceNumber(value: int)
      requires Valid()
      modifies this, Repr
      ensures Valid() && selected == old(selected)
      ensures forall i, j :: 0 <= i < 9 && 0 <= j < 9 && old(selected) != Some((i, j)) ==> unchanged(cells[i][j])
      ensures forall i, j :: 0 <= i < 9 && 0 <= j < 9 ==>
                cells[i][j].tempValue == old(cells[i][j].tempValue) && cells[i][j].selected == old(cells[i][j].selected)
      ensures old(CanPlace()) ==> cells[selected.value.0][selected.value.1].value == value && Synced()
      ensures !old(CanPlace()) ==> board == old(board) && forall i, j :: 0 <= i < 9 && 0 <= j < 9 ==> unchanged(cells[i][j])
    {
      if selected.Some? {
        var (row, col) := selected.value;
        if cells[row][col].value == 0 {
          cells[row][col].SetValue(value);
          UpdateBoard();
        }
      }
    }

    /** Rebuilds the integer grid from the cells' values. */
    method UpdateBoard()
      requires Valid()
      modifies this
      ensures Valid() && Synced() && selected == old(selected)
    {
      board := seq(9, i requires 0 <= i < 9 reads Repr =>
                 seq(9, j requires 0 <= j < 9 reads Repr => cells[i][j].value));
    }

    /** The integer grid has no 0 anywhere. */
    method IsFull() returns (full: bool)
      ensures full <==> forall i, j :: 0 <= i < |board| && 0 <= j < |board[i]| ==> board[i][j] != 0
      ensures Valid() && Synced() ==> (full <==> forall i, j :: 0 <= i < 9 && 0 <= j < 9 ==> cells[i][j].value != 0)
    {
      for i := 0 to |board|
        invariant forall k, j :: 0 <= k < i && 0 <= j < |board[k]| ==> board[k][j] != 0
      {
        if 0 in board[i] {
          return false;
        }
      }
      return true;
    }
  }

  /**
    A new game: the generator's 9 x 9 grid, handed to the board. This is the
    composition the board's constructor evidently means to perform.
   */
  method NewBoard(difficulty: int) returns (b: Board)
    ensures fresh(b) && fresh(b.Repr) && b.Valid() && b.selected == None
    ensures b.board == Generator.Generated(9, 9)
    ensures forall i, j :: 0 <= i < 9 && 0 <= j < 9 ==> b.cells[i][j].value == b.board[i][j]
  {
    assert Generator.SqrtFrom(9, 3) == 3;
    assert Generator.IntSqrt(9) == 3;
    var grid := Generator.GenerateSudoku(9, 9, difficulty);
    b := new Board(grid);
  }

  /** What a call of `generate_sudoku` does: it raises, or it returns a grid. */
  datatype CallOutcome = Raised | Returned(grid: Grid)

  /**
    A call of `generate_sudoku(width, height, difficulty)` with the positional
    arguments `args`: any number of arguments other than three raises before the
    body runs; three arguments run the generator.
   */
  method CallGenerateSudoku(args: seq<int>) returns (outcome: CallOutcome)
    requires |args| == 3 ==> args[0] >= 0 && args[1] >= 0 && Generator.BoxesFit(args[0], args[1])
    ensures outcome == Raised <==> |args| != 3
    ensures |args| == 3 ==> outcome == Returned(Generator.Generated(args[0], args[1]))
  {
    if |args| != 3 {
      outcome := Raised;
    } else {
      var grid := Generator.GenerateSudoku(args[0], args[1], args[2]);
      outcome := Returned(grid);
    }
  }

  /**
    The board's constructor as written asks for `generate_sudoku(9, difficulty)`:
    two arguments where three are required, so the call raises and no board is
    built.
   */
  method BoardGridAsWritten(difficulty: int) returns (outcome: CallOutcome)
    ensures outcome == Raised
  {
    outcome := CallGenerateSudoku([9, difficulty]);
  }

  /**
    The selection as written never marks the requested cell, where the intended
    selection does: shown on a fresh board over the zero grid, at (0, 0).
   */
  method SelectShadowingWitness() returns (asWrittenSelects: bool, intendedSelects: bool)
    ensures !asWrittenSelects && intendedSelects
  {
    var b := new Board(Generator.Zeros(9, 9));
    b.SelectAsWritten(0, 0);
    asWrittenSelects := b.cells[0][0].selected;
    var c := new Board(Generator.Zeros(9, 9));
    c.Select(0, 0);
    intendedSelects := c.cells[0][0].selected;
  }
}
