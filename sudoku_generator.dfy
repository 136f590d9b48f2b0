/**
  The grid generator: a height x width grid of zeros filled in place by a
  backtracking search that tries the digits 1..9 in ascending order at each
  empty cell, row by row. There is no randomisation, no pre-filled diagonal
  and no removal of cells; `difficulty` is stored and never read.
 */
module Generator {
  import opened Wrappers
  import opened GridRules

  /** The integer square root, standing for the truncated floating-point `height ** 0.5`. */
  function IntSqrt(n: nat): (r: nat)
    ensures r * r <= n < (r + 1) * (r + 1)
  {
    SqrtFrom(n, 0)
  }

  function SqrtFrom(n: nat, k: nat): (r: nat)
    requires k * k <= n
    ensures r * r <= n < (r + 1) * (r + 1)
    decreases n - k
  {
    if (k + 1) * (k + 1) > n then k
    else
      assert k + 1 <= (k + 1) * (k + 1);
      SqrtFrom(n, k + 1)
  }

  /**
    The box side divides both dimensions whenever there is a row, so that every
    box `is_safe` scans lies inside the grid (otherwise the scan in the source
    indexes past the end of the grid).
   */
  predicate BoxesFit(width: nat, height: nat) {
    height > 0 ==> IntSqrt(height) > 0 && height % IntSqrt(height) == 0 && width % IntSqrt(height) == 0
  }

  /** A height x width grid of zeros. */
  function Zeros(height: nat, width: nat): (g: Grid)
    ensures |g| == height && forall r :: 0 <= r < height ==> |g[r]| == width
    ensures forall r, c :: 0 <= r < height && 0 <= c < width ==> g[r][c] == 0
  {
    seq(height, _ => seq(width, _ => 0))
  }

  /**
    The grid a new generator holds: the search from (0, 0) over the zero grid
    when it succeeds, the zero grid unchanged when it fails. Either way it has
    no duplicate in any row, column or box, and when the search succeeds every
    cell holds a digit 1..9.
   */
  function Generated(width: nat, height: nat): (g: Grid)
    requires BoxesFit(width, height)
    ensures |g| == height && Shaped(g, width, IntSqrt(height))
    ensures Consistent(g, IntSqrt(height))
    ensures Fill(Zeros(height, width), IntSqrt(height), 0, 0).Some? ==>
              forall r, c :: 0 <= r < height && 0 <= c < width ==> 1 <= g[r][c] <= 9
    ensures Fill(Zeros(height, width), IntSqrt(height), 0, 0).None? ==> g == Zeros(height, width)
  {
    var z := Zeros(height, width);
    var b := IntSqrt(height);
    assert Consistent(z, b);
    match Fill(z, b, 0, 0)
    case Some(h) =>
      FillSound(z, b, 0, 0);
      assert forall r, c :: 0 <= r < height && 0 <= c < width ==> !Before(r, c, 0, 0);
      h
    case None => z
  }

  /**
    When a solved grid of this shape exists at all, the generator produces one,
    and it is the lexicographically least of them (cells read row by row).
   */
  lemma GeneratedIsLeast(width: nat, height: nat, s: Grid)
    requires BoxesFit(width, height)
    requires |s| == height && forall r :: 0 <= r < height ==> |s[r]| == width
    requires forall r, c :: 0 <= r < height && 0 <= c < width ==> 1 <= s[r][c] <= 9
    requires Consistent(s, IntSqrt(height))
    ensures forall r, c :: 0 <= r < height && 0 <= c < width ==> 1 <= Generated(width, height)[r][c] <= 9
    ensures LexLeq(Generated(width, height), s, 0, 0)
  {
    var z := Zeros(height, width);
    assert Completion(z, s, IntSqrt(height), 0, 0);
    FillFindsLeast(z, s, IntSqrt(height), 0, 0);
  }

  class SudokuGenerator {
    const width: nat
    const height: nat
    const difficulty: int
    const boxLength: nat
    var board: Grid

    /** The grid has `height` rows of `width` cells, and boxes of side `boxLength` tile it. */
    ghost predicate Valid()
      reads this
    {
      && |board| == height
      && boxLength == IntSqrt(height)
      && Shaped(board, width, boxLength)
    }

    /** A zero grid of the given size, then filled from (0, 0). */
    constructor (width: nat, height: nat, difficulty: int)
      requires BoxesFit(width, height)
      ensures Valid()
      ensures this.width == width && this.height == height && this.difficulty == difficulty
      ensures board == Generated(width, height)
    {
      this.width := width;
      this.height := height;
      this.difficulty := difficulty;
      board := Zeros(height, width);
      boxLength := IntSqrt(height);
      new;
      FillValues();
    }

    /**
      `num` is absent from row `row`, from column `col` and from the box anchored
      at ((row / boxLength) * boxLength, (col / boxLength) * boxLength).
     */
    method IsSafe(row: nat, col: nat, num: int) returns (safe: bool)
      requires Valid() && row < height && col < width
      ensures safe == Safe(board, boxLength, row, col, num)
    {
      // the row
      if num in board[row] {
        var c :| 0 <= c < |board[row]| && board[row][c] == num;
        assert Peers(boxLength, row, col, row, c);
        return false;
      }
      // the column
      for r := 0 to |board|
        invariant forall k :: 0 <= k < r ==> board[k][col] != num
      {
        if board[r][col] == num {
          assert Peers(boxLength, row, col, r, col);
          return false;
        }
      }
      // the box
      var startRow := (row / boxLength) * boxLength;
      var startCol := (col / boxLength) * boxLength;
      BoxInBounds(boxLength, row, height);
      BoxInBounds(boxLength, col, width);
      for r := startRow to startRow + boxLength
        invariant forall k, c :: startRow <= k < r && startCol <= c < startCol + boxLength ==> board[k][c] != num
      {
        for c := startCol to startCol + boxLength
          invariant forall k :: startCol <= k < c ==> board[r][k] != num
        {
          if board[r][c] == num {
            BoxRange(boxLength, row, r);
            BoxRange(boxLength, col, c);
            assert Peers(boxLength, row, col, r, c);
            return false;
          }
        }
      }
      forall r, c | 0 <= r < |board| && 0 <= c < |board[r]| && Peers(boxLength, row, col, r, c)
        ensures board[r][c] != num
      {
        BoxRange(boxLength, row, r);
        BoxRange(boxLength, col, c);
      }
      return true;
    }

    /** Starts the search at the first cell; its outcome is not reported. */
    method FillValues()
      requires Valid()
      modifies this
      ensures Valid()
      ensures board == match Fill(old(board), boxLength, 0, 0)
                       case Some(h) => h
                       case None => old(board)
    {
      var _ := FillRemaining(0, 0);
    }

    /**
      The backtracking search from (row, col), in place: success leaves the board
      that `Fill` computes, failure leaves the board as it was. Cells before
      (row, col) and cells that were non-zero are never written; on success every
      cell from (row, col) on is non-zero (an empty one holds a digit 1..9); a
      board without duplicates keeps none.
     */
    method FillRemaining(row: nat, col: nat) returns (ok: bool)
      requires Valid()
      modifies this
      ensures Valid()
      ensures ok == Fill(old(board), boxLength, row, col).Some?
      ensures ok ==> board == Fill(old(board), boxLength, row, col).value
      ensures !ok ==> board == old(board)
      ensures forall r, c :: 0 <= r < height && 0 <= c < width && (Before(r, c, row, col) || old(board)[r][c] != 0) ==>
                board[r][c] == old(board)[r][c]
      ensures ok ==> forall r, c :: 0 <= r < height && 0 <= c < width && !Before(r, c, row, col) ==>
                board[r][c] != 0 && (old(board)[r][c] == 0 ==> 1 <= board[r][c] <= 9)
      ensures Consistent(old(board), boxLength) ==> Consistent(board, boxLength)
      decreases height - row, width - col
    {
      if row >= |board| {
        ok := true;
      } else if col >= |board[row]| {
        ok := FillRemaining(row + 1, 0);
      } else if board[row][col] != 0 {
        ok := FillRemaining(row, col + 1);
      } else {
        ghost var start := board;
        ok := false;
        for num := 1 to 10
          invariant board == start && !ok
          invariant TryDigits(start, boxLength, row, col, 1) == TryDigits(start, boxLength, row, col, num)
        {
          var safe := IsSafe(row, col, num);
          if safe {
            board := board[row := board[row][col := num]];
            ok := FillRemaining(row, col + 1);
            if ok {
              break;
            }
            board := board[row := board[row][col := 0]];
            assert board[row] == start[row];
          }
        }
      }
      if ok {
        FillSound(old(board), boxLength, row, col);
      }
    }
  }

  /** The generator's grid: the search's result over the zero grid of the given size. */
  method GenerateSudoku(width: nat, height: nat, difficulty: int) returns (grid: Grid)
    requires BoxesFit(width, height)
    ensures grid == Generated(width, height)
    ensures |grid| == height && forall r :: 0 <= r < height ==> |grid[r]| == width
  {
    var generator := new SudokuGenerator(width, height, difficulty);
    grid := generator.board;
  }
}
