/**
  The rules of the grid that the generator fills: which cells see each other
  (same row, same column, same box), when a digit may be placed, when a grid
  has no duplicate, and the backtracking search itself as a pure function.
  The generator's class is proved against these definitions.
 */
module GridRules {
  import opened Wrappers

  /** A grid as the generator and the board hold it: a list of rows, 0 meaning an empty cell. */
  type Grid = seq<seq<int>>

  /** Every row has `w` cells and, unless the grid is empty, boxes of side `b` tile it exactly. */
  predicate Shaped(g: Grid, w: nat, b: nat) {
    && (forall r :: 0 <= r < |g| ==> |g[r]| == w)
    && (|g| > 0 ==> b > 0 && |g| % b == 0 && w % b == 0)
  }

  /** Two cells lie in the same `b` x `b` box. */
  predicate SameBox(b: nat, r1: int, c1: int, r2: int, c2: int) {
    b > 0 && r1 / b == r2 / b && c1 / b == c2 / b
  }

  /** Two cells constrain each other: same row, same column or same box. */
  predicate Peers(b: nat, r1: int, c1: int, r2: int, c2: int) {
    r1 == r2 || c1 == c2 || SameBox(b, r1, c1, r2, c2)
  }

  /** `num` occurs nowhere in the row, the column or the box of (row, col). */
  predicate Safe(g: Grid, b: nat, row: int, col: int, num: int) {
    forall r, c :: 0 <= r < |g| && 0 <= c < |g[r]| && Peers(b, row, col, r, c) ==> g[r][c] != num
  }

  /** No non-zero value occurs twice among the cells of any row, column or box. */
  predicate Consistent(g: Grid, b: nat) {
    forall r1, c1, r2, c2 ::
      && 0 <= r1 < |g| && 0 <= c1 < |g[r1]|
      && 0 <= r2 < |g| && 0 <= c2 < |g[r2]|
      && (r1 != r2 || c1 != c2) && Peers(b, r1, c1, r2, c2) && g[r1][c1] != 0
      ==> g[r1][c1] != g[r2][c2]
  }

  /** The grid `g` with `num` written into cell (row, col). */
  function Place(g: Grid, row: nat, col: nat, num: int): (h: Grid)
    requires row < |g| && col < |g[row]|
    ensures |h| == |g| && (forall r :: 0 <= r < |g| ==> |h[r]| == |g[r]|)
    ensures h[row][col] == num
    ensures forall r, c :: 0 <= r < |g| && 0 <= c < |g[r]| && (r != row || c != col) ==> h[r][c] == g[r][c]
  {
    g[row := g[row][col := num]]
  }

  /** Cell (r, c) comes strictly before (row, col) in row-major order. */
  predicate Before(r: int, c: int, row: int, col: int) {
    r < row || (r == row && c < col)
  }

  /**
    `h` is what a successful search from (row, col) may leave of `g`: the same
    shape, every cell before (row, col) and every non-zero cell kept, and every
    empty cell from (row, col) on holding a digit 1..9.
   */
  predicate Extends(g: Grid, h: Grid, row: int, col: int) {
    && |h| == |g|
    && (forall r :: 0 <= r < |g| ==> |h[r]| == |g[r]|)
    && (forall r, c :: 0 <= r < |g| && 0 <= c < |g[r]| && (Before(r, c, row, col) || g[r][c] != 0) ==> h[r][c] == g[r][c])
    && (forall r, c :: 0 <= r < |g| && 0 <= c < |g[r]| && !Before(r, c, row, col) && g[r][c] == 0 ==> 1 <= h[r][c] <= 9)
  }

  /** `h` completes `g` from (row, col) and has no duplicate in any row, column or box. */
  predicate Completion(g: Grid, h: Grid, b: nat, row: int, col: int) {
    Extends(g, h, row, col) && Consistent(h, b)
  }

  /**
    `h` is lexicographically at most `h'` when the cells from (row, col) on are
    read in row-major order (both grids having the shape of `h`).
   */
  predicate LexLeq(h: Grid, h': Grid, row: nat, col: nat)
    requires |h'| == |h| && forall r :: 0 <= r < |h| ==> |h'[r]| == |h[r]|
    decreases |h| - row, if row < |h| then |h[row]| - col else 0
  {
    if row >= |h| then true
    else if col >= |h[row]| then LexLeq(h, h', row + 1, 0)
    else h[row][col] < h'[row][col] || (h[row][col] == h'[row][col] && LexLeq(h, h', row, col + 1))
  }

  /** Cells left in row `row` from column `col` on; the search's inner termination measure. */
  function ColsLeft(g: Grid, row: nat, col: nat): int {
    if row < |g| then |g[row]| - col else 0
  }

  /**
    The backtracking search from (row, col) in row-major order: past the last
    row it succeeds; past the end of a row it moves to the next row; it skips
    non-zero cells; at an empty cell it tries the digits 1..9 in ascending order.
   */
  function Fill(g: Grid, b: nat, row: nat, col: nat): Option<Grid>
    decreases |g| - row, ColsLeft(g, row, col), 1, 0
  {
    if row >= |g| then Some(g)
    else if col >= |g[row]| then Fill(g, b, row + 1, 0)
    else if g[row][col] != 0 then Fill(g, b, row, col + 1)
    else TryDigits(g, b, row, col, 1)
  }

  /**
    The digits num..9 at the empty cell (row, col): the first digit that is safe
    and from which the rest of the search succeeds is kept; if none is, the
    search fails.
   */
  function TryDigits(g: Grid, b: nat, row: nat, col: nat, num: nat): Option<Grid>
    requires row < |g| && col < |g[row]|
    decreases |g| - row, ColsLeft(g, row, col), 0, 10 - num
  {
    if num > 9 then None
    else if Safe(g, b, row, col, num) && Fill(Place(g, row, col, num), b, row, col + 1).Some? then
      Fill(Place(g, row, col, num), b, row, col + 1)
    else TryDigits(g, b, row, col, num + 1)
  }

  // ---------------------------------------------------------------------------
  // Boxes anchored at ((x / b) * b, (y / b) * b)

  lemma MulMonotone(p: int, q: int, b: nat)
    requires p <= q
    ensures p * b <= q * b
  {
    assert q * b - p * b == (q - p) * b;
  }

  /** A coordinate lies in the box range anchored at (x / b) * b exactly when it has the same quotient. */
  lemma {:induction false} BoxRange(b: nat, x: nat, y: int)
    requires b > 0
    ensures ((x / b) * b <= y < (x / b) * b + b) <==> (y >= 0 && y / b == x / b)
  {
    var q := x / b;
    if q * b <= y < q * b + b {
      var p := y / b;
      assert y == p * b + y % b;
      if p < q {
        assert (p + 1) * b == p * b + b;
        MulMonotone(p + 1, q, b);
      } else if p > q {
        assert (q + 1) * b == q * b + b;
        MulMonotone(q + 1, p, b);
      }
    }
    if y >= 0 && y / b == q {
      assert y == q * b + y % b;
    }
  }

  /** The box range that contains coordinate x fits inside a length that b divides. */
  lemma BoxInBounds(b: nat, x: nat, n: nat)
    requires b > 0 && x < n && n % b == 0
    ensures 0 <= (x / b) * b && (x / b) * b + b <= n
  {
    var q := x / b;
    var m := n / b;
    assert n == m * b;
    assert x == q * b + x % b;
    if q >= m {
      MulMonotone(m, q, b);
    }
    MulMonotone(q + 1, m, b);
    assert (q + 1) * b == q * b + b;
    MulMonotone(0, q, b);
  }

  /**
    On a shaped grid, `Safe` is the check as the generator scans it: `num` is
    absent from row `row`, from column `col`, and from the b x b box whose top
    left cell is ((row / b) * b, (col / b) * b).
   */
  lemma SafeAnchored(g: Grid, w: nat, b: nat, row: nat, col: nat, num: int)
    requires Shaped(g, w, b) && row < |g| && col < w
    ensures Safe(g, b, row, col, num) <==>
              && (forall c :: 0 <= c < w ==> g[row][c] != num)
              && (forall r :: 0 <= r < |g| ==> g[r][col] != num)
              && (forall r, c :: (row / b) * b <= r < (row / b) * b + b && (col / b) * b <= c < (col / b) * b + b ==>
                    0 <= r < |g| && 0 <= c < w && g[r][c] != num)
  {
    BoxInBounds(b, row, |g|);
    BoxInBounds(b, col, w);
    forall r, c ensures (row / b) * b <= r < (row / b) * b + b && (col / b) * b <= c < (col / b) * b + b <==>
                          (r >= 0 && c >= 0 && SameBox(b, row, col, r, c))
    {
      BoxRange(b, row, r);
      BoxRange(b, col, c);
    }
  }

  // ---------------------------------------------------------------------------
  // Placing a safe digit keeps the grid consistent

  /** Writing a digit that `Safe` allows into an empty cell keeps every row, column and box free of duplicates. */
  lemma PlaceKeepsConsistent(g: Grid, b: nat, row: nat, col: nat, num: int)
    requires row < |g| && col < |g[row]| && g[row][col] == 0
    requires Consistent(g, b) && Safe(g, b, row, col, num)
    ensures Consistent(Place(g, row, col, num), b)
  {
    var h := Place(g, row, col, num);
    forall r1, c1, r2, c2 |
      && 0 <= r1 < |h| && 0 <= c1 < |h[r1]|
      && 0 <= r2 < |h| && 0 <= c2 < |h[r2]|
      && (r1 != r2 || c1 != c2) && Peers(b, r1, c1, r2, c2) && h[r1][c1] != 0
      ensures h[r1][c1] != h[r2][c2]
    {
      if r1 == row && c1 == col {
        assert g[r2][c2] != num;
      } else if r2 == row && c2 == col {
        assert Peers(b, row, col, r1, c1);
        assert g[r1][c1] != num;
      }
    }
  }

  // ---------------------------------------------------------------------------
  // Soundness: what a successful search returns

  /** A successful search extends its input and keeps a consistent input consistent. */
  lemma {:induction false} FillSound(g: Grid, b: nat, row: nat, col: nat)
    requires Fill(g, b, row, col).Some?
    ensures Extends(g, Fill(g, b, row, col).value, row, col)
    ensures Consistent(g, b) ==> Consistent(Fill(g, b, row, col).value, b)
    decreases |g| - row, ColsLeft(g, row, col), 1, 0
  {
    if row >= |g| {
    } else if col >= |g[row]| {
      FillSound(g, b, row + 1, 0);
    } else if g[row][col] != 0 {
      FillSound(g, b, row, col + 1);
    } else {
      TryDigitsSound(g, b, row, col, 1);
    }
  }

  /** A successful trial of the digits from `num` on extends its input and keeps consistency. */
  lemma {:induction false} TryDigitsSound(g: Grid, b: nat, row: nat, col: nat, num: nat)
    requires row < |g| && col < |g[row]| && g[row][col] == 0
    requires TryDigits(g, b, row, col, num).Some?
    ensures Extends(g, TryDigits(g, b, row, col, num).value, row, col)
    ensures Consistent(g, b) ==> Consistent(TryDigits(g, b, row, col, num).value, b)
    decreases |g| - row, ColsLeft(g, row, col), 0, 10 - num
  {
    var g' := Place(g, row, col, num);
    if Safe(g, b, row, col, num) && Fill(g', b, row, col + 1).Some? {
      FillSound(g', b, row, col + 1);
      if Consistent(g, b) {
        PlaceKeepsConsistent(g, b, row, col, num);
      }
      assert 1 <= num <= 9;
    } else {
      TryDigitsSound(g, b, row, col, num + 1);
    }
  }

  // ---------------------------------------------------------------------------
  // Completeness and order: the search finds the least completion

  /** The digit a completion holds at an empty cell is one that `Safe` allows there. */
  lemma CompletionDigitIsSafe(g: Grid, h: Grid, b: nat, row: nat, col: nat)
    requires row < |g| && col < |g[row]| && g[row][col] == 0
    requires Completion(g, h, b, row, col)
    ensures 1 <= h[row][col] <= 9 && Safe(g, b, row, col, h[row][col])
  {
    var d := h[row][col];
    assert !Before(row, col, row, col);
    forall r, c | 0 <= r < |g| && 0 <= c < |g[r]| && Peers(b, row, col, r, c)
      ensures g[r][c] != d
    {
      if (r != row || c != col) && g[r][c] != 0 {
        assert h[r][c] == g[r][c];
        assert h[row][col] != h[r][c];
      }
    }
  }

  /** A completion of `g` from (row, col) holding `d` there completes `g` with `d` placed, from the next cell. */
  lemma CompletionAfterPlace(g: Grid, h: Grid, b: nat, row: nat, col: nat)
    requires row < |g| && col < |g[row]| && g[row][col] == 0
    requires Completion(g, h, b, row, col)
    ensures Completion(Place(g, row, col, h[row][col]), h, b, row, col + 1)
  {
    var g' := Place(g, row, col, h[row][col]);
    forall r, c | 0 <= r < |g'| && 0 <= c < |g'[r]| && (Before(r, c, row, col + 1) || g'[r][c] != 0)
      ensures h[r][c] == g'[r][c]
    {
      if r != row || c != col {
        assert g'[r][c] == g[r][c];
      }
    }
    forall r, c | 0 <= r < |g'| && 0 <= c < |g'[r]| && !Before(r, c, row, col + 1) && g'[r][c] == 0
      ensures 1 <= h[r][c] <= 9
    {
      assert g'[r][c] == g[r][c];
    }
  }

  /** Extending from the first cell of the next row is the same as extending from past the end of this row. */
  lemma ExtendsNextRow(g: Grid, h: Grid, row: nat, col: nat)
    requires row < |g| && col >= |g[row]|
    ensures Extends(g, h, row, col) <==> Extends(g, h, row + 1, 0)
  {
    assert forall r, c :: 0 <= r < |g| && 0 <= c < |g[r]| ==> (Before(r, c, row, col) <==> Before(r, c, row + 1, 0));
  }

  /** Extending from a non-zero cell is the same as extending from the cell after it. */
  lemma ExtendsSkip(g: Grid, h: Grid, row: nat, col: nat)
    requires row < |g| && col < |g[row]| && g[row][col] != 0
    ensures Extends(g, h, row, col) <==> Extends(g, h, row, col + 1)
  {
  }

  /**
    Trying the digits from `num` on reaches one that succeeds no later than `d`,
    when `d` is safe and the rest of the search succeeds from it; what is found
    holds that digit at (row, col), and when it is `d` itself the result is the
    search from `d`.
   */
  lemma {:induction false} TryDigitsReaches(g: Grid, b: nat, row: nat, col: nat, num: nat, d: nat)
    requires row < |g| && col < |g[row]| && g[row][col] == 0
    requires 1 <= num <= d <= 9
    requires Safe(g, b, row, col, d) && Fill(Place(g, row, col, d), b, row, col + 1).Some?
    ensures TryDigits(g, b, row, col, num).Some?
    ensures Extends(g, TryDigits(g, b, row, col, num).value, row, col)
    ensures num <= TryDigits(g, b, row, col, num).value[row][col] <= d
    ensures TryDigits(g, b, row, col, num).value[row][col] == d ==>
              TryDigits(g, b, row, col, num) == Fill(Place(g, row, col, d), b, row, col + 1)
    decreases d - num
  {
    var g' := Place(g, row, col, num);
    if Safe(g, b, row, col, num) && Fill(g', b, row, col + 1).Some? {
      FillSound(g', b, row, col + 1);
      assert Before(row, col, row, col + 1);
    } else {
      TryDigitsReaches(g, b, row, col, num + 1, d);
    }
  }

  /**
    Whenever a completion `h'` of `g` from (row, col) exists, the search
    succeeds, and what it returns is lexicographically at most `h'`: the
    ascending trial order makes the search return the least completion.
   */
  lemma {:induction false} FillFindsLeast(g: Grid, h': Grid, b: nat, row: nat, col: nat)
    requires Completion(g, h', b, row, col)
    ensures Fill(g, b, row, col).Some?
    ensures Extends(g, Fill(g, b, row, col).value, row, col)
    ensures LexLeq(Fill(g, b, row, col).value, h', row, col)
    decreases |g| - row, ColsLeft(g, row, col)
  {
    if row >= |g| {
    } else if col >= |g[row]| {
      ExtendsNextRow(g, h', row, col);
      FillFindsLeast(g, h', b, row + 1, 0);
      ExtendsNextRow(g, Fill(g, b, row + 1, 0).value, row, col);
    } else if g[row][col] != 0 {
      ExtendsSkip(g, h', row, col);
      FillFindsLeast(g, h', b, row, col + 1);
      var h := Fill(g, b, row, col + 1).value;
      ExtendsSkip(g, h, row, col);
      assert !Before(row, col, row, col);
      assert h[row][col] == g[row][col] == h'[row][col];
    } else {
      var d: nat := h'[row][col];
      CompletionDigitIsSafe(g, h', b, row, col);
      CompletionAfterPlace(g, h', b, row, col);
      var g' := Place(g, row, col, d);
      FillFindsLeast(g', h', b, row, col + 1);
      TryDigitsReaches(g, b, row, col, 1, d);
      TryDigitsSound(g, b, row, col, 1);
    }
  }

  /** For a grid without duplicates, the search succeeds exactly when a completion exists, and then returns one. */
  lemma FillSucceedsIff(g: Grid, b: nat, row: nat, col: nat)
    requires Consistent(g, b)
    ensures Fill(g, b, row, col).Some? <==> exists h :: Completion(g, h, b, row, col)
    ensures Fill(g, b, row, col).Some? ==> Completion(g, Fill(g, b, row, col).value, b, row, col)
  {
    if Fill(g, b, row, col).Some? {
      FillSound(g, b, row, col);
      assert Completion(g, Fill(g, b, row, col).value, b, row, col);
    }
    if h :| Completion(g, h, b, row, col) {
      FillFindsLeast(g, h, b, row, col);
    }
  }
}
