// N-Queens by backtracking: a search over an n x n board of 0/1 cells that the
// solver mutates in place, placing a queen, recursing on the next row and
// removing the queen again when the recursion fails.

module Queens {
  import opened Counters

  /** The contents of a board, row by row. */
  type Grid = seq<seq<int>>

  /** A board of n rows of n cells. */
  predicate Square(g: Grid, n: nat)
  {
    |g| == n && forall r :: 0 <= r < n ==> |g[r]| == n
  }

  function Min(x: int, y: int): int
  {
    if x < y then x else y
  }

  // ---------------------------------------------------------------------------
  // The safety test: which cells _is_safe_n_queens reads, in the order it reads them.
  // ---------------------------------------------------------------------------

  /** Column col from the top row down to the row above `row`. */
  function ColumnAbove(g: Grid, n: nat, row: nat, col: nat): (cells: seq<int>)
    requires Square(g, n) && row < n && col < n
    ensures |cells| == row
  {
    seq(row, i requires 0 <= i < row => g[i][col])
  }

  /** The diagonal going up and left, starting at (row, col) itself. */
  function UpLeft(g: Grid, n: nat, row: nat, col: nat): (cells: seq<int>)
    requires Square(g, n) && row < n && col < n
    ensures |cells| == Min(row, col) + 1
  {
    seq(Min(row, col) + 1, k requires 0 <= k < Min(row, col) + 1 => g[row - k][col - k])
  }

  /** The diagonal going up and right, starting at (row, col) itself. */
  function UpRight(g: Grid, n: nat, row: nat, col: nat): (cells: seq<int>)
    requires Square(g, n) && row < n && col < n
    ensures |cells| == Min(row + 1, n - col)
  {
    seq(Min(row + 1, n - col), k requires 0 <= k < Min(row + 1, n - col) => g[row - k][col + k])
  }

  /** Position of the first queen (a cell holding 1) in a scan, or the length when there is none. */
  function FirstQueen(cells: seq<int>): (k: nat)
    ensures k <= |cells|
  {
    if cells == [] then 0
    else if cells[0] == 1 then 0
    else 1 + FirstQueen(cells[1..])
  }

  /** A scan that meets no queen. */
  predicate Clear(cells: seq<int>)
  {
    FirstQueen(cells) == |cells|
  }

  /** Cells a scan reads: all of them, or up to and including the first queen. */
  function ScanCost(cells: seq<int>): nat
  {
    if Clear(cells) then |cells| else FirstQueen(cells) + 1
  }

  /** The answer of the safety test: the column above and both upward diagonals hold no queen. */
  predicate Safe(g: Grid, n: nat, row: nat, col: nat)
    requires Square(g, n) && row < n && col < n
  {
    Clear(ColumnAbove(g, n, row, col)) && Clear(UpLeft(g, n, row, col)) && Clear(UpRight(g, n, row, col))
  }

  /** Comparisons the safety test charges: each scan runs only when the earlier ones met no queen. */
  function SafetyCost(g: Grid, n: nat, row: nat, col: nat): nat
    requires Square(g, n) && row < n && col < n
  {
    var column, left, right := ColumnAbove(g, n, row, col), UpLeft(g, n, row, col), UpRight(g, n, row, col);
    ScanCost(column)
    + (if Clear(column) then ScanCost(left) + (if Clear(left) then ScanCost(right) else 0) else 0)
  }

  /**
   * A scan charges no more comparisons than it has cells; it is clear exactly
   * when no cell holds 1; and one that meets a queen charges at least one.
   */
  lemma ScanCostBounds(cells: seq<int>)
    ensures ScanCost(cells) <= |cells|
    ensures Clear(cells) <==> (forall j :: 0 <= j < |cells| ==> cells[j] != 1)
    ensures !Clear(cells) ==> 1 <= ScanCost(cells)
  {
    FirstQueenIsFirst(cells);
  }

  /** FirstQueen is the index of the first 1: none before it, and a 1 there unless it is the length. */
  lemma {:induction false} FirstQueenIsFirst(cells: seq<int>)
    ensures forall j :: 0 <= j < FirstQueen(cells) ==> cells[j] != 1
    ensures FirstQueen(cells) < |cells| ==> cells[FirstQueen(cells)] == 1
  {
    if cells != [] && cells[0] != 1 {
      FirstQueenIsFirst(cells[1..]);
      forall j | 0 < j < FirstQueen(cells)
        ensures cells[j] != 1
      {
        assert cells[j] == cells[1..][j - 1];
      }
    }
  }

  // ---------------------------------------------------------------------------
  // Placements: the board described by the column of the queen in each filled row.
  // ---------------------------------------------------------------------------

  /** The cell value at (r, k) when rows 0..|cols|-1 hold one queen each, in column cols[r]. */
  function Mark(cols: seq<int>, r: int, k: int): int
  {
    if 0 <= r < |cols| && cols[r] == k then 1 else 0
  }

  /** The board holding exactly the queens of cols; rows from |cols| on are empty. */
  function BoardOf(cols: seq<int>, n: nat): (g: Grid)
    ensures Square(g, n)
  {
    seq(n, r => seq(n, k => Mark(cols, r, k)))
  }

  /** Every queen is on the board. */
  predicate InRange(cols: seq<int>, n: nat)
  {
    forall r :: 0 <= r < |cols| ==> 0 <= cols[r] < n
  }

  /** A queen in row j at column y attacks one in row i at column x (i < j). */
  predicate Attacks(i: int, x: int, j: int, y: int)
  {
    x == y || j - i == y - x || j - i == x - y
  }

  /** No two queens share a column or a diagonal (rows are distinct by construction). */
  predicate NonAttacking(cols: seq<int>)
  {
    forall i, j :: 0 <= i < j < |cols| ==> !Attacks(i, cols[i], j, cols[j])
  }

  /** A queen in the next row, column col, is attacked by none of the queens above it. */
  predicate Compatible(cols: seq<int>, col: int)
  {
    forall i :: 0 <= i < |cols| ==> !Attacks(i, cols[i], |cols|, col)
  }

  /** A complete placement: n queens, one per row, on the board, none attacking another. */
  predicate Solution(s: seq<int>, n: nat)
  {
    |s| == n && InRange(s, n) && NonAttacking(s)
  }

  /** The column scan meets no queen exactly when no queen above shares the column. */
  lemma ColumnClearIff(cols: seq<int>, n: nat, col: nat)
    requires |cols| < n && col < n
    ensures Clear(ColumnAbove(BoardOf(cols, n), n, |cols|, col)) <==> forall i :: 0 <= i < |cols| ==> cols[i] != col
  {
    var column := ColumnAbove(BoardOf(cols, n), n, |cols|, col);
    ScanCostBounds(column);
    assert forall i :: 0 <= i < |cols| ==> (column[i] == 1 <==> cols[i] == col);
  }

  /** The up-left scan meets no queen exactly when no queen above lies on that diagonal. */
  lemma UpLeftClearIff(cols: seq<int>, n: nat, col: nat)
    requires |cols| < n && col < n && InRange(cols, n)
    ensures Clear(UpLeft(BoardOf(cols, n), n, |cols|, col)) <==> forall i :: 0 <= i < |cols| ==> |cols| - i != col - cols[i]
  {
    var row := |cols|;
    var left := UpLeft(BoardOf(cols, n), n, row, col);
    ScanCostBounds(left);
    assert left[0] == 0;
    assert forall k :: 0 < k < |left| ==> (left[k] == 1 <==> k == col - cols[row - k]);
    if exists i :: 0 <= i < |cols| && |cols| - i == col - cols[i] {
      var i :| 0 <= i < |cols| && |cols| - i == col - cols[i];
      assert left[row - i] == 1;
    }
  }

  /** The up-right scan meets no queen exactly when no queen above lies on that diagonal. */
  lemma UpRightClearIff(cols: seq<int>, n: nat, col: nat)
    requires |cols| < n && col < n && InRange(cols, n)
    ensures Clear(UpRight(BoardOf(cols, n), n, |cols|, col)) <==> forall i :: 0 <= i < |cols| ==> |cols| - i != cols[i] - col
  {
    var row := |cols|;
    var right := UpRight(BoardOf(cols, n), n, row, col);
    ScanCostBounds(right);
    assert right[0] == 0;
    assert forall k :: 0 < k < |right| ==> (right[k] == 1 <==> k == cols[row - k] - col);
    if exists i :: 0 <= i < |cols| && |cols| - i == cols[i] - col {
      var i :| 0 <= i < |cols| && |cols| - i == cols[i] - col;
      assert right[row - i] == 1;
    }
  }

  /**
   * On a board that holds the queens of cols and nothing below them, the
   * safety test for row |cols| answers exactly whether the new queen is
   * attacked by none of them.
   */
  lemma SafeIffCompatible(cols: seq<int>, n: nat, col: nat)
    requires |cols| < n && col < n && InRange(cols, n)
    ensures Safe(BoardOf(cols, n), n, |cols|, col) <==> Compatible(cols, col)
  {
    ColumnClearIff(cols, n, col);
    UpLeftClearIff(cols, n, col);
    UpRightClearIff(cols, n, col);
  }

  /** Adding a compatible queen to a non-attacking placement keeps it non-attacking. */
  lemma ExtendNonAttacking(cols: seq<int>, col: int)
    requires NonAttacking(cols) && Compatible(cols, col)
    ensures NonAttacking(cols + [col])
  {
  }

  // ---------------------------------------------------------------------------
  // The search, as values: what the solver returns, leaves on the board and charges.
  // ---------------------------------------------------------------------------

  /** The result of a search: whether it succeeded and the placement it ends with. */
  datatype Outcome = Outcome(found: bool, sol: seq<int>)

  /**
   * _solve_n_queens_util on row |cols| with the queens of cols above it:
   * done when every row holds a queen, otherwise try the columns in order.
   */
  function Solve(cols: seq<int>, n: nat): Outcome
    requires |cols| <= n && InRange(cols, n)
    decreases n - |cols|, 1
  {
    if |cols| == n then Outcome(true, cols) else TryFrom(cols, n, 0)
  }

  /**
   * The column loop from column col on: the first column that is safe and
   * from which the recursive search succeeds wins; when none does the
   * placement is back to cols.
   */
  function TryFrom(cols: seq<int>, n: nat, col: nat): Outcome
    requires |cols| < n && col <= n && InRange(cols, n)
    decreases n - |cols|, 0, n - col
  {
    if col == n then Outcome(false, cols)
    else if Compatible(cols, col) && Solve(cols + [col], n).found then Solve(cols + [col], n)
    else TryFrom(cols, n, col + 1)
  }

  /** One entry of the solver: one `chamadas_recursivas`. */
  const Entry := Tally(0, 0, 1, 0, 0)

  /** One removed queen: one `backtracks`. */
  const Undo := Tally(0, 0, 0, 0, 1)

  /** What the solver charges on row |cols|: its entry, then the column loop. */
  function SolveCost(cols: seq<int>, n: nat): Tally
    requires |cols| <= n && InRange(cols, n)
    decreases n - |cols|, 1
  {
    if |cols| == n then Entry else Entry.Plus(TryCost(cols, n, 0))
  }

  /**
   * What one column of the loop charges: one `passos_laco` and the safety
   * test's comparisons; a safe column adds the recursive call's charges, and
   * a failed call one `backtracks`.
   */
  function ColumnCost(cols: seq<int>, n: nat, col: nat): Tally
    requires |cols| < n && col < n && InRange(cols, n)
    decreases n - |cols|, 0, 0
  {
    var step := Tally(SafetyCost(BoardOf(cols, n), n, |cols|, col), 0, 0, 1, 0);
    if !Compatible(cols, col) then step
    else if Solve(cols + [col], n).found then step.Plus(SolveCost(cols + [col], n))
    else step.Plus(SolveCost(cols + [col], n)).Plus(Undo)
  }

  /** What the column loop charges from column col on: each column's charges, up to the one that succeeds. */
  function TryCost(cols: seq<int>, n: nat, col: nat): Tally
    requires |cols| < n && col <= n && InRange(cols, n)
    decreases n - |cols|, 0, n - col
  {
    if col == n then Zero
    else if Compatible(cols, col) && Solve(cols + [col], n).found then ColumnCost(cols, n, col)
    else ColumnCost(cols, n, col).Plus(TryCost(cols, n, col + 1))
  }

  /**
   * Soundness: a search keeps the queens it started from and only places
   * queens on the board; one that succeeds fills every row, without attacks
   * when the queens it started from had none; one that fails leaves exactly
   * the queens it started from.
   */
  lemma {:induction false} SolveSound(cols: seq<int>, n: nat)
    requires |cols| <= n && InRange(cols, n)
    ensures var o := Solve(cols, n);
      InRange(o.sol, n) && |cols| <= |o.sol| && o.sol[..|cols|] == cols
      && (o.found ==> |o.sol| == n && (NonAttacking(cols) ==> NonAttacking(o.sol)))
      && (!o.found ==> o.sol == cols)
    decreases n - |cols|, 1
  {
    if |cols| < n {
      TrySound(cols, n, 0);
    }
  }

  lemma {:induction false} TrySound(cols: seq<int>, n: nat, col: nat)
    requires |cols| < n && col <= n && InRange(cols, n)
    ensures var o := TryFrom(cols, n, col);
      InRange(o.sol, n) && |cols| <= |o.sol| && o.sol[..|cols|] == cols
      && (o.found ==> |o.sol| == n && (NonAttacking(cols) ==> NonAttacking(o.sol)))
      && (!o.found ==> o.sol == cols)
    decreases n - |cols|, 0, n - col
  {
    if col < n {
      if Compatible(cols, col) {
        var next := cols + [col];
        if NonAttacking(cols) {
          ExtendNonAttacking(cols, col);
        }
        SolveSound(next, n);
        var sub := Solve(next, n);
        if sub.found {
          assert sub.sol[..|cols|] == sub.sol[..|next|][..|cols|];
        } else {
          TrySound(cols, n, col + 1);
        }
      } else {
        TrySound(cols, n, col + 1);
      }
    }
  }

  /** A search from the empty board that succeeds ends with a solution of the n-queens problem. */
  lemma FoundIsSolution(n: nat)
    ensures Solve([], n).found ==> Solution(Solve([], n).sol, n)
    ensures !Solve([], n).found ==> Solve([], n).sol == []
  {
    SolveSound([], n);
  }

  /**
   * Completeness: the search tries every column of every row, so it succeeds
   * whenever some complete placement extends the queens it starts from.
   */
  lemma {:induction false} SolveComplete(cols: seq<int>, n: nat, s: seq<int>)
    requires |cols| <= n && InRange(cols, n)
    requires Solution(s, n) && s[..|cols|] == cols
    ensures Solve(cols, n).found
    decreases n - |cols|, 1
  {
    if |cols| < n {
      TryComplete(cols, n, 0, s);
    }
  }

  lemma {:induction false} TryComplete(cols: seq<int>, n: nat, col: nat, s: seq<int>)
    requires |cols| < n && col <= n && InRange(cols, n)
    requires Solution(s, n) && s[..|cols|] == cols && col <= s[|cols|]
    ensures TryFrom(cols, n, col).found
    decreases n - |cols|, 0, n - col
  {
    var row := |cols|;
    if col == s[row] {
      assert Compatible(cols, col) by {
        forall i | 0 <= i < row
          ensures !Attacks(i, cols[i], row, col)
        {
          assert cols[i] == s[i];
        }
      }
      var next := cols + [col];
      assert s[..|next|] == next;
      SolveComplete(next, n, s);
    } else if !(Compatible(cols, col) && Solve(cols + [col], n).found) {
      TryComplete(cols, n, col + 1, s);
    }
  }

  /** The search from the empty board succeeds exactly when the n-queens problem has a solution. */
  lemma SolveFindsIffSolvable(n: nat)
    ensures Solve([], n).found <==> exists s :: Solution(s, n)
  {
    FoundIsSolution(n);
    if exists s :: Solution(s, n) {
      var s :| Solution(s, n);
      SolveComplete([], n, s);
    }
  }

  /** On a 2 x 2 or 3 x 3 board some two of the queens of consecutive or first and last rows attack each other. */
  lemma SmallBoardsAttack(s: seq<int>, n: nat)
    requires (n == 2 || n == 3) && |s| == n && InRange(s, n)
    ensures !NonAttacking(s)
  {
    var a, b := s[0], s[1];
    if n == 2 {
      assert Attacks(0, a, 1, b);
    } else {
      var c := s[2];
      assert Attacks(0, a, 1, b) || Attacks(1, b, 2, c) || Attacks(0, a, 2, c);
    }
  }

  /** There is no way to place two queens on a 2 x 2 board or three on a 3 x 3 board, so the search fails. */
  lemma NoSolutionForTwoOrThree(n: nat)
    requires n == 2 || n == 3
    ensures !exists s :: Solution(s, n)
    ensures !Solve([], n).found
  {
    forall s | |s| == n && InRange(s, n)
      ensures !NonAttacking(s)
    {
      SmallBoardsAttack(s, n);
    }
    SolveFindsIffSolvable(n);
  }

  /** The search succeeds on the 4 x 4 board: the placement 1, 3, 0, 2 exists. */
  lemma FourQueensFound()
    ensures Solve([], 4).found
  {
    var s := [1, 3, 0, 2];
    assert Solution(s, 4);
    SolveComplete([], 4, s);
  }

  /**
   * Accounting: every entry of the solver either is undone by a backtrack or
   * lies on the path to the solution, one per remaining row; no search swaps.
   */
  lemma {:induction false} SolveAccounting(cols: seq<int>, n: nat)
    requires |cols| <= n && InRange(cols, n)
    ensures var t := SolveCost(cols, n);
      t.recursiveCalls == 1 + t.backtracks + (if Solve(cols, n).found then n - |cols| else 0)
      && t.swaps == 0 && t.comparisons >= 0 && t.loopSteps >= 0 && t.backtracks >= 0
    decreases n - |cols|, 1
  {
    if |cols| < n {
      TryAccounting(cols, n, 0);
    }
  }

  lemma {:induction false} TryAccounting(cols: seq<int>, n: nat, col: nat)
    requires |cols| < n && col <= n && InRange(cols, n)
    ensures var t := TryCost(cols, n, col);
      t.recursiveCalls == t.backtracks + (if TryFrom(cols, n, col).found then n - |cols| else 0)
      && t.swaps == 0 && t.comparisons >= 0 && t.backtracks >= 0 && t.loopSteps >= 0
      && (!TryFrom(cols, n, col).found ==> t.loopSteps >= n - col)
    decreases n - |cols|, 0, n - col
  {
    if col < n {
      if Compatible(cols, col) {
        SolveAccounting(cols + [col], n);
        if !Solve(cols + [col], n).found {
          TryAccounting(cols, n, col + 1);
        }
      } else {
        TryAccounting(cols, n, col + 1);
      }
    }
  }

  // ---------------------------------------------------------------------------
  // What a solved board looks like, stated on the cells alone.
  // ---------------------------------------------------------------------------

  /** Row r holds a 1 in exactly one column and 0 everywhere else. */
  predicate OneQueenIn(g: Grid, n: nat, r: nat)
    requires Square(g, n) && r < n
  {
    exists k :: 0 <= k < n && g[r][k] == 1 && forall k' :: 0 <= k' < n && k' != k ==> g[r][k'] == 0
  }

  /** Every row holds exactly one queen and nothing else. */
  predicate OneQueenPerRow(g: Grid, n: nat)
    requires Square(g, n)
  {
    forall r :: 0 <= r < n ==> OneQueenIn(g, n, r)
  }

  /** No two queens in different rows share a column or a diagonal. */
  predicate QueensApart(g: Grid, n: nat)
    requires Square(g, n)
  {
    forall r1, k1, r2, k2 :: 0 <= r1 < r2 < n && 0 <= k1 < n && 0 <= k2 < n && g[r1][k1] == 1 && g[r2][k2] == 1
      ==> !Attacks(r1, k1, r2, k2)
  }

  /** The board of a solution holds one queen per row and no two queens attack each other. */
  lemma SolutionBoardValid(s: seq<int>, n: nat)
    requires Solution(s, n)
    ensures OneQueenPerRow(BoardOf(s, n), n) && QueensApart(BoardOf(s, n), n)
  {
    var g := BoardOf(s, n);
    forall r | 0 <= r < n
      ensures OneQueenIn(g, n, r)
    {
      assert g[r][s[r]] == 1;
    }
    forall r1, k1, r2, k2 | 0 <= r1 < r2 < n && 0 <= k1 < n && 0 <= k2 < n && g[r1][k1] == 1 && g[r2][k2] == 1
      ensures !Attacks(r1, k1, r2, k2)
    {
      assert k1 == s[r1] && k2 == s[r2];
    }
  }

  // ---------------------------------------------------------------------------
  // The solver itself, on a mutable board.
  // ---------------------------------------------------------------------------

  /** The board holds the contents g, cell for cell. */
  ghost predicate Depicts(b: array2<int>, g: Grid, n: nat)
    reads b
  {
    b.Length0 == n && b.Length1 == n && Square(g, n)
    && forall r, k :: 0 <= r < n && 0 <= k < n ==> b[r, k] == g[r][k]
  }

  /** The board holds exactly the queens of cols. */
  ghost predicate Shows(b: array2<int>, cols: seq<int>)
    reads b
  {
    forall r, k :: 0 <= r < b.Length0 && 0 <= k < b.Length1 ==> b[r, k] == Mark(cols, r, k)
  }

  /** A board that holds exactly the queens of cols has the contents BoardOf describes. */
  lemma ShowsBoardOf(b: array2<int>, cols: seq<int>, n: nat)
    requires b.Length0 == n && b.Length1 == n && Shows(b, cols)
    ensures Depicts(b, BoardOf(cols, n), n)
  {
  }

  /**
   * _is_safe_n_queens(board, row, col, n, contador): scans the column above,
   * then the up-left diagonal, then the up-right diagonal, one comparison per
   * cell read, and answers false at the first queen met.
   */
  method IsSafe(board: array2<int>, row: nat, col: nat, n: nat, c: Counter, ghost g: Grid) returns (safe: bool)
    requires Depicts(board, g, n) && row < n && col < n
    modifies c
    ensures safe == Safe(g, n, row, col)
    ensures c.Snapshot() == old(c.Snapshot()).(comparisons := old(c.comparisons) + SafetyCost(g, n, row, col))
  {
    safe := ScanColumn(board, row, col, n, c, g);
    if !safe {
      return;
    }
    safe := ScanUpLeft(board, row, col, n, c, g);
    if !safe {
      return;
    }
    safe := ScanUpRight(board, row, col, n, c, g);
  }

  /** The first scan: column col in rows 0..row-1, top down. */
  method ScanColumn(board: array2<int>, row: nat, col: nat, n: nat, c: Counter, ghost g: Grid) returns (clear: bool)
    requires Depicts(board, g, n) && row < n && col < n
    modifies c
    ensures clear == Clear(ColumnAbove(g, n, row, col))
    ensures c.Snapshot() == old(c.Snapshot()).(comparisons := old(c.comparisons) + ScanCost(ColumnAbove(g, n, row, col)))
  {
    ghost var cells := ColumnAbove(g, n, row, col);
    FirstQueenIsFirst(cells);
    var i := 0;
    while i < row
      invariant 0 <= i <= row
      invariant forall j :: 0 <= j < i ==> cells[j] != 1
      invariant c.Snapshot() == old(c.Snapshot()).(comparisons := old(c.comparisons) + i)
    {
      assert cells[i] == board[i, col];
      c.comparisons := c.comparisons + 1;
      if board[i, col] == 1 {
        return false;
      }
      i := i + 1;
    }
    return true;
  }

  /** The second scan: cells (row - k, col - k) from (row, col) itself up and to the left. */
  method ScanUpLeft(board: array2<int>, row: nat, col: nat, n: nat, c: Counter, ghost g: Grid) returns (clear: bool)
    requires Depicts(board, g, n) && row < n && col < n
    modifies c
    ensures clear == Clear(UpLeft(g, n, row, col))
    ensures c.Snapshot() == old(c.Snapshot()).(comparisons := old(c.comparisons) + ScanCost(UpLeft(g, n, row, col)))
  {
    ghost var cells := UpLeft(g, n, row, col);
    FirstQueenIsFirst(cells);
    var i, j := row as int, col as int;
    while i >= 0 && j >= 0
      invariant -1 <= i <= row && i - j == row - col && j >= -1
      invariant forall k :: 0 <= k < row - i ==> cells[k] != 1
      invariant c.Snapshot() == old(c.Snapshot()).(comparisons := old(c.comparisons) + (row - i))
      decreases i
    {
      assert cells[row - i] == board[i, j];
      c.comparisons := c.comparisons + 1;
      if board[i, j] == 1 {
        return false;
      }
      i, j := i - 1, j - 1;
    }
    return true;
  }

  /** The third scan: cells (row - k, col + k) from (row, col) itself up and to the right. */
  method ScanUpRight(board: array2<int>, row: nat, col: nat, n: nat, c: Counter, ghost g: Grid) returns (clear: bool)
    requires Depicts(board, g, n) && row < n && col < n
    modifies c
    ensures clear == Clear(UpRight(g, n, row, col))
    ensures c.Snapshot() == old(c.Snapshot()).(comparisons := old(c.comparisons) + ScanCost(UpRight(g, n, row, col)))
  {
    ghost var cells := UpRight(g, n, row, col);
    FirstQueenIsFirst(cells);
    var i, j := row as int, col;
    while i >= 0 && j < n
      invariant -1 <= i <= row && i + j == row + col && j <= n
      invariant forall k :: 0 <= k < row - i ==> cells[k] != 1
      invariant c.Snapshot() == old(c.Snapshot()).(comparisons := old(c.comparisons) + (row - i))
      decreases i
    {
      assert cells[row - i] == board[i, j];
      c.comparisons := c.comparisons + 1;
      if board[i, j] == 1 {
        return false;
      }
      i, j := i - 1, j + 1;
    }
    return true;
  }

  /**
   * n_queens_backtracking(n, contador): a fresh n x n board of zeros, solved
   * from row 0; the answer of the search is dropped and the board returned.
   * It holds a solution when the search succeeds and only zeros when it fails.
   */
  method NQueensBacktracking(n: nat, c: Counter) returns (board: array2<int>)
    modifies c
    ensures fresh(board) && board.Length0 == n && board.Length1 == n
    ensures Shows(board, Solve([], n).sol)
    ensures Solve([], n).found ==> Solution(Solve([], n).sol, n)
    ensures !Solve([], n).found ==> forall r, k :: 0 <= r < n && 0 <= k < n ==> board[r, k] == 0
    ensures c.Snapshot() == old(c.Snapshot()).Plus(SolveCost([], n))
  {
    board := new int[n, n]((r, k) => 0);
    var _ := SolveUtil(board, 0, n, c, []);
    FoundIsSolution(n);
  }

  /**
   * _solve_n_queens_util(board, row, n, contador), with the queens of cols in
   * rows 0..row-1: answers whether the search succeeds, leaves on the board the
   * placement the search ends with (the queens it started from when it fails)
   * and charges what SolveCost says.
   */
  method SolveUtil(board: array2<int>, row: nat, n: nat, c: Counter, ghost cols: seq<int>) returns (found: bool)
    requires board.Length0 == n && board.Length1 == n
    requires |cols| == row <= n && InRange(cols, n) && Shows(board, cols)
    modifies board, c
    ensures found == Solve(cols, n).found
    ensures Shows(board, Solve(cols, n).sol)
    ensures !found ==> forall r, k :: 0 <= r < n && 0 <= k < n ==> board[r, k] == old(board[r, k])
    ensures c.Snapshot() == old(c.Snapshot()).Plus(SolveCost(cols, n))
    decreases n - row, 3
  {
    c.recursiveCalls := c.recursiveCalls + 1;
    if row >= n {
      return true;
    }
    found := TryColumns(board, row, n, c, cols);
    SolveSound(cols, n);
    assert c.Snapshot() == old(c.Snapshot()).Plus(Entry).Plus(TryCost(cols, n, 0));
  }

  /** The column loop: try columns 0, 1, ... of row `row` until one leads to a complete placement. */
  method TryColumns(board: array2<int>, row: nat, n: nat, c: Counter, ghost cols: seq<int>) returns (found: bool)
    requires board.Length0 == n && board.Length1 == n
    requires |cols| == row < n && InRange(cols, n) && Shows(board, cols)
    modifies board, c
    ensures found == TryFrom(cols, n, 0).found
    ensures Shows(board, TryFrom(cols, n, 0).sol)
    ensures c.Snapshot() == old(c.Snapshot()).Plus(TryCost(cols, n, 0))
    decreases n - row, 2
  {
    var i := 0;
    while i < n
      invariant 0 <= i <= n
      invariant Shows(board, cols)
      invariant TryFrom(cols, n, 0) == TryFrom(cols, n, i)
      invariant c.Snapshot().Plus(TryCost(cols, n, i)) == old(c.Snapshot()).Plus(TryCost(cols, n, 0))
    {
      TryStep(cols, n, i);
      var placed := TryColumn(board, row, i, n, c, cols);
      if placed {
        return true;
      }
      i := i + 1;
    }
    found := false;
  }

  /** One pass of the column loop: count the step, test the column and, when it is safe, place the queen and recurse. */
  method TryColumn(board: array2<int>, row: nat, col: nat, n: nat, c: Counter, ghost cols: seq<int>) returns (placed: bool)
    requires board.Length0 == n && board.Length1 == n
    requires |cols| == row < n && col < n && InRange(cols, n) && Shows(board, cols)
    modifies board, c
    ensures placed == (Compatible(cols, col) && Solve(cols + [col], n).found)
    ensures Shows(board, if placed then Solve(cols + [col], n).sol else cols)
    ensures c.Snapshot() == old(c.Snapshot()).Plus(ColumnCost(cols, n, col))
    decreases n - row, 1
  {
    c.loopSteps := c.loopSteps + 1;
    ShowsBoardOf(board, cols, n);
    SafeIffCompatible(cols, n, col);
    var safe := IsSafe(board, row, col, n, c, BoardOf(cols, n));
    if safe {
      placed := PlaceQueen(board, row, col, n, c, cols);
    } else {
      placed := false;
    }
  }

  /**
   * A safe column: place the queen, search the rows below, and on failure
   * remove the queen again and count one backtrack.
   */
  method PlaceQueen(board: array2<int>, row: nat, col: nat, n: nat, c: Counter, ghost cols: seq<int>) returns (placed: bool)
    requires board.Length0 == n && board.Length1 == n
    requires |cols| == row < n && col < n && InRange(cols, n) && Shows(board, cols)
    modifies board, c
    ensures placed == Solve(cols + [col], n).found
    ensures Shows(board, if placed then Solve(cols + [col], n).sol else cols)
    ensures c.Snapshot() == old(c.Snapshot()).Plus(SolveCost(cols + [col], n)).Plus(if placed then Zero else Undo)
    decreases n - row, 0
  {
    ghost var next := cols + [col];
    board[row, col] := 1;
    placed := SolveUtil(board, row + 1, n, c, next);
    if !placed {
      SolveSound(next, n);
      board[row, col] := 0;
      c.backtracks := c.backtracks + 1;
    }
  }

  /** One column of the loop, unfolded: where TryFrom and TryCost go from column col. */
  lemma TryStep(cols: seq<int>, n: nat, col: nat)
    requires |cols| < n && col < n && InRange(cols, n)
    ensures Compatible(cols, col) && Solve(cols + [col], n).found ==>
      TryFrom(cols, n, col) == Solve(cols + [col], n) && TryCost(cols, n, col) == ColumnCost(cols, n, col)
    ensures !(Compatible(cols, col) && Solve(cols + [col], n).found) ==>
      TryFrom(cols, n, col) == TryFrom(cols, n, col + 1)
      && TryCost(cols, n, col) == ColumnCost(cols, n, col).Plus(TryCost(cols, n, col + 1))
  {
  }
}
