/**
 * The Sudoku generator of sudoku/PuzzleGenerator.js on a mutable 9x9 board: the placement test,
 * the in-place backtracking solver, the shuffled diagonal boxes, the copy, the removal of cells
 * and the puzzle/solution pair.
 */
module SudokuGenerator {
  import opened Common
  import opened SudokuValidator

  datatype Difficulty = Easy | Medium | Hard

  /** The digits 1..9, once each. */
  const OneToNine: multiset<int> := multiset{1, 2, 3, 4, 5, 6, 7, 8, 9}

  lemma OneToNineOnce(x: int)
    ensures OneToNine[x] == if 1 <= x <= 9 then 1 else 0
  {
  }

  predicate Is9x9(b: array2<int>) {
    b.Length0 == 9 && b.Length1 == 9
  }

  /** The board's current contents as a grid value. */
  function Snapshot(b: array2<int>): (g: Grid)
    requires Is9x9(b)
    reads b
    ensures IsGrid(g) && forall r, c :: InBoard(r, c) ==> g[r][c] == b[r, c]
  {
    seq(9, r requires 0 <= r < 9 reads b => seq(9, c requires 0 <= c < 9 reads b => b[r, c]))
  }

  /** Two grids with the same cells are the same grid. */
  lemma GridExt(g: Grid, h: Grid)
    requires IsGrid(g) && IsGrid(h)
    requires forall r, c :: InBoard(r, c) ==> g[r][c] == h[r][c]
    ensures g == h
  {
    forall r | 0 <= r < 9
      ensures g[r] == h[r]
    {
      assert forall c :: 0 <= c < 9 ==> g[r][c] == h[r][c];
    }
  }

  /** Number of empty (0) cells. */
  function ZeroCount(g: seq<seq<int>>): nat {
    if g == [] then 0 else Count(g[0], 0) + ZeroCount(g[1..])
  }

  /** Writing `v` into one cell changes the number of empty cells by the obvious amount. */
  lemma {:induction false} ZeroCountWrite(g: seq<seq<int>>, r: nat, c: nat, v: int)
    requires r < |g| && c < |g[r]|
    ensures ZeroCount(g[r := g[r][c := v]]) + (if g[r][c] == 0 then 1 else 0)
         == ZeroCount(g) + (if v == 0 then 1 else 0)
    decreases r
  {
    var h := g[r := g[r][c := v]];
    if r == 0 {
      assert h[1..] == g[1..];
      assert multiset(g[0][c := v]) == multiset(g[0]) - multiset{g[0][c]} + multiset{v};
    } else {
      assert h[1..] == g[1..][r - 1 := g[r][c := v]];
      ZeroCountWrite(g[1..], r - 1, c, v);
    }
  }

  /** Fewer than 9 empty cells per row means some cell is filled. */
  lemma {:induction false} FilledCellExists(g: seq<seq<int>>)
    requires forall r :: 0 <= r < |g| ==> |g[r]| == 9
    requires ZeroCount(g) < 9 * |g|
    ensures exists r, c :: 0 <= r < |g| && 0 <= c < 9 && g[r][c] != 0
  {
    if Count(g[0], 0) < 9 {
      var c := NotAllEqual(g[0], 0);
      assert g[0][c] != 0;
    } else {
      FilledCellExists(g[1..]);
      var r, c :| 0 <= r < |g| - 1 && 0 <= c < 9 && g[1..][r][c] != 0;
      assert g[r + 1][c] != 0;
    }
  }

  /** A sequence with fewer than |s| copies of `x` has an element other than `x`. */
  lemma {:induction false} NotAllEqual(s: seq<int>, x: int) returns (i: nat)
    requires Count(s, x) < |s|
    ensures i < |s| && s[i] != x
  {
    if s[0] != x {
      i := 0;
    } else {
      assert s == [s[0]] + s[1..];
      var j := NotAllEqual(s[1..], x);
      i := j + 1;
    }
  }

  /** A grid without empty cells has no zeros to count. */
  lemma {:induction false} NoZerosCount(g: seq<seq<int>>)
    requires forall r, c :: 0 <= r < |g| && 0 <= c < |g[r]| ==> g[r][c] != 0
    ensures ZeroCount(g) == 0
  {
    if g != [] {
      assert 0 !in g[0];
      NoZerosCount(g[1..]);
    }
  }

  /** `isValid` as a property: `num` occurs nowhere in the row, the column or the box of
      (row, col), the cell itself included. */
  predicate CanPlace(g: Grid, row: int, col: int, num: int)
    requires IsGrid(g) && InBoard(row, col)
  {
    && (forall x :: 0 <= x < 9 ==> g[row][x] != num)
    && (forall x :: 0 <= x < 9 ==> g[x][col] != num)
    && (forall r, c :: BoxStart(row) <= r < BoxStart(row) + 3 && BoxStart(col) <= c < BoxStart(col) + 3 ==> g[r][c] != num)
  }

  /** The generator's test is the Validator's test plus the cell itself not holding `num`. */
  lemma CanPlaceIff(g: Grid, row: int, col: int, num: int)
    requires IsGrid(g) && InBoard(row, col)
    ensures CanPlace(g, row, col, num) <==> g[row][col] != num && IsValidMove(g, row, col, num)
  {
    if g[row][col] != num && IsValidMove(g, row, col, num) {
      assert RowClear(g, row, col, num) && ColClear(g, row, col, num) && BoxClear(g, row, col, num);
    }
  }

  /** `isValid`: scan the row, the column and the box, stopping at the first `num`. */
  method IsValid(board: array2<int>, row: int, col: int, num: int) returns (ok: bool)
    requires Is9x9(board) && InBoard(row, col)
    ensures ok == CanPlace(Snapshot(board), row, col, num)
  {
    var x := 0;
    while x < 9
      invariant 0 <= x <= 9
      invariant forall y :: 0 <= y < x ==> board[row, y] != num
    {
      if board[row, x] == num {
        return false;
      }
      x := x + 1;
    }
    x := 0;
    while x < 9
      invariant 0 <= x <= 9
      invariant forall y :: 0 <= y < x ==> board[y, col] != num
    {
      if board[x, col] == num {
        return false;
      }
      x := x + 1;
    }
    var startRow := row - row % 3;
    var startCol := col - col % 3;
    var i := 0;
    while i < 3
      invariant 0 <= i <= 3
      invariant forall r, c :: startRow <= r < startRow + i && startCol <= c < startCol + 3 ==> board[r, c] != num
    {
      var r := i + startRow;
      var j := 0;
      while j < 3
        invariant 0 <= j <= 3
        invariant forall r, c :: startRow <= r < startRow + i && startCol <= c < startCol + 3 ==> board[r, c] != num
        invariant forall c :: startCol <= c < startCol + j ==> board[r, c] != num
      {
        if board[r, j + startCol] == num {
          return false;
        }
        j := j + 1;
      }
      i := i + 1;
    }
    return true;
  }

  /** Placing a number that `isValid` accepts into an empty cell keeps a consistent grid
      consistent. */
  lemma PlaceKeepsConsistent(g: Grid, row: int, col: int, v: int)
    requires IsGrid(g) && InBoard(row, col) && g[row][col] == 0
    requires CanPlace(g, row, col, v) && Consistent(g)
    ensures Consistent(g[row := g[row][col := v]])
  {
    var h := g[row := g[row][col := v]];
    forall r, c | InBoard(r, c) && h[r][c] != 0
      ensures IsValidMove(h, r, c, h[r][c])
    {
      if r == row && c == col {
        assert forall r2, c2 :: Peer(row, col, r2, c2) ==> h[r2][c2] == g[r2][c2];
      } else {
        assert IsValidMove(g, r, c, g[r][c]);
        forall r2, c2 | Peer(r, c, r2, c2)
          ensures h[r2][c2] != h[r][c]
        {
          if r2 == row && c2 == col {
            PeerSymmetric(r, c, r2, c2);
          }
        }
      }
    }
  }

  /** Only empty cells get filled, and only with digits. */
  ghost predicate Extends(g0: Grid, g: Grid)
    requires IsGrid(g0) && IsGrid(g)
  {
    forall r, c :: InBoard(r, c) ==> g[r][c] == g0[r][c] || (g0[r][c] == 0 && 1 <= g[r][c] <= 9)
  }

  ghost predicate NoZeros(g: Grid)
    requires IsGrid(g)
  {
    forall r, c :: InBoard(r, c) ==> g[r][c] != 0
  }

  /**
   * `solveSudoku`: find the first empty cell in row-major order and try 1..9 there, recursing
   * after each placement that `isValid` accepts. On success every cell is filled, and a grid that
   * was consistent stays consistent; on failure every tried cell is reset, so the board is as it
   * was. Cells filled on entry are never touched.
   */
  method SolveSudoku(board: array2<int>) returns (solved: bool)
    requires Is9x9(board)
    modifies board
    ensures Extends(old(Snapshot(board)), Snapshot(board))
    ensures Consistent(old(Snapshot(board))) ==> Consistent(Snapshot(board))
    ensures solved ==> NoZeros(Snapshot(board))
    ensures !solved ==> Snapshot(board) == old(Snapshot(board))
    decreases ZeroCount(Snapshot(board)), 2
  {
    ghost var g0 := Snapshot(board);
    var empty := FirstEmpty(board);
    if empty == None {
      return true;
    }
    var row, col := empty.value.row, empty.value.col;
    var num := 1;
    while num <= 9
      invariant 1 <= num <= 10
      invariant Snapshot(board) == g0
    {
      var s := TryDigit(board, row, col, num);
      if s {
        return true;
      }
      num := num + 1;
    }
    return false;
  }

  /** One candidate of `solveSudoku`'s loop: `num` is placed and the search goes on only when
      `isValid` accepts it at the empty cell. */
  method TryDigit(board: array2<int>, row: int, col: int, num: int) returns (solved: bool)
    requires Is9x9(board) && InBoard(row, col) && board[row, col] == 0 && 1 <= num <= 9
    modifies board
    ensures Extends(old(Snapshot(board)), Snapshot(board))
    ensures Consistent(old(Snapshot(board))) ==> Consistent(Snapshot(board))
    ensures solved ==> NoZeros(Snapshot(board))
    ensures !solved ==> Snapshot(board) == old(Snapshot(board))
    decreases ZeroCount(Snapshot(board)), 1
  {
    var ok := IsValid(board, row, col, num);
    if !ok {
      return false;
    }
    solved := PlaceAndSolve(board, row, col, num);
  }

  /** Place an accepted digit and recurse; when the rest cannot be solved, empty the cell again. */
  method PlaceAndSolve(board: array2<int>, row: int, col: int, num: int) returns (solved: bool)
    requires Is9x9(board) && InBoard(row, col) && board[row, col] == 0 && 1 <= num <= 9
    requires CanPlace(Snapshot(board), row, col, num)
    modifies board
    ensures Extends(old(Snapshot(board)), Snapshot(board))
    ensures Consistent(old(Snapshot(board))) ==> Consistent(Snapshot(board))
    ensures solved ==> NoZeros(Snapshot(board))
    ensures !solved ==> Snapshot(board) == old(Snapshot(board))
    decreases ZeroCount(Snapshot(board)), 0
  {
    ghost var g0 := Snapshot(board);
    board[row, col] := num;
    GridExt(Snapshot(board), g0[row := g0[row][col := num]]);
    ZeroCountWrite(g0, row, col, num);
    if Consistent(g0) {
      PlaceKeepsConsistent(g0, row, col, num);
    }
    solved := SolveSudoku(board);
    if solved {
      ExtendsAfterPlace(g0, Snapshot(board), row, col, num);
      return;
    }
    board[row, col] := 0;
    GridExt(Snapshot(board), g0);
  }

  /** Filling an empty cell with a digit, then extending further, extends the original grid. */
  lemma ExtendsAfterPlace(g0: Grid, g: Grid, row: int, col: int, v: int)
    requires IsGrid(g0) && IsGrid(g) && InBoard(row, col)
    requires g0[row][col] == 0 && 1 <= v <= 9
    requires Extends(g0[row := g0[row][col := v]], g)
    ensures Extends(g0, g)
  {
    var mid := g0[row := g0[row][col := v]];
    forall r, c | InBoard(r, c) ensures g[r][c] == g0[r][c] || (g0[r][c] == 0 && 1 <= g[r][c] <= 9) {
      if r == row && c == col {
        assert mid[r][c] == v;
      } else {
        assert mid[r][c] == g0[r][c];
      }
    }
  }

  /** The scan of `solveSudoku`: the first empty cell in row-major order, or None when every cell
      is filled. */
  method FirstEmpty(board: array2<int>) returns (cell: Option<Cell>)
    requires Is9x9(board)
    ensures cell == None ==> NoZeros(Snapshot(board))
    ensures cell != None ==>
      var Cell(row, col) := cell.value;
      && InBoard(row, col) && board[row, col] == 0
      && (forall r, c :: InBoard(r, c) && (r < row || (r == row && c < col)) ==> board[r, c] != 0)
  {
    var row := 0;
    while row < 9
      invariant 0 <= row <= 9
      invariant forall r, c :: 0 <= r < row && 0 <= c < 9 ==> board[r, c] != 0
    {
      var col := 0;
      while col < 9
        invariant 0 <= col <= 9
        invariant forall c :: 0 <= c < col ==> board[row, c] != 0
      {
        if board[row, col] == 0 {
          return Some(Cell(row, col));
        }
        col := col + 1;
      }
      row := row + 1;
    }
    return None;
  }

  /** Row-major contents of the 3x3 box whose top-left cell is (b, b). */
  function DiagonalBox(g: Grid, b: int): (s: seq<int>)
    requires IsGrid(g) && (b == 0 || b == 3 || b == 6)
    ensures |s| == 9
  {
    seq(9, k requires 0 <= k < 9 => g[b + k / 3][b + k % 3])
  }

  /** (r, c) lies in the 3x3 box whose top-left cell is (b, b). */
  predicate InBox(r: int, c: int, b: int) {
    b <= r < b + 3 && b <= c < b + 3
  }

  /** A cell lies in one of the three diagonal boxes. */
  predicate OnDiagonal(r: int, c: int) {
    InBox(r, c, 0) || InBox(r, c, 3) || InBox(r, c, 6)
  }

  /** Each diagonal box holds 1..9 in some order. */
  ghost predicate DiagonalPermuted(g: Grid)
    requires IsGrid(g)
  {
    forall b :: (b == 0 || b == 3 || b == 6) ==> multiset(DiagonalBox(g, b)) == OneToNine
  }

  /** A diagonal box's contents depend only on its own cells. */
  lemma DiagonalBoxSame(g: Grid, h: Grid, b: int)
    requires IsGrid(g) && IsGrid(h) && (b == 0 || b == 3 || b == 6)
    requires forall r, c :: InBox(r, c, b) ==> g[r][c] == h[r][c]
    ensures DiagonalBox(g, b) == DiagonalBox(h, b)
  {
    assert forall k :: 0 <= k < 9 ==> InBox(b + k / 3, b + k % 3, b);
  }

  /** Changing only the cells of one diagonal box leaves the other two diagonal boxes as they were. */
  lemma OtherBoxesKept(g: Grid, h: Grid, box: int)
    requires IsGrid(g) && IsGrid(h) && (box == 0 || box == 3 || box == 6)
    requires forall r, c :: InBoard(r, c) && !InBox(r, c, box) ==> g[r][c] == h[r][c]
    ensures forall b :: (b == 0 || b == 3 || b == 6) && b != box ==> DiagonalBox(g, b) == DiagonalBox(h, b)
  {
    forall b | (b == 0 || b == 3 || b == 6) && b != box ensures DiagonalBox(g, b) == DiagonalBox(h, b) {
      DiagonalBoxSame(g, h, b);
    }
  }

  /** Swapping two entries keeps the multiset of a sequence. */
  lemma SwapKeepsMultiset(s: seq<int>, i: nat, j: nat)
    requires i < |s| && j < |s|
    ensures multiset(s[i := s[j]][j := s[i]]) == multiset(s)
  {
  }

  /** The shuffle of `fillDiagonal`: [1..9], then for i from 8 down to 1 swap position i with the
      random position `picks[8 - i]` (at most i). */
  method Shuffle(picks: seq<nat>) returns (nums: array<int>)
    requires |picks| == 8 && forall t :: 0 <= t < 8 ==> picks[t] <= 8 - t
    ensures fresh(nums) && nums.Length == 9
    ensures multiset(nums[..]) == OneToNine
  {
    nums := new int[9](k => k + 1);
    assert nums[..] == [1, 2, 3, 4, 5, 6, 7, 8, 9];
    var i := 8;
    while i > 0
      invariant 0 <= i <= 8
      invariant multiset(nums[..]) == OneToNine
    {
      var j := picks[8 - i];
      Swap(nums, i, j);
      i := i - 1;
    }
  }

  /** Exchanges two entries of the array, keeping its multiset of values. */
  method Swap(a: array<int>, i: nat, j: nat)
    requires i < a.Length && j < a.Length
    modifies a
    ensures a[..] == old(a[..])[i := old(a[j])][j := old(a[i])]
    ensures multiset(a[..]) == multiset(old(a[..]))
  {
    ghost var prev := a[..];
    a[i], a[j] := a[j], a[i];
    assert a[..] == prev[i := prev[j]][j := prev[i]];
    SwapKeepsMultiset(prev, i, j);
  }

  /** One pass of the inner write loop of `fillDiagonal`: `nums[idx..idx+2]` into the three
      box cells of `row`; nothing else changes. */
  method WriteBoxRow(board: array2<int>, row: int, box: int, nums: array<int>, idx: int)
    requires Is9x9(board) && 0 <= row < 9 && (box == 0 || box == 3 || box == 6)
    requires nums.Length == 9 && 0 <= idx <= 6
    modifies board
    ensures forall c :: box <= c < box + 3 ==> board[row, c] == nums[idx + (c - box)]
    ensures forall r, c :: InBoard(r, c) && (r != row || c < box || box + 3 <= c) ==> board[r, c] == old(board[r, c])
  {
    var j := 0;
    while j < 3
      invariant 0 <= j <= 3
      invariant forall c :: box <= c < box + j ==> board[row, c] == nums[idx + (c - box)]
      invariant forall r, c :: InBoard(r, c) && (r != row || c < box || box + 3 <= c) ==> board[r, c] == old(board[r, c])
    {
      board[row, box + j] := nums[idx + j];
      j := j + 1;
    }
  }

  /** The write loops of `fillDiagonal` for one box: `nums` in row-major order into the box at
      (box, box); nothing else changes. */
  method WriteBox(board: array2<int>, box: int, nums: array<int>)
    requires Is9x9(board) && (box == 0 || box == 3 || box == 6) && nums.Length == 9
    modifies board
    ensures DiagonalBox(Snapshot(board), box) == nums[..]
    ensures forall r, c :: InBoard(r, c) && !InBox(r, c, box) ==> board[r, c] == old(board[r, c])
  {
    var idx := 0;
    var i := 0;
    while i < 3
      invariant 0 <= i <= 3 && idx == 3 * i
      invariant forall r, c :: box <= r < box + i && box <= c < box + 3 ==> board[r, c] == nums[3 * (r - box) + (c - box)]
      invariant forall r, c :: InBoard(r, c) && !InBox(r, c, box) ==> board[r, c] == old(board[r, c])
    {
      WriteBoxRow(board, box + i, box, nums, idx);
      idx := idx + 3;
      i := i + 1;
    }
    var s := DiagonalBox(Snapshot(board), box);
    assert forall k :: 0 <= k < 9 ==> s[k] == board[box + k / 3, box + k % 3];
  }

  /** The random swap positions of the three shuffles: for each box, 8 positions, the t-th at
      most 8 - t (`Math.floor(Math.random() * (i + 1))` for i = 8 - t). */
  predicate ShufflePicks(picks: seq<seq<nat>>) {
    |picks| == 3 && forall b :: 0 <= b < 3 ==> |picks[b]| == 8 && forall t :: 0 <= t < 8 ==> picks[b][t] <= 8 - t
  }

  /** `fillDiagonal`: a shuffled 1..9 into each diagonal box, box `3 * b` shuffled by
      `picks[b]`. Cells off the diagonal boxes keep their values. */
  method FillDiagonal(board: array2<int>, picks: seq<seq<nat>>)
    requires Is9x9(board)
    requires ShufflePicks(picks)
    modifies board
    ensures DiagonalPermuted(Snapshot(board))
    ensures forall r, c :: InBoard(r, c) && !OnDiagonal(r, c) ==> board[r, c] == old(board[r, c])
  {
    var box := 0;
    while box < 9
      invariant box == 0 || box == 3 || box == 6 || box == 9
      invariant forall b :: (b == 0 || b == 3 || b == 6) && b < box ==>
        multiset(DiagonalBox(Snapshot(board), b)) == OneToNine
      invariant forall r, c :: InBoard(r, c) && !OnDiagonal(r, c) ==> board[r, c] == old(board[r, c])
    {
      var nums := Shuffle(picks[box / 3]);
      ghost var before := Snapshot(board);
      WriteBox(board, box, nums);
      OtherBoxesKept(Snapshot(board), before, box);
      box := box + 3;
    }
  }

  /** The 9 values of a permutation of 1..9 are digits and pairwise different. */
  lemma PermutationDistinct(s: seq<int>)
    requires multiset(s) == OneToNine
    ensures forall i :: 0 <= i < |s| ==> 1 <= s[i] <= 9
    ensures forall i, j :: 0 <= i < j < |s| ==> s[i] != s[j]
  {
    forall i | 0 <= i < |s|
      ensures 1 <= s[i] <= 9
    {
      assert s[i] in multiset(s);
      OneToNineOnce(s[i]);
    }
    forall i, j | 0 <= i < j < |s|
      ensures s[i] != s[j]
    {
      assert s == s[..j] + [s[j]] + s[j + 1..];
      assert s[i] in s[..j];
      assert multiset(s)[s[j]] == multiset(s[..j])[s[j]] + 1 + multiset(s[j + 1..])[s[j]];
      OneToNineOnce(s[j]);
    }
  }

  /** Cell (r, c) of the box at (b, b) is entry 3 * (r - b) + (c - b) of its row-major contents. */
  lemma DiagonalBoxAt(g: Grid, b: int, r: int, c: int)
    requires IsGrid(g) && (b == 0 || b == 3 || b == 6) && InBox(r, c, b)
    ensures DiagonalBox(g, b)[3 * (r - b) + (c - b)] == g[r][c]
  {
    var k := 3 * (r - b) + (c - b);
    assert k / 3 == r - b && k % 3 == c - b;
  }

  /** A peer of a filled cell of the diagonal box at (b, b) holds another value: inside the box
      the values are distinct, and outside it a peer lies off the diagonal, where cells are 0. */
  lemma DiagonalPeerDiffers(g: Grid, b: int, r: int, c: int, r2: int, c2: int)
    requires IsGrid(g) && (b == 0 || b == 3 || b == 6)
    requires forall i, j :: 0 <= i < j < 9 ==> DiagonalBox(g, b)[i] != DiagonalBox(g, b)[j]
    requires forall r, c :: InBoard(r, c) && !OnDiagonal(r, c) ==> g[r][c] == 0
    requires InBox(r, c, b) && g[r][c] != 0 && Peer(r, c, r2, c2)
    ensures g[r2][c2] != g[r][c]
  {
    BoxStartIn(r, b);
    BoxStartIn(c, b);
    BoxStartIn(r2, b);
    BoxStartIn(c2, b);
    if InBox(r2, c2, b) {
      DiagonalBoxAt(g, b, r, c);
      DiagonalBoxAt(g, b, r2, c2);
    } else {
      assert !OnDiagonal(r2, c2);
    }
  }

  /** A filled cell of the diagonal box at (b, b) passes `isValidMove` with its own value. */
  lemma DiagonalCellValid(g: Grid, b: int, r: int, c: int)
    requires IsGrid(g) && (b == 0 || b == 3 || b == 6)
    requires multiset(DiagonalBox(g, b)) == OneToNine
    requires forall r, c :: InBoard(r, c) && !OnDiagonal(r, c) ==> g[r][c] == 0
    requires InBox(r, c, b) && g[r][c] != 0
    ensures IsValidMove(g, r, c, g[r][c])
  {
    PermutationDistinct(DiagonalBox(g, b));
    forall r2, c2 | Peer(r, c, r2, c2)
      ensures g[r2][c2] != g[r][c]
    {
      DiagonalPeerDiffers(g, b, r, c, r2, c2);
    }
  }

  /** A board empty off the diagonal boxes, with 1..9 in each diagonal box, is consistent: the
      diagonal boxes share no row and no column. */
  lemma DiagonalConsistent(g: Grid)
    requires IsGrid(g) && DiagonalPermuted(g)
    requires forall r, c :: InBoard(r, c) && !OnDiagonal(r, c) ==> g[r][c] == 0
    ensures Consistent(g)
  {
    forall r, c | InBoard(r, c) && g[r][c] != 0
      ensures IsValidMove(g, r, c, g[r][c])
    {
      var b := if r < 3 then 0 else if r < 6 then 3 else 6;
      assert InBox(r, c, b);
      DiagonalCellValid(g, b, r, c);
    }
  }

  /** `copyBoard`: a fresh board with the same cells. */
  method CopyBoard(board: array2<int>) returns (copy: array2<int>)
    requires Is9x9(board)
    ensures fresh(copy) && Is9x9(copy) && Snapshot(copy) == Snapshot(board)
  {
    copy := new int[9, 9];
    var r := 0;
    while r < 9
      invariant 0 <= r <= 9
      invariant forall r2, c :: 0 <= r2 < r && 0 <= c < 9 ==> copy[r2, c] == board[r2, c]
    {
      var c := 0;
      while c < 9
        invariant 0 <= c <= 9
        invariant forall r2, c2 :: 0 <= r2 < r && 0 <= c2 < 9 ==> copy[r2, c2] == board[r2, c2]
        invariant forall c2 :: 0 <= c2 < c ==> copy[r, c2] == board[r, c2]
      {
        copy[r, c] := board[r, c];
        c := c + 1;
      }
      r := r + 1;
    }
    GridExt(Snapshot(copy), Snapshot(board));
  }

  /** `generateCompleteBoard`: an empty board, the diagonal boxes, then the solver. When the solver
      succeeds the board is a complete, consistent Sudoku that keeps the shuffled diagonal. */
  method GenerateCompleteBoard(picks: seq<seq<nat>>) returns (board: array2<int>, solved: bool)
    requires ShufflePicks(picks)
    ensures fresh(board) && Is9x9(board)
    ensures solved ==> Full(Snapshot(board)) && Consistent(Snapshot(board)) && DiagonalPermuted(Snapshot(board))
  {
    board := new int[9, 9]((r, c) => 0);
    FillDiagonal(board, picks);
    ghost var diag := Snapshot(board);
    DiagonalConsistent(diag);
    solved := SolveSudoku(board);
    if solved {
      SolvedKeepsDiagonal(diag, Snapshot(board));
    }
  }

  /** Filling every empty cell of a diagonal-filled board with digits gives a full board whose
      diagonal boxes are unchanged. */
  lemma SolvedKeepsDiagonal(diag: Grid, g: Grid)
    requires IsGrid(diag) && IsGrid(g) && DiagonalPermuted(diag)
    requires forall r, c :: InBoard(r, c) && !OnDiagonal(r, c) ==> diag[r][c] == 0
    requires Extends(diag, g) && NoZeros(g)
    ensures Full(g) && DiagonalPermuted(g)
  {
    forall b | b == 0 || b == 3 || b == 6
      ensures DiagonalBox(g, b) == DiagonalBox(diag, b)
    {
      PermutationDistinct(DiagonalBox(diag, b));
      forall r, c | InBox(r, c, b)
        ensures g[r][c] == diag[r][c]
      {
        DiagonalBoxAt(diag, b, r, c);
      }
      DiagonalBoxSame(g, diag, b);
    }
    forall r, c | InBoard(r, c)
      ensures 1 <= g[r][c] <= 9
    {
      if diag[r][c] != 0 {
        var b := if r < 3 then 0 else if r < 6 then 3 else 6;
        assert InBox(r, c, b);
        PermutationDistinct(DiagonalBox(diag, b));
        DiagonalBoxAt(diag, b, r, c);
      }
    }
  }

  /** `cellsToRemove[difficulty] || 40`: an unknown difficulty name removes 40 cells. */
  function CellsToRemove(d: Option<Difficulty>): (n: nat)
    ensures 40 <= n <= 60
  {
    match d
    case Some(Easy) => 40
    case Some(Medium) => 50
    case Some(Hard) => 60
    case None => 40
  }

  /**
   * `removeNumbers`: on a copy, empty random filled cells until `count` have been emptied. A draw
   * that hits an already empty cell is drawn again, so each round amounts to choosing one filled
   * cell; the loop ends only if the board has at least `count` filled cells.
   */
  method RemoveNumbers(board: array2<int>, d: Option<Difficulty>) returns (puzzle: array2<int>)
    requires Is9x9(board) && ZeroCount(Snapshot(board)) + CellsToRemove(d) <= 81
    ensures fresh(puzzle) && Is9x9(puzzle)
    ensures forall r, c :: InBoard(r, c) ==> puzzle[r, c] == board[r, c] || puzzle[r, c] == 0
    ensures ZeroCount(Snapshot(puzzle)) == ZeroCount(Snapshot(board)) + CellsToRemove(d)
  {
    var count := CellsToRemove(d);
    puzzle := CopyBoard(board);
    var removed := 0;
    while removed < count
      invariant 0 <= removed <= count
      invariant ZeroCount(Snapshot(puzzle)) == ZeroCount(Snapshot(board)) + removed
      invariant forall r, c :: InBoard(r, c) ==> puzzle[r, c] == board[r, c] || puzzle[r, c] == 0
      decreases count - removed
    {
      EmptyFilledCell(puzzle);
      removed := removed + 1;
    }
  }

  /** One round of `removeNumbers`: some filled cell of the board becomes empty. */
  method EmptyFilledCell(puzzle: array2<int>)
    requires Is9x9(puzzle) && ZeroCount(Snapshot(puzzle)) < 81
    modifies puzzle
    ensures ZeroCount(Snapshot(puzzle)) == old(ZeroCount(Snapshot(puzzle))) + 1
    ensures forall r, c :: InBoard(r, c) ==> puzzle[r, c] == old(puzzle[r, c]) || puzzle[r, c] == 0
  {
    ghost var before := Snapshot(puzzle);
    FilledCellExists(before);
    var row, col :| 0 <= row < 9 && 0 <= col < 9 && puzzle[row, col] != 0;
    puzzle[row, col] := 0;
    GridExt(Snapshot(puzzle), before[row := before[row][col := 0]]);
    ZeroCountWrite(before, row, col, 0);
  }

  /** A puzzle and its solution: the solution is a complete Sudoku without conflicts and every
      given (non-zero) cell of the puzzle agrees with it. */
  ghost predicate PuzzleFor(puzzle: Grid, solution: Grid) {
    && IsGrid(puzzle) && IsGrid(solution)
    && Full(solution) && Consistent(solution)
    && forall r, c :: InBoard(r, c) && puzzle[r][c] != 0 ==> puzzle[r][c] == solution[r][c]
  }

  /**
   * `generatePuzzle`: a complete board and a copy of it with `CellsToRemove(d)` cells emptied.
   * When the solver fails (the source then loops forever removing cells) the result is None.
   */
  method GeneratePuzzle(d: Option<Difficulty>, picks: seq<seq<nat>>) returns (result: Option<(Grid, Grid)>)
    requires ShufflePicks(picks)
    ensures result.Some? ==> PuzzleFor(result.value.0, result.value.1) && ZeroCount(result.value.0) == CellsToRemove(d)
  {
    var solution, solved := GenerateCompleteBoard(picks);
    if !solved {
      return None;
    }
    NoZerosCount(Snapshot(solution));
    var puzzle := RemoveNumbers(solution, d);
    return Some((Snapshot(puzzle), Snapshot(solution)));
  }
}
