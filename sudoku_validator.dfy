/**
 * The Sudoku checks of sudoku/Validator.js on a 9x9 board of values (0 = empty): whether a
 * number may stand in a cell, whether the board equals the solution, and the list of cells that
 * conflict with a cell.
 */
module SudokuValidator {
  type Grid = seq<seq<int>>

  datatype Cell = Cell(row: int, col: int)

  predicate IsGrid(g: Grid) {
    |g| == 9 && forall r :: 0 <= r < 9 ==> |g[r]| == 9
  }

  predicate InBoard(r: int, c: int) {
    0 <= r < 9 && 0 <= c < 9
  }

  /** First row (or column) of the 3x3 box holding row (or column) `i`. */
  function BoxStart(i: int): int {
    i - i % 3
  }

  predicate SameBox(r: int, c: int, r2: int, c2: int) {
    BoxStart(r2) == BoxStart(r) && BoxStart(c2) == BoxStart(c)
  }

  /** (r2, c2) is a cell other than (r, c) in its row, its column or its box. */
  predicate Peer(r: int, c: int, r2: int, c2: int) {
    InBoard(r2, c2) && (r2 != r || c2 != c) && (r2 == r || c2 == c || SameBox(r, c, r2, c2))
  }

  /** Being peers is symmetric. */
  lemma PeerSymmetric(r: int, c: int, r2: int, c2: int)
    requires InBoard(r, c) && Peer(r, c, r2, c2)
    ensures Peer(r2, c2, r, c)
  {
  }

  /** The row scan of `isValidMove`: no other cell of the row holds `num`. */
  predicate RowClear(g: Grid, row: int, col: int, num: int)
    requires IsGrid(g) && InBoard(row, col)
  {
    forall x :: 0 <= x < 9 && x != col ==> g[row][x] != num
  }

  /** The column scan. */
  predicate ColClear(g: Grid, row: int, col: int, num: int)
    requires IsGrid(g) && InBoard(row, col)
  {
    forall x :: 0 <= x < 9 && x != row ==> g[x][col] != num
  }

  /** The box scan over rows and columns `startRow..startRow+2`, `startCol..startCol+2`. */
  predicate BoxClear(g: Grid, row: int, col: int, num: int)
    requires IsGrid(g) && InBoard(row, col)
  {
    forall r, c ::
      BoxStart(row) <= r < BoxStart(row) + 3 && BoxStart(col) <= c < BoxStart(col) + 3 && (r != row || c != col)
      ==> g[r][c] != num
  }

  /** `isValidMove`: `num` may stand at (row, col) iff no peer of the cell holds it. */
  function IsValidMove(g: Grid, row: int, col: int, num: int): (ok: bool)
    requires IsGrid(g) && InBoard(row, col)
    ensures ok <==> forall r2, c2 :: Peer(row, col, r2, c2) ==> g[r2][c2] != num
  {
    ScansCoverPeers(g, row, col, num);
    RowClear(g, row, col, num) && ColClear(g, row, col, num) && BoxClear(g, row, col, num)
  }

  /** The boxes start at rows (and columns) 0, 3 and 6. */
  lemma BoxStartIn(x: int, b: int)
    requires 0 <= x < 9 && (b == 0 || b == 3 || b == 6)
    ensures BoxStart(x) == b <==> b <= x < b + 3
  {
  }

  /** The three scans together look at exactly the peers of the cell. */
  lemma ScansCoverPeers(g: Grid, row: int, col: int, num: int)
    requires IsGrid(g) && InBoard(row, col)
    ensures RowClear(g, row, col, num) && ColClear(g, row, col, num) && BoxClear(g, row, col, num)
      <==> forall r2, c2 :: Peer(row, col, r2, c2) ==> g[r2][c2] != num
  {
    var br, bc := BoxStart(row), BoxStart(col);
    assert br == 0 || br == 3 || br == 6;
    assert bc == 0 || bc == 3 || bc == 6;
    if RowClear(g, row, col, num) && ColClear(g, row, col, num) && BoxClear(g, row, col, num) {
      forall r2, c2 | Peer(row, col, r2, c2) ensures g[r2][c2] != num {
        if r2 != row && c2 != col {
          BoxStartIn(r2, br);
          BoxStartIn(c2, bc);
        }
      }
    }
    if forall r2, c2 :: Peer(row, col, r2, c2) ==> g[r2][c2] != num {
      forall r, c | br <= r < br + 3 && bc <= c < bc + 3 && (r != row || c != col) ensures g[r][c] != num {
        BoxStartIn(r, br);
        BoxStartIn(c, bc);
        assert Peer(row, col, r, c);
      }
      forall x | 0 <= x < 9 && x != col ensures g[row][x] != num {
        assert Peer(row, col, row, x);
      }
      forall x | 0 <= x < 9 && x != row ensures g[x][col] != num {
        assert Peer(row, col, x, col);
      }
    }
  }

  /** `checkWin`: the scan finds no cell where board and solution differ. */
  function CheckWin(board: Grid, solution: Grid): (won: bool)
    requires IsGrid(board) && IsGrid(solution)
    ensures won <==> board == solution
  {
    var same := forall r, c :: 0 <= r < 9 && 0 <= c < 9 ==> board[r][c] == solution[r][c];
    assert same ==> forall r :: 0 <= r < 9 ==> board[r] == solution[r];
    same
  }

  /** The row part of `getCellConflicts`, scanning columns `x..8`. */
  function RowHits(g: Grid, row: int, col: int, num: int, x: nat): (hits: seq<Cell>)
    requires IsGrid(g) && InBoard(row, col) && x <= 9
    ensures forall e :: e in hits ==> e.row == row && x <= e.col < 9 && e.col != col && g[row][e.col] == num
    ensures forall y :: x <= y < 9 && y != col && g[row][y] == num ==> Cell(row, y) in hits
    decreases 9 - x
  {
    if x == 9 then []
    else (if x != col && g[row][x] == num then [Cell(row, x)] else []) + RowHits(g, row, col, num, x + 1)
  }

  /** The column part, scanning rows `x..8`. */
  function ColHits(g: Grid, row: int, col: int, num: int, x: nat): (hits: seq<Cell>)
    requires IsGrid(g) && InBoard(row, col) && x <= 9
    ensures forall e :: e in hits ==> e.col == col && x <= e.row < 9 && e.row != row && g[e.row][col] == num
    ensures forall y :: x <= y < 9 && y != row && g[y][col] == num ==> Cell(y, col) in hits
    decreases 9 - x
  {
    if x == 9 then []
    else (if x != row && g[x][col] == num then [Cell(x, col)] else []) + ColHits(g, row, col, num, x + 1)
  }

  /** Position of a cell inside its box, in row-major order (0..8). */
  function BoxIndex(r: int, c: int): int {
    3 * (r % 3) + c % 3
  }

  /** The `k`-th cell of the box of (row, col) lies in that box and has box index `k`; it is the
      only cell of the box with that index. */
  lemma BoxCell(row: int, col: int, k: int)
    requires InBoard(row, col) && 0 <= k < 9
    ensures var r := k / 3 + BoxStart(row);
      var c := k % 3 + BoxStart(col);
      && InBoard(r, c) && SameBox(row, col, r, c) && BoxIndex(r, c) == k
      && forall r2, c2 :: InBoard(r2, c2) && SameBox(row, col, r2, c2) && BoxIndex(r2, c2) == k ==> r2 == r && c2 == c
  {
    var br, bc := BoxStart(row), BoxStart(col);
    assert br == 0 || br == 3 || br == 6;
    assert bc == 0 || bc == 3 || bc == 6;
    var r := k / 3 + br;
    var c := k % 3 + bc;
    BoxStartIn(r, br);
    BoxStartIn(c, bc);
    forall r2, c2 | InBoard(r2, c2) && SameBox(row, col, r2, c2) && BoxIndex(r2, c2) == k
      ensures r2 == r && c2 == c
    {
      BoxStartIn(r2, br);
      BoxStartIn(c2, bc);
    }
  }

  /** The box part, visiting the box's cells `k..8` in row-major order (cell k is row k / 3,
      column k % 3 of the box). */
  function BoxHits(g: Grid, row: int, col: int, num: int, k: nat): (hits: seq<Cell>)
    requires IsGrid(g) && InBoard(row, col) && k <= 9
    ensures forall e :: e in hits ==>
      SameBox(row, col, e.row, e.col) && InBoard(e.row, e.col) && (e.row != row || e.col != col) && g[e.row][e.col] == num
    ensures forall r, c ::
      InBoard(r, c) && SameBox(row, col, r, c) && BoxIndex(r, c) >= k && (r != row || c != col) && g[r][c] == num
      ==> Cell(r, c) in hits
    decreases 9 - k
  {
    if k == 9 then []
    else
      var r := k / 3 + BoxStart(row);
      var c := k % 3 + BoxStart(col);
      BoxCell(row, col, k);
      (if (r != row || c != col) && g[r][c] == num then [Cell(r, c)] else []) + BoxHits(g, row, col, num, k + 1)
  }

  /**
   * `getCellConflicts`: nothing for an empty cell; otherwise the row, column and box cells other
   * than (row, col) holding the same value (a box cell in the same row or column appears twice).
   */
  function GetCellConflicts(g: Grid, row: int, col: int): (cs: seq<Cell>)
    requires IsGrid(g) && InBoard(row, col)
    ensures g[row][col] == 0 ==> cs == []
    ensures forall e :: e in cs ==> Peer(row, col, e.row, e.col) && g[e.row][e.col] == g[row][col]
    ensures g[row][col] != 0 ==>
      forall r2, c2 :: Peer(row, col, r2, c2) && g[r2][c2] == g[row][col] ==> Cell(r2, c2) in cs
  {
    var num := g[row][col];
    if num == 0 then []
    else
      var rh := RowHits(g, row, col, num, 0);
      var ch := ColHits(g, row, col, num, 0);
      var bh := BoxHits(g, row, col, num, 0);
      assert forall e :: e in rh + ch + bh ==> Peer(row, col, e.row, e.col) && g[e.row][e.col] == num by {
        forall e | e in rh + ch + bh {
          HitsSound(g, row, col, e);
        }
      }
      assert forall r2, c2 :: Peer(row, col, r2, c2) && g[r2][c2] == num ==> Cell(r2, c2) in rh + ch + bh by {
        forall r2, c2 | Peer(row, col, r2, c2) && g[r2][c2] == num {
          HitsComplete(g, row, col, r2, c2);
        }
      }
      rh + ch + bh
  }

  /** Every cell the three scans report is a peer holding the cell's value. */
  lemma HitsSound(g: Grid, row: int, col: int, e: Cell)
    requires IsGrid(g) && InBoard(row, col)
    requires var num := g[row][col];
      e in RowHits(g, row, col, num, 0) + ColHits(g, row, col, num, 0) + BoxHits(g, row, col, num, 0)
    ensures Peer(row, col, e.row, e.col) && g[e.row][e.col] == g[row][col]
  {
    var num := g[row][col];
    if e in RowHits(g, row, col, num, 0) {
    } else if e in ColHits(g, row, col, num, 0) {
    } else {
      assert e in BoxHits(g, row, col, num, 0);
    }
  }

  /** A peer holding the cell's value is found by the row, the column or the box scan. */
  lemma HitsComplete(g: Grid, row: int, col: int, r2: int, c2: int)
    requires IsGrid(g) && InBoard(row, col) && Peer(row, col, r2, c2) && g[r2][c2] == g[row][col]
    ensures var num := g[row][col];
      Cell(r2, c2) in RowHits(g, row, col, num, 0) + ColHits(g, row, col, num, 0) + BoxHits(g, row, col, num, 0)
  {
    var num := g[row][col];
    if r2 == row {
      assert Cell(r2, c2) in RowHits(g, row, col, num, 0);
    } else if c2 == col {
      assert Cell(r2, c2) in ColHits(g, row, col, num, 0);
    } else {
      assert BoxIndex(r2, c2) >= 0;
      assert Cell(r2, c2) in BoxHits(g, row, col, num, 0);
    }
  }

  /** A filled cell shows no conflict exactly when `isValidMove` accepts its value there. */
  lemma ConflictsIffInvalid(g: Grid, row: int, col: int)
    requires IsGrid(g) && InBoard(row, col) && g[row][col] != 0
    ensures GetCellConflicts(g, row, col) == [] <==> IsValidMove(g, row, col, g[row][col])
  {
    var cs := GetCellConflicts(g, row, col);
    if cs != [] {
      assert Peer(row, col, cs[0].row, cs[0].col);
    }
  }

  /** Every filled cell passes `isValidMove` with its own value. */
  ghost predicate Consistent(g: Grid)
    requires IsGrid(g)
  {
    forall r, c {:trigger IsValidMove(g, r, c, g[r][c])} :: InBoard(r, c) && g[r][c] != 0 ==> IsValidMove(g, r, c, g[r][c])
  }

  /** Every cell holds a digit 1..9. */
  ghost predicate Full(g: Grid)
    requires IsGrid(g)
  {
    forall r, c :: InBoard(r, c) ==> 1 <= g[r][c] <= 9
  }

  /** Every cell holds 0 (empty) or a digit. */
  ghost predicate Digits(g: Grid)
    requires IsGrid(g)
  {
    forall r, c :: InBoard(r, c) ==> 0 <= g[r][c] <= 9
  }
}
