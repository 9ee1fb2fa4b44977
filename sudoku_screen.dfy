/**
 * The Sudoku screen (SudokuScreen.js): starting a game from the generator, selecting editable
 * cells, entering numbers with the mistake counter and the win, the one-second timer and the
 * mm:ss display.
 */
module SudokuScreen {
  import opened Common
  import opened SudokuValidator
  import opened SudokuGenerator

  /** Decimal digit character of 0..9. */
  function DigitChar(d: int): char
    requires 0 <= d < 10
  {
    ('0' as int + d) as char
  }

  predicate IsDigitChar(ch: char) {
    '0' <= ch <= '9'
  }

  /** `n.toString()` for a natural number: decimal digits, no leading zero. */
  function NatToString(n: nat): (s: string)
    ensures 1 <= |s| && (n < 10 ==> |s| == 1) && (10 <= n < 100 ==> |s| == 2)
    ensures forall i :: 0 <= i < |s| ==> IsDigitChar(s[i])
    ensures |s| > 1 ==> s[0] != '0'
  {
    if n < 10 then [DigitChar(n)] else NatToString(n / 10) + [DigitChar(n % 10)]
  }

  /** The number a string of decimal digits denotes (leading zeros allowed). */
  function DigitsValue(s: string): nat
    requires forall i :: 0 <= i < |s| ==> IsDigitChar(s[i])
  {
    if s == [] then 0
    else
      assert IsDigitChar(s[|s| - 1]);
      DigitsValue(s[..|s| - 1]) * 10 + (s[|s| - 1] as int - '0' as int)
  }

  /** Reading back the decimal form gives the number. */
  lemma {:induction false} NatToStringValue(n: nat)
    ensures DigitsValue(NatToString(n)) == n
  {
    var s := NatToString(n);
    if n >= 10 {
      assert s[..|s| - 1] == NatToString(n / 10);
      NatToStringValue(n / 10);
    }
  }

  /** A leading '0' does not change the value. */
  lemma {:induction false} LeadingZeroValue(s: string)
    requires forall i :: 0 <= i < |s| ==> IsDigitChar(s[i])
    ensures DigitsValue("0" + s) == DigitsValue(s)
  {
    if s != [] {
      assert ("0" + s)[..|s|] == "0" + s[..|s| - 1];
      LeadingZeroValue(s[..|s| - 1]);
    }
  }

  /** `padStart(2, '0')`. */
  function Pad2(s: string): (p: string)
    ensures |p| == if |s| >= 2 then |s| else 2
  {
    if |s| >= 2 then s else if |s| == 1 then "0" + s else "00"
  }

  /** Padding a one- or two-digit decimal string keeps its digits and its value. */
  lemma Pad2Value(s: string)
    requires 1 <= |s| && forall i :: 0 <= i < |s| ==> IsDigitChar(s[i])
    ensures forall i :: 0 <= i < |Pad2(s)| ==> IsDigitChar(Pad2(s)[i])
    ensures DigitsValue(Pad2(s)) == DigitsValue(s)
  {
    if |s| == 1 {
      LeadingZeroValue(s);
    }
  }

  /**
   * `formatTime`: minutes (at least two digits), ':', then the seconds within the minute in
   * exactly two digits; both parts read back as `seconds / 60` and `seconds % 60`.
   */
  function FormatTime(seconds: nat): (r: string)
    ensures |r| >= 5 && r[|r| - 3] == ':'
    ensures forall i :: 0 <= i < |r| && i != |r| - 3 ==> IsDigitChar(r[i])
    ensures DigitsValue(r[..|r| - 3]) == seconds / 60
    ensures DigitsValue(r[|r| - 2..]) == seconds % 60
  {
    var mins, secs := seconds / 60, seconds % 60;
    var m := Pad2(NatToString(mins));
    var s := Pad2(NatToString(secs));
    Pad2Value(NatToString(mins));
    Pad2Value(NatToString(secs));
    NatToStringValue(mins);
    NatToStringValue(secs);
    ClockShape(m, s);
    m + ":" + s
  }

  /** Joining two digit strings, the second of length two, with ':' between them. */
  lemma ClockShape(m: string, s: string)
    requires |m| >= 2 && |s| == 2
    requires forall i :: 0 <= i < |m| ==> IsDigitChar(m[i])
    requires forall i :: 0 <= i < |s| ==> IsDigitChar(s[i])
    ensures var r := m + ":" + s;
      && |r| >= 5 && r[|r| - 3] == ':'
      && (forall i :: 0 <= i < |r| && i != |r| - 3 ==> IsDigitChar(r[i]))
      && r[..|r| - 3] == m && r[|r| - 2..] == s
  {
    var r := m + ":" + s;
    assert r[..|r| - 3] == m && r[|r| - 2..] == s;
  }

  /** Writing `num` into cell (row, col). */
  function Write(g: Grid, row: int, col: int, num: int): (h: Grid)
    requires IsGrid(g) && InBoard(row, col)
    ensures IsGrid(h) && h[row][col] == num
    ensures forall r, c :: InBoard(r, c) && (r != row || c != col) ==> h[r][c] == g[r][c]
  {
    g[row := g[row][col := num]]
  }

  /** The mistake test of `inputNumber`: a non-zero number that `isValidMove` rejects at the
      cell it was written to. */
  function IsMistake(g: Grid, row: int, col: int, num: int): (bad: bool)
    requires IsGrid(g) && InBoard(row, col)
    ensures bad <==> num != 0 && exists r2, c2 :: Peer(row, col, r2, c2) && g[r2][c2] == num
  {
    num != 0 && !IsValidMove(g, row, col, num)
  }

  /** A mistake is counted exactly when the cell just written then shows conflicts. */
  lemma MistakeIffConflicts(g: Grid, row: int, col: int, num: int)
    requires IsGrid(g) && InBoard(row, col) && g[row][col] == num
    ensures IsMistake(g, row, col, num) <==> GetCellConflicts(g, row, col) != []
  {
    if num != 0 {
      ConflictsIffInvalid(g, row, col);
    }
  }

  /** Every cell given in `initial` still holds its value in `board`. */
  ghost predicate KeepsGivens(initial: Grid, board: Grid)
    requires IsGrid(initial) && IsGrid(board)
  {
    forall r, c :: InBoard(r, c) && initial[r][c] != 0 ==> board[r][c] == initial[r][c]
  }

  /** Writing into a cell that is empty in `initial` keeps the givens. */
  lemma WriteKeepsGivens(initial: Grid, board: Grid, row: int, col: int, num: int)
    requires IsGrid(initial) && IsGrid(board) && InBoard(row, col) && initial[row][col] == 0
    requires KeepsGivens(initial, board)
    ensures KeepsGivens(initial, Write(board, row, col, num))
  {
  }

  class SudokuGame {
    var difficulty: Difficulty
    /** False until the first puzzle arrives (the source's `null` boards). */
    var loaded: bool
    var puzzle: Grid
    var solution: Grid
    var board: Grid
    var initialBoard: Grid
    var selected: Option<Cell>
    var mistakes: nat
    var timer: nat
    var isRunning: bool
    var hasWon: bool

    /**
     * With a puzzle loaded: the solution is a complete consistent Sudoku, the given cells agree
     * with it, the board still holds every given cell, a selected cell is an editable one, and
     * the win flag means the board is the solution.
     */
    ghost predicate Valid()
      reads this
    {
      && (loaded ==>
            && PuzzleFor(puzzle, solution) && IsGrid(board) && initialBoard == puzzle
            && KeepsGivens(initialBoard, board))
      && (selected.Some? ==>
            loaded && InBoard(selected.value.row, selected.value.col) && initialBoard[selected.value.row][selected.value.col] == 0)
      && (hasWon ==> loaded && board == solution)
    }

    /** The screen before its first puzzle: medium, nothing loaded, timer stopped. */
    constructor()
      ensures Valid() && difficulty == Medium && !loaded && selected == None
      ensures mistakes == 0 && timer == 0 && !isRunning && !hasWon
    {
      difficulty := Medium;
      loaded := false;
      puzzle := [];
      solution := [];
      board := [];
      initialBoard := [];
      selected := None;
      mistakes := 0;
      timer := 0;
      isRunning := false;
      hasWon := false;
    }

    /**
     * `startNewGame`: a fresh puzzle of difficulty `d` copied into `board` and `initialBoard`, no
     * selection, no mistakes, timer at 0 and running, not won. When the generator has no result
     * (see `GeneratePuzzle`) the screen stays as it was.
     */
    method StartNewGame(d: Difficulty, picks: seq<seq<nat>>) returns (started: bool)
      requires Valid() && ShufflePicks(picks)
      modifies this
      ensures Valid() && difficulty == old(difficulty)
      ensures !started ==> unchanged(this)
      ensures started ==>
        && loaded && board == puzzle && initialBoard == puzzle
        && ZeroCount(puzzle) == CellsToRemove(Some(d))
        && selected == None && mistakes == 0 && timer == 0 && isRunning && !hasWon
    {
      var result := GeneratePuzzle(Some(d), picks);
      if result == None {
        return false;
      }
      var (newPuzzle, newSolution) := result.value;
      Load(newPuzzle, newSolution);
      return true;
    }

    /** Show the puzzle `p` (solved by `s`) from scratch: no selection, no mistakes, timer at 0
        and running, not won. */
    method Load(p: Grid, s: Grid)
      requires PuzzleFor(p, s)
      modifies this
      ensures Valid() && difficulty == old(difficulty)
      ensures loaded && puzzle == p && solution == s && board == p && initialBoard == p
      ensures selected == None && mistakes == 0 && timer == 0 && isRunning && !hasWon
    {
      puzzle, solution, board, initialBoard, loaded := p, s, p, p, true;
      selected, mistakes, timer, isRunning, hasWon := None, 0, 0, true, false;
    }

    /** A difficulty button: remember the difficulty, then start a game of it. */
    method ChooseDifficulty(d: Difficulty, picks: seq<seq<nat>>) returns (started: bool)
      requires Valid() && ShufflePicks(picks)
      modifies this
      ensures Valid() && difficulty == d
      ensures !started ==>
        && loaded == old(loaded) && puzzle == old(puzzle) && solution == old(solution)
        && board == old(board) && initialBoard == old(initialBoard) && selected == old(selected)
        && mistakes == old(mistakes) && timer == old(timer) && isRunning == old(isRunning) && hasWon == old(hasWon)
      ensures started ==>
        && loaded && board == puzzle && initialBoard == puzzle
        && ZeroCount(puzzle) == CellsToRemove(Some(d))
        && selected == None && mistakes == 0 && timer == 0 && isRunning && !hasWon
    {
      difficulty := d;
      started := StartNewGame(d, picks);
    }

    /** `selectCell`: only a cell that is empty in the initial board can be selected. */
    method SelectCell(row: int, col: int)
      requires Valid() && InBoard(row, col)
      modifies this
      ensures Valid()
      ensures selected == if loaded && initialBoard[row][col] == 0 then Some(Cell(row, col)) else old(selected)
      ensures board == old(board) && mistakes == old(mistakes) && hasWon == old(hasWon) && loaded == old(loaded)
      ensures initialBoard == old(initialBoard) && solution == old(solution) && puzzle == old(puzzle)
      ensures timer == old(timer) && isRunning == old(isRunning) && difficulty == old(difficulty)
    {
      if loaded && initialBoard[row][col] == 0 {
        selected := Some(Cell(row, col));
      }
    }

    /**
     * `inputNumber`: without a selection or after the win nothing happens. Otherwise `num` (0
     * clears) goes into the selected cell only; a non-zero number that `isValidMove` rejects
     * there costs one mistake; a board equal to the solution wins and stops the timer.
     */
    method InputNumber(num: int)
      requires Valid() && 0 <= num <= 9
      modifies this
      ensures Valid()
      ensures old(selected) == None || old(hasWon) ==> unchanged(this)
      ensures old(selected) != None && !old(hasWon) ==>
        var Cell(row, col) := old(selected).value;
        && board == Write(old(board), row, col, num)
        && mistakes == old(mistakes) + (if IsMistake(board, row, col, num) then 1 else 0)
        && hasWon == (board == solution)
        && isRunning == (old(isRunning) && board != solution)
        && selected == old(selected) && timer == old(timer)
        && puzzle == old(puzzle) && solution == old(solution) && initialBoard == old(initialBoard)
        && loaded == old(loaded) && difficulty == old(difficulty)
    {
      if selected == None || hasWon {
        return;
      }
      var row, col := selected.value.row, selected.value.col;
      var newBoard := Write(board, row, col, num);
      if IsMistake(newBoard, row, col, num) {
        mistakes := mistakes + 1;
      }
      WriteKeepsGivens(initialBoard, board, row, col, num);
      board := newBoard;
      if CheckWin(newBoard, solution) {
        hasWon := true;
        isRunning := false;
      }
    }

    /** One tick of the one-second interval, which runs only while the game runs and is not won. */
    method Tick()
      requires Valid()
      modifies this
      ensures Valid()
      ensures timer == if old(isRunning) && !old(hasWon) then old(timer) + 1 else old(timer)
      ensures board == old(board) && selected == old(selected) && mistakes == old(mistakes)
      ensures hasWon == old(hasWon) && isRunning == old(isRunning) && loaded == old(loaded)
      ensures puzzle == old(puzzle) && solution == old(solution) && initialBoard == old(initialBoard)
      ensures difficulty == old(difficulty)
    {
      if isRunning && !hasWon {
        timer := timer + 1;
      }
    }
  }

  /** A won board is a complete Sudoku with no conflict anywhere. */
  lemma WonBoardIsSolved(game: SudokuGame)
    requires game.Valid() && game.hasWon
    ensures IsGrid(game.board) && Full(game.board) && Consistent(game.board)
    ensures forall r, c :: InBoard(r, c) ==> GetCellConflicts(game.board, r, c) == []
  {
    forall r, c | InBoard(r, c)
      ensures GetCellConflicts(game.board, r, c) == []
    {
      ConflictsIffInvalid(game.board, r, c);
    }
  }
}
