/**
 * Tetris (TetrisScreen.js): the seven tetrominoes and their rotation tables, the validity of a
 * piece position on the 20 x 10 board, the moves with wall kicks, the hard drop, and locking a
 * piece with line clearing, scoring and levels.
 */
module Tetris {
  import opened Common

  const Rows: int := 20
  const Cols: int := 10

  datatype Kind = I | O | T | S | Z | J | L

  /** A board cell: empty (`null`) or the colour of the piece kind that filled it. */
  type Row = seq<Option<Kind>>
  type Board = seq<Row>

  /** A falling piece: its kind, its rotation index and the board position of its origin. */
  datatype Piece = Piece(key: Kind, rotation: nat, row: int, col: int)

  /** `PIECES[key].rotations`: the (row, col) offsets of the four cells, per rotation. */
  function Rotations(k: Kind): (rs: seq<seq<(int, int)>>)
    ensures 1 <= |rs| <= 4 && forall i :: 0 <= i < |rs| ==> |rs[i]| == 4
  {
    match k
    case I => [[(0, 0), (0, 1), (0, 2), (0, 3)], [(0, 0), (1, 0), (2, 0), (3, 0)]]
    case O => [[(0, 0), (0, 1), (1, 0), (1, 1)]]
    case T => [[(0, 0), (0, 1), (0, 2), (1, 1)], [(0, 0), (1, 0), (2, 0), (1, 1)],
               [(1, 0), (1, 1), (1, 2), (0, 1)], [(0, 0), (1, 0), (2, 0), (1, -1)]]
    case S => [[(0, 1), (0, 2), (1, 0), (1, 1)], [(0, 0), (1, 0), (1, 1), (2, 1)]]
    case Z => [[(0, 0), (0, 1), (1, 1), (1, 2)], [(0, 1), (1, 0), (1, 1), (2, 0)]]
    case J => [[(0, 0), (1, 0), (1, 1), (1, 2)], [(0, 0), (0, 1), (1, 0), (2, 0)],
               [(0, 0), (0, 1), (0, 2), (1, 2)], [(0, 0), (1, 0), (2, 0), (2, -1)]]
    case L => [[(0, 2), (1, 0), (1, 1), (1, 2)], [(0, 0), (1, 0), (2, 0), (2, 1)],
               [(0, 0), (0, 1), (0, 2), (1, 0)], [(0, 0), (0, 1), (1, 1), (2, 1)]]
  }

  /** Every rotation of every kind has four different cells, rows 0..3 and columns -1..3 from
      the origin, one of them in the origin's row. */
  lemma RotationsShape(k: Kind, i: nat)
    requires i < |Rotations(k)|
    ensures var rot := Rotations(k)[i];
      && (forall a, b :: 0 <= a < b < 4 ==> rot[a] != rot[b])
      && (forall a :: 0 <= a < 4 ==> 0 <= rot[a].0 <= 3 && -1 <= rot[a].1 <= 3)
      && exists a :: 0 <= a < 4 && rot[a].0 == 0
  {
    var rot := Rotations(k)[i];
    assert rot[0].0 == 0 || rot[1].0 == 0 || rot[3].0 == 0;
  }

  /** `getPieceCells`: the rotation's offsets (rotation taken modulo the number of rotations)
      added to the piece's position. */
  function PieceCells(p: Piece): (cells: seq<(int, int)>)
    ensures |cells| == 4
  {
    var rots := Rotations(p.key);
    var rot := rots[p.rotation % |rots|];
    seq(4, i requires 0 <= i < 4 => (p.row + rot[i].0, p.col + rot[i].1))
  }

  /** Moving a piece moves each of its cells by the same amount. */
  lemma CellsShift(p: Piece, dr: int, dc: int)
    ensures forall i :: 0 <= i < 4 ==>
      PieceCells(p.(row := p.row + dr, col := p.col + dc))[i] == (PieceCells(p)[i].0 + dr, PieceCells(p)[i].1 + dc)
  {
  }

  /** Each cell lies at most three rows below the piece's row, and one lies in that row. */
  lemma CellsRows(p: Piece)
    ensures forall i :: 0 <= i < 4 ==> p.row <= PieceCells(p)[i].0 <= p.row + 3
    ensures exists i :: 0 <= i < 4 && PieceCells(p)[i].0 == p.row
  {
    var rots := Rotations(p.key);
    RotationsShape(p.key, p.rotation % |rots|);
    var rot: seq<(int, int)> := rots[p.rotation % |rots|];
    var a: int :| 0 <= a < 4 && rot[a].0 == 0;
    assert PieceCells(p)[a].0 == p.row;
  }

  predicate InGrid(cell: (int, int)) {
    0 <= cell.0 < Rows && 0 <= cell.1 < Cols
  }

  predicate IsBoard(b: Board) {
    |b| == Rows && forall r :: 0 <= r < |b| ==> |b[r]| == Cols
  }

  /** `isValid`: every cell of the piece is on the board and empty. */
  function IsValid(p: Piece, b: Board): (ok: bool)
    requires IsBoard(b)
    ensures ok ==> 0 <= p.row < Rows
  {
    CellsRows(p);
    forall i :: 0 <= i < 4 ==> InGrid(PieceCells(p)[i]) && b[PieceCells(p)[i].0][PieceCells(p)[i].1] == None
  }

  /** A row with every cell empty. */
  function EmptyRow(): (row: Row)
    ensures |row| == Cols && forall c :: 0 <= c < Cols ==> row[c] == None
  {
    seq(Cols, c => None)
  }

  /** `makeBoard`: 20 empty rows. */
  function EmptyRows(n: nat): (b: Board)
    ensures |b| == n && forall r :: 0 <= r < n ==> b[r] == EmptyRow()
  {
    seq(n, r => EmptyRow())
  }

  /** `randomPiece` for the drawn kind: rotation 0 at row 0, column 4. */
  function Spawn(k: Kind): (p: Piece)
    ensures p.key == k && p.rotation == 0 && p.row == 0 && p.col == Cols / 2 - 1
  {
    Piece(k, 0, 0, Cols / 2 - 1)
  }

  /** A freshly spawned piece fits on an empty board. */
  lemma SpawnFitsEmpty(k: Kind)
    ensures IsValid(Spawn(k), EmptyRows(Rows))
  {
    RotationsShape(k, 0);
  }

  predicate IsFull(row: Row) {
    forall c :: 0 <= c < |row| ==> row[c].Some?
  }

  /** No row of the empty board is full. */
  lemma EmptyBoardNotFull()
    ensures forall r :: 0 <= r < Rows ==> !IsFull(EmptyRows(Rows)[r])
  {
    forall r | 0 <= r < Rows
      ensures !IsFull(EmptyRows(Rows)[r])
    {
      assert EmptyRows(Rows)[r][0] == None;
    }
  }

  /** The rows that are not full, in their order. */
  function Keep(b: Board): (k: Board)
    ensures |k| <= |b|
    ensures forall r :: 0 <= r < |k| ==> !IsFull(k[r])
  {
    if b == [] then []
    else (if IsFull(b[0]) then [] else [b[0]]) + Keep(b[1..])
  }

  /** Number of full rows. */
  function FullCount(b: Board): nat {
    |b| - |Keep(b)|
  }

  /** The board after clearing: full rows removed, that many empty rows added on top. */
  function Cleared(b: Board): Board {
    EmptyRows(FullCount(b)) + Keep(b)
  }

  /** Clearing keeps a 20 x 10 board, leaves no full row and keeps every other row in order. */
  lemma {:induction false} ClearedShape(b: Board)
    requires IsBoard(b)
    ensures IsBoard(Cleared(b))
    ensures forall r :: 0 <= r < Rows ==> !IsFull(Cleared(b)[r])
    ensures Cleared(b)[FullCount(b)..] == Keep(b)
  {
    var e := EmptyRows(FullCount(b));
    var c := Cleared(b);
    KeepRowLength(b);
    forall r | 0 <= r < Rows
      ensures !IsFull(c[r]) && |c[r]| == Cols
    {
      if r < |e| {
        assert c[r] == EmptyRow();
        assert c[r][0] == None;
      } else {
        assert c[r] == Keep(b)[r - |e|];
      }
    }
  }

  /** Kept rows have the board's row length. */
  lemma {:induction false} KeepRowLength(b: Board)
    requires forall r :: 0 <= r < |b| ==> |b[r]| == Cols
    ensures forall r :: 0 <= r < |Keep(b)| ==> |Keep(b)[r]| == Cols
  {
    if b != [] {
      KeepRowLength(b[1..]);
    }
  }

  /** A board without full rows is its own clearing. */
  lemma {:induction false} NothingToClear(b: Board)
    requires forall r :: 0 <= r < |b| ==> !IsFull(b[r])
    ensures Keep(b) == b && FullCount(b) == 0
  {
    if b != [] {
      NothingToClear(b[1..]);
      assert b == [b[0]] + b[1..];
    }
  }

  /** The board while the clearing loop runs: `cleared` new empty rows, the rows of `b0` not
      yet examined, and the examined rows of `b0` that were not full. */
  function Clearing(b0: Board, cleared: nat, p: nat): Board
    requires p <= |b0|
  {
    EmptyRows(cleared) + b0[..p] + Keep(b0[p..])
  }

  /** Removing the full row just above the examined ones and adding an empty row on top. */
  lemma ClearStepFull(b0: Board, cleared: nat, p: nat)
    requires 1 <= p <= |b0| && IsFull(b0[p - 1])
    ensures var b := Clearing(b0, cleared, p);
      var r := cleared + p - 1;
      b[r] == b0[p - 1] && [EmptyRow()] + b[..r] + b[r + 1..] == Clearing(b0, cleared + 1, p - 1)
  {
    var b := Clearing(b0, cleared, p);
    var r := cleared + p - 1;
    assert b0[p - 1..][1..] == b0[p..];
    assert b[..r] == EmptyRows(cleared) + b0[..p - 1];
    assert b[r + 1..] == Keep(b0[p..]);
    assert [EmptyRow()] + EmptyRows(cleared) == EmptyRows(cleared + 1);
  }

  /** Passing over a row that is not full. */
  lemma ClearStepKeep(b0: Board, cleared: nat, p: nat)
    requires 1 <= p <= |b0| && !IsFull(b0[p - 1])
    ensures var b := Clearing(b0, cleared, p);
      b[cleared + p - 1] == b0[p - 1] && b == Clearing(b0, cleared, p - 1)
  {
    assert b0[p - 1..][1..] == b0[p..];
    assert b0[..p] == b0[..p - 1] + [b0[p - 1]];
  }

  /**
   * The clearing loop of `lockPiece`: from the bottom row up, a full row is spliced out and an
   * empty row unshifted on top, and the same index is examined again; `cleared` counts them.
   */
  method ClearFullRows(b0: Board) returns (b: Board, cleared: nat)
    requires IsBoard(b0)
    ensures b == Cleared(b0) && cleared == FullCount(b0)
  {
    b := b0;
    cleared := 0;
    var r := Rows - 1;
    ghost var p: nat := |b0|;
    assert b0[..p] == b0 && b0[p..] == [];
    while r >= 0
      invariant -1 <= r < Rows && |b| == Rows && p <= |b0|
      invariant p == if r + 1 >= cleared then r + 1 - cleared else 0
      invariant b == Clearing(b0, cleared, p)
      decreases r + 1, p
    {
      b, cleared, r, p := ClearStep(b0, b, cleared, r, p);
    }
    assert b0[..0] == [] && b0[0..] == b0;
  }

  /** One round of the clearing loop at row `r`: a full row is spliced out, an empty row put on
      top and `r` examined again; any other row moves the scan one row up. */
  method ClearStep(ghost b0: Board, b: Board, cleared: nat, r: int, ghost p: nat)
    returns (b': Board, cleared': nat, r': int, ghost p': nat)
    requires IsBoard(b0) && 0 <= r < Rows && |b| == Rows && p <= |b0|
    requires p == if r + 1 >= cleared then r + 1 - cleared else 0
    requires b == Clearing(b0, cleared, p)
    ensures -1 <= r' < Rows && |b'| == Rows && p' <= |b0|
    ensures p' == if r' + 1 >= cleared' then r' + 1 - cleared' else 0
    ensures b' == Clearing(b0, cleared', p')
    ensures r' < r || (r' == r && p' < p)
  {
    if p == 0 {
      assert b[r] == EmptyRow();
      assert b[r][0] == None;
    } else {
      assert r == cleared + p - 1;
      if IsFull(b0[p - 1]) {
        ClearStepFull(b0, cleared, p);
      } else {
        ClearStepKeep(b0, cleared, p);
      }
    }
    if IsFull(b[r]) {
      b', cleared', r', p' := [EmptyRow()] + b[..r] + b[r + 1..], cleared + 1, r, p - 1;
    } else {
      b', cleared', r', p' := b, cleared, r - 1, if p > 0 then p - 1 else 0;
    }
  }

  /** The rows of `rows` in `lo..hi-1`. */
  function RowsBetween(rows: set<int>, lo: int, hi: int): set<int> {
    set x | x in rows && lo <= x < hi
  }

  /** When every full row of `s` (shifted by `off`) is in `rows`, there are no more full rows
      than members of `rows` in the range `s` covers. */
  lemma {:induction false} FullCountBound(s: Board, rows: set<int>, off: int)
    requires forall r :: 0 <= r < |s| && IsFull(s[r]) ==> off + r in rows
    ensures FullCount(s) <= |RowsBetween(rows, off, off + |s|)|
  {
    if s != [] {
      assert FullCount(s) == (if IsFull(s[0]) then 1 else 0) + FullCount(s[1..]);
      FullCountBound(s[1..], rows, off + 1);
      var all := RowsBetween(rows, off, off + |s|);
      var rest := RowsBetween(rows, off + 1, off + |s|);
      if off in rows {
        assert all == rest + {off};
      } else {
        assert all == rest;
      }
    }
  }

  /** A set of at most four values drawn from four cells. */
  lemma RowsOfCells(p: Piece) returns (rows: set<int>)
    ensures |rows| <= 4
    ensures forall i :: 0 <= i < 4 ==> PieceCells(p)[i].0 in rows
  {
    var cells := PieceCells(p);
    rows := {cells[0].0, cells[1].0, cells[2].0, cells[3].0};
    assert |{cells[0].0, cells[1].0}| <= 2;
    assert |{cells[0].0, cells[1].0, cells[2].0}| <= 3;
  }

  /**
   * Locking a piece onto a board without full rows clears at most four rows, so the points
   * table always has an entry for a clear and the fallback of 800 is never used.
   */
  lemma LockClearsAtMostFour(b: Board, p: Piece)
    requires IsBoard(b) && NoFullRow(b)
    ensures FullCount(StampResult(b, p)) <= 4
  {
    var st := StampResult(b, p);
    var rows := RowsOfCells(p);
    forall r | 0 <= r < |st| && IsFull(st[r])
      ensures 0 + r in rows
    {
      var c :| 0 <= c < |b[r]| && b[r][c].None?;
      assert st[r][c].Some?;
      var i :| 0 <= i < 4 && PieceCells(p)[i] == (r, c);
    }
    FullCountBound(st, rows, 0);
    var between := RowsBetween(rows, 0, |st|);
    SubsetCard(between, rows);
  }

  /** `[0, 100, 300, 500, 800][n] || 800`: the base points for clearing n rows. */
  function Points(n: nat): (pts: nat)
    ensures 1 <= n <= 4 ==> pts == [0, 100, 300, 500, 800][n]
    ensures (n == 0 || n > 4) ==> pts == 800
  {
    if 1 <= n <= 4 then [0, 100, 300, 500, 800][n] else 800
  }

  /** The level reached after `lines` cleared lines: one more than the completed tens. */
  function LevelFor(lines: nat): (level: nat)
    ensures level >= 1
  {
    lines / 10 + 1
  }

  /** The score after clearing `n` rows at `level`: the base points times the level are added. */
  function Scored(score: nat, level: nat, n: nat): (s: nat)
    ensures s >= score + 100 * level
    ensures s <= score + 800 * level
    ensures s == score <==> level == 0
  {
    score + Points(n) * level
  }

  /** The drop interval in milliseconds for a level. */
  function DropInterval(level: int): (ms: int)
    ensures 100 <= ms && (level >= 1 ==> ms <= 800)
    ensures ms == 100 <==> level >= 13
  {
    var v := 800 - (level - 1) * 60;
    if v > 100 then v else 100
  }

  /** Higher levels never drop more slowly. */
  lemma DropIntervalMonotone(l1: int, l2: int)
    requires l1 <= l2
    ensures DropInterval(l2) <= DropInterval(l1)
  {
  }

  /** The write loop of `lockPiece`: each of the piece's cells that is on the board gets the
      piece's colour; every other cell is unchanged. */
  method Stamp(b0: Board, p: Piece) returns (b: Board)
    requires IsBoard(b0)
    ensures b == StampResult(b0, p)
  {
    var cells := PieceCells(p);
    b := b0;
    var i := 0;
    while i < 4
      invariant 0 <= i <= 4 && StampedUpTo(b0, b, cells, i, p.key)
    {
      var (r, c) := cells[i];
      ghost var prev := b;
      if 0 <= r < Rows && 0 <= c < Cols {
        b := b[r := b[r][c := Some(p.key)]];
      }
      StampStep(b0, prev, b, cells, i, p.key);
      i := i + 1;
    }
    assert cells[..4] == cells;
    StampIsResult(b0, p, b);
  }

  /** The cells of `b` in `cells[..i]` hold `key`; the others are as in `b0`. */
  ghost predicate StampedUpTo(b0: Board, b: Board, cells: seq<(int, int)>, i: nat, key: Kind)
    requires i <= |cells|
  {
    && IsBoard(b0) && IsBoard(b)
    && forall r, c :: 0 <= r < Rows && 0 <= c < Cols ==>
      b[r][c] == if (r, c) in cells[..i] then Some(key) else b0[r][c]
  }

  /** Writing `key` into cell `cells[i]` when it is on the board extends the stamp by one cell. */
  lemma StampStep(b0: Board, b: Board, b': Board, cells: seq<(int, int)>, i: nat, key: Kind)
    requires i < |cells| && StampedUpTo(b0, b, cells, i, key)
    requires var (r, c) := cells[i];
      b' == if 0 <= r < Rows && 0 <= c < Cols then b[r := b[r][c := Some(key)]] else b
    ensures StampedUpTo(b0, b', cells, i + 1, key)
  {
    assert cells[..i + 1] == cells[..i] + [cells[i]];
    assert IsBoard(b');
    forall r, c | 0 <= r < Rows && 0 <= c < Cols
      ensures b'[r][c] == if (r, c) in cells[..i + 1] then Some(key) else b0[r][c]
    {
      assert (r, c) in cells[..i + 1] <==> (r, c) in cells[..i] || (r, c) == cells[i];
    }
  }

  /** The lowest position straight below `p` reached by single valid steps: the loop of
      `hardDrop`. */
  method DropPosition(p: Piece, b: Board) returns (q: Piece)
    requires IsBoard(b) && IsValid(p, b)
    ensures q == p.(row := q.row) && q.row >= p.row
    ensures IsValid(q, b) && !IsValid(q.(row := q.row + 1), b)
    ensures forall rr :: p.row <= rr <= q.row ==> IsValid(p.(row := rr), b)
  {
    q := p;
    while IsValid(q.(row := q.row + 1), b)
      invariant q == p.(row := q.row) && q.row >= p.row && IsValid(q, b)
      invariant forall rr :: p.row <= rr <= q.row ==> IsValid(p.(row := rr), b)
      decreases Rows - q.row
    {
      CellsRows(q.(row := q.row + 1));
      q := q.(row := q.row + 1);
    }
  }

  /** No row of the board is full. */
  predicate NoFullRow(b: Board) {
    forall r :: 0 <= r < |b| ==> !IsFull(b[r])
  }

  /** Stamp the piece and clear the full rows: the board part of `lockPiece`. */
  method Settle(b0: Board, p: Piece) returns (b: Board, cleared: nat)
    requires IsBoard(b0)
    ensures b == Cleared(StampResult(b0, p)) && cleared == FullCount(StampResult(b0, p))
    ensures IsBoard(b) && NoFullRow(b)
  {
    var stamped := Stamp(b0, p);
    b, cleared := ClearFullRows(stamped);
    ClearedShape(stamped);
  }

  class Game {
    var board: Board
    var current: Piece
    var nextPiece: Piece
    var playing: bool
    var gameOver: bool
    var score: int
    var lines: int
    var level: int

    /**
     * The board is 20 x 10 without a full row; while playing the current piece fits; a finished
     * game is not playing; the level follows the cleared lines.
     */
    ghost predicate Valid()
      reads this
    {
      && IsBoard(board) && NoFullRow(board)
      && (playing ==> !gameOver && IsValid(current, board))
      && score >= 0 && lines >= 0 && level == LevelFor(lines)
    }

    /** The refs at mount: an empty board, two random pieces, not playing. */
    constructor(k1: Kind, k2: Kind)
      ensures Valid() && board == EmptyRows(Rows) && current == Spawn(k1) && nextPiece == Spawn(k2)
      ensures !playing && !gameOver && score == 0 && lines == 0 && level == 1
    {
      board := EmptyRows(Rows);
      current := Spawn(k1);
      nextPiece := Spawn(k2);
      playing := false;
      gameOver := false;
      score := 0;
      lines := 0;
      level := 1;
      EmptyBoardNotFull();
    }

    /** `startGame`: empty board, two fresh pieces, zero score and lines, level 1, playing. */
    method StartGame(k1: Kind, k2: Kind)
      modifies this
      ensures Valid() && board == EmptyRows(Rows) && current == Spawn(k1) && nextPiece == Spawn(k2)
      ensures playing && !gameOver && score == 0 && lines == 0 && level == 1
    {
      board := EmptyRows(Rows);
      current := Spawn(k1);
      nextPiece := Spawn(k2);
      score := 0;
      lines := 0;
      level := 1;
      gameOver := false;
      playing := true;
      SpawnFitsEmpty(k1);
      EmptyBoardNotFull();
    }

    /**
     * The state `lockPiece` leaves behind when the piece locked is `p` and `k` is the newly drawn
     * next kind, relative to the state before it: the board is `p` stamped and cleared, the lines,
     * score and level are updated for the cleared rows, the next piece becomes current, and the game
     * ends when that piece does not fit.
     */
    twostate predicate Locked(p: Piece, k: Kind)
      reads this
    {
      && old(Valid()) && Valid()
      && var stamped := StampResult(old(board), p);
        && board == Cleared(stamped)
        && lines == old(lines) + FullCount(stamped)
        && score == (if FullCount(stamped) > 0 then Scored(old(score), old(level), FullCount(stamped)) else old(score))
        && level == LevelFor(lines)
        && current == old(nextPiece) && nextPiece == Spawn(k)
        && gameOver == (old(gameOver) || !IsValid(current, board))
        && playing == (old(playing) && IsValid(current, board))
    }

    /**
     * `lockPiece`: stamp the current piece, clear full rows, score `Points(n)` times the level
     * before the update for n > 0 cleared rows, add them to the lines and recompute the level;
     * then the next piece becomes current (`k` is the newly drawn next kind) and the game ends
     * when it does not fit.
     */
    method LockPiece(k: Kind)
      requires Valid()
      modifies this
      ensures Valid() && Locked(old(current), k)
    {
      SettleCurrent();
      SpawnNext(k);
    }

    /** The first half of `lockPiece`: stamp, clear, and update score, lines and level. */
    method SettleCurrent()
      requires Valid()
      modifies this
      ensures IsBoard(board) && NoFullRow(board) && score >= 0 && lines >= 0 && level == LevelFor(lines)
      ensures var stamped := StampResult(old(board), old(current));
        && board == Cleared(stamped)
        && lines == old(lines) + FullCount(stamped)
        && score == (if FullCount(stamped) > 0 then Scored(old(score), old(level), FullCount(stamped)) else old(score))
      ensures current == old(current) && nextPiece == old(nextPiece)
      ensures playing == old(playing) && gameOver == old(gameOver)
    {
      var newBoard, cleared := Settle(board, current);
      if cleared > 0 {
        board, score, lines, level := newBoard, Scored(score, level, cleared), lines + cleared, LevelFor(lines + cleared);
      } else {
        board := newBoard;
      }
    }

    /** The second half of `lockPiece`: the next piece becomes current, a new one is drawn, and
        the game ends when the new current piece does not fit. */
    method SpawnNext(k: Kind)
      requires IsBoard(board) && NoFullRow(board) && score >= 0 && lines >= 0 && level == LevelFor(lines)
      requires playing ==> !gameOver
      modifies this
      ensures Valid()
      ensures board == old(board) && score == old(score) && lines == old(lines) && level == old(level)
      ensures current == old(nextPiece) && nextPiece == Spawn(k)
      ensures gameOver == (old(gameOver) || !IsValid(current, board))
      ensures playing == (old(playing) && IsValid(current, board))
    {
      current := nextPiece;
      nextPiece := Spawn(k);
      if !IsValid(current, board) {
        gameOver := true;
        playing := false;
      }
    }

    /** `moveDown`: one row lower if that fits, otherwise lock (drawing `k`); ignored when not
        playing. */
    method MoveDown(k: Kind)
      requires Valid()
      modifies this
      ensures Valid()
      ensures !old(playing) ==> unchanged(this)
      ensures old(playing) && IsValid(old(current).(row := old(current).row + 1), old(board)) ==>
        && current == old(current).(row := old(current).row + 1)
        && board == old(board) && nextPiece == old(nextPiece) && playing && gameOver == old(gameOver)
        && score == old(score) && lines == old(lines) && level == old(level)
      ensures old(playing) && !IsValid(old(current).(row := old(current).row + 1), old(board)) ==>
        Locked(old(current), k)
    {
      if !playing || gameOver {
        return;
      }
      var next := current.(row := current.row + 1);
      if IsValid(next, board) {
        current := next;
      } else {
        LockPiece(k);
      }
    }

    /** `moveLeft` / `moveRight` (dc = -1 / +1): shift when the shifted piece fits. */
    method Shift(dc: int)
      requires Valid() && (dc == -1 || dc == 1)
      modifies this
      ensures Valid() && board == old(board) && nextPiece == old(nextPiece)
      ensures playing == old(playing) && gameOver == old(gameOver)
      ensures score == old(score) && lines == old(lines) && level == old(level)
      ensures var next := old(current).(col := old(current).col + dc);
        current == if old(playing) && IsValid(next, old(board)) then next else old(current)
    {
      if !playing {
        return;
      }
      var next := current.(col := current.col + dc);
      if IsValid(next, board) {
        current := next;
      }
    }

    /** `rotate`: the next rotation in place, else one column left, else one column right, else
        no change. */
    method Rotate()
      requires Valid()
      modifies this
      ensures Valid() && board == old(board) && nextPiece == old(nextPiece)
      ensures playing == old(playing) && gameOver == old(gameOver)
      ensures score == old(score) && lines == old(lines) && level == old(level)
      ensures var next := old(current).(rotation := (old(current).rotation + 1) % |Rotations(old(current).key)|);
        var kickL := next.(col := next.col - 1);
        var kickR := next.(col := next.col + 1);
        current == if !old(playing) then old(current)
                   else if IsValid(next, old(board)) then next
                   else if IsValid(kickL, old(board)) then kickL
                   else if IsValid(kickR, old(board)) then kickR
                   else old(current)
    {
      if !playing {
        return;
      }
      var next := current.(rotation := (current.rotation + 1) % |Rotations(current.key)|);
      if IsValid(next, board) {
        current := next;
      } else {
        var kickL := next.(col := next.col - 1);
        var kickR := next.(col := next.col + 1);
        if IsValid(kickL, board) {
          current := kickL;
        } else if IsValid(kickR, board) {
          current := kickR;
        }
      }
    }

    /** `hardDrop`: lower the piece as far as single steps fit, then lock it. */
    method HardDrop(k: Kind)
      requires Valid()
      modifies this
      ensures Valid()
      ensures !old(playing) ==> unchanged(this)
      ensures old(playing) ==>
        exists q: Piece ::
          && q == old(current).(row := q.row) && q.row >= old(current).row
          && (forall rr :: old(current).row <= rr <= q.row ==> IsValid(old(current).(row := rr), old(board)))
          && !IsValid(q.(row := q.row + 1), old(board))
          && Locked(q, k)
    {
      if !playing {
        return;
      }
      var q := DropPosition(current, board);
      current := q;
      LockPiece(k);
      assert Locked(q, k);
    }
  }

  /** The board `Stamp` produces, as a function. */
  function StampResult(b: Board, p: Piece): (s: Board)
    requires IsBoard(b)
    ensures IsBoard(s)
  {
    seq(Rows, r requires 0 <= r < Rows => seq(Cols, c requires 0 <= c < Cols =>
      if (r, c) in PieceCells(p) then Some(p.key) else b[r][c]))
  }

  lemma StampIsResult(b: Board, p: Piece, s: Board)
    requires IsBoard(b) && IsBoard(s)
    requires forall r, c :: 0 <= r < Rows && 0 <= c < Cols ==>
      s[r][c] == if (r, c) in PieceCells(p) then Some(p.key) else b[r][c]
    ensures s == StampResult(b, p)
  {
    var t := StampResult(b, p);
    forall r | 0 <= r < Rows
      ensures s[r] == t[r]
    {
      assert forall c :: 0 <= c < Cols ==> s[r][c] == t[r][c];
    }
  }
}
