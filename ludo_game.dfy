/**
 * The Ludo screen's state machine (LudoScreen.js): setting up a game, rolling, the legal-move
 * list offered to the player, moving a piece with captures, extra turns, turn rotation and the
 * bot's turn. Dice values are parameters; the animation timers are collapsed into one step.
 */
module LudoGame {
  import opened Common
  import opened LudoBoard
  import opened LudoRules

  datatype Phase = Setup | Roll | Move | Waiting
  datatype Mode = Cpu | Local

  /** The colours in play for a player count: two players sit at opposite corners. */
  function ActiveFor(count: int): (r: seq<Colour>)
    ensures |r| == (if count == 2 then 2 else if count == 3 then 3 else 4)
    ensures Distinct(r) && r[0] == Red && Yellow in r
    ensures count == 2 ==> Green !in r && Blue !in r
  {
    if count == 2 then [Red, Yellow]
    else if count == 3 then [Red, Green, Yellow]
    else [Red, Green, Yellow, Blue]
  }

  /** Every piece of the quad has reached the centre. */
  predicate AllFinished(q: Quad) {
    forall i :: 0 <= i < 4 ==> q[i] == Finish
  }

  /** A move earns another roll: a six, a capture, or a piece reaching the centre. */
  function ExtraTurn(pieces: Pieces, active: seq<Colour>, c: Colour, idx: nat, roll: int): (ok: bool)
    requires idx < 4
    ensures Distinct(active) ==>
      (ok <==> roll == 6 || Target(pieces.Of(c)[idx], roll) == Finish
               || SentHome(pieces, MoveResult(pieces, active, c, idx, roll), c))
  {
    var t := Target(pieces.Of(c)[idx], roll);
    if Distinct(active) then
      CaptureIffSentHome(pieces, active, c, idx, roll);
      roll == 6 || Captures(pieces, active, c, t) || t == Finish
    else
      roll == 6 || Captures(pieces, active, c, t) || t == Finish
  }

  /** The inner scan of `doMove`: indices of colour `o`'s pieces on ring cell `g`, in order. */
  method PiecesOnCell(o: Colour, q: Quad, g: int) returns (atSq: seq<nat>)
    ensures atSq == IndicesOnCell(o, q, g)
    ensures forall j :: j in atSq <==> 0 <= j < 4 && OnCell(o, q[j], g)
  {
    atSq := [];
    var i := 0;
    while i < 4
      invariant 0 <= i <= 4
      invariant atSq == IndicesBelow(o, q, g, i)
    {
      assert IndicesBelow(o, q, g, i + 1) ==
        if OnCell(o, q[i], g) then IndicesBelow(o, q, g, i) + [i] else IndicesBelow(o, q, g, i);
      if 0 <= q[i] <= 50 && GlobalIndex(o, q[i]) == g {
        atSq := atSq + [i];
      }
      i := i + 1;
    }
  }

  /** The capture of one opponent colour `o`: when exactly one of its pieces stands on ring
      cell `g`, that piece goes home. Reports whether it did. */
  method CaptureColour(pieces: Pieces, o: Colour, g: int) returns (np: Pieces, hit: bool)
    ensures np == pieces.With(o, CaptureFrom(o, pieces.Of(o), g))
    ensures hit <==> CountOnCell(o, pieces.Of(o), g) == 1
  {
    var oq := pieces.Of(o);
    var atSq := PiecesOnCell(o, oq, g);
    np := pieces;
    hit := false;
    if |atSq| == 1 {
      assert atSq[0] in atSq;
      np := pieces.With(o, oq[atSq[0] := AtHome]);
      hit := true;
    }
  }

  /** Some active colour among the first `k`, other than `c`, has exactly one piece on `g`. */
  ghost predicate CapturedBefore(moved: Pieces, active: seq<Colour>, c: Colour, g: int, k: nat)
    requires k <= |active|
  {
    exists j :: 0 <= j < k && active[j] != c && CountOnCell(active[j], moved.Of(active[j]), g) == 1
  }

  /** Extending the scanned prefix by `active[k]` adds exactly that colour's capture test. */
  lemma CapturedNext(moved: Pieces, active: seq<Colour>, c: Colour, g: int, k: nat)
    requires k < |active|
    ensures CapturedBefore(moved, active, c, g, k + 1) <==>
      CapturedBefore(moved, active, c, g, k) || (active[k] != c && CountOnCell(active[k], moved.Of(active[k]), g) == 1)
  {
    if CapturedBefore(moved, active, c, g, k) {
      var j :| 0 <= j < k && active[j] != c && CountOnCell(active[j], moved.Of(active[j]), g) == 1;
      assert 0 <= j < k + 1;
    }
    if active[k] != c && CountOnCell(active[k], moved.Of(active[k]), g) == 1 {
      assert 0 <= k < k + 1;
    }
    if CapturedBefore(moved, active, c, g, k + 1) {
      var j :| 0 <= j < k + 1 && active[j] != c && CountOnCell(active[j], moved.Of(active[j]), g) == 1;
      if j < k {
        assert CapturedBefore(moved, active, c, g, k);
      }
    }
  }

  /** One turn of the capture pass, for the colour `active[k]`. */
  method CaptureStep(np0: Pieces, captured0: bool, moved: Pieces, active: seq<Colour>, c: Colour, g: int, k: nat)
    returns (np: Pieces, captured: bool)
    requires Distinct(active) && k < |active|
    requires forall j :: k <= j < |active| ==> np0.Of(active[j]) == moved.Of(active[j])
    requires captured0 <==> CapturedBefore(moved, active, c, g, k)
    ensures CaptureAll(np, active, c, g, k + 1) == CaptureAll(np0, active, c, g, k)
    ensures forall j :: k + 1 <= j < |active| ==> np.Of(active[j]) == moved.Of(active[j])
    ensures captured <==> CapturedBefore(moved, active, c, g, k + 1)
  {
    var o := active[k];
    assert forall j :: k < j < |active| ==> active[j] != o;
    assert np0.Of(o) == moved.Of(o);
    CapturedNext(moved, active, c, g, k);
    np, captured := np0, captured0;
    if o != c {
      var hit;
      np, hit := CaptureColour(np0, o, g);
      if hit {
        captured := true;
      }
    }
  }

  /**
   * The capture pass of `doMove` over the active colours other than the mover `c`: each colour
   * with exactly one piece on ring cell `g` has that piece sent home. Also reports whether any
   * capture happened.
   */
  method CaptureOpponents(moved: Pieces, active: seq<Colour>, c: Colour, g: int)
    returns (np: Pieces, captured: bool)
    requires Distinct(active)
    ensures np == CaptureAll(moved, active, c, g, 0)
    ensures captured <==> exists j ::
      && 0 <= j < |active| && active[j] != c
      && CountOnCell(active[j], moved.Of(active[j]), g) == 1
  {
    np := moved;
    captured := false;
    var k := 0;
    while k < |active|
      invariant 0 <= k <= |active|
      invariant CaptureAll(np, active, c, g, k) == CaptureAll(moved, active, c, g, 0)
      invariant forall j :: k <= j < |active| ==> np.Of(active[j]) == moved.Of(active[j])
      invariant captured <==> CapturedBefore(moved, active, c, g, k)
    {
      np, captured := CaptureStep(np, captured, moved, active, c, g, k);
      k := k + 1;
    }
  }

  /** Writing the mover's own pieces does not change which opponents stand alone on `g`. */
  lemma CapturesAfterWrite(pieces: Pieces, moved: Pieces, active: seq<Colour>, c: Colour, g: int)
    requires forall o :: o != c ==> moved.Of(o) == pieces.Of(o)
    ensures (exists j :: 0 <= j < |active| && active[j] != c && CountOnCell(active[j], moved.Of(active[j]), g) == 1)
      <==> (exists j :: 0 <= j < |active| && active[j] != c && CountOnCell(active[j], pieces.Of(active[j]), g) == 1)
  {
    if exists j :: 0 <= j < |active| && active[j] != c && CountOnCell(active[j], moved.Of(active[j]), g) == 1 {
      var j :| 0 <= j < |active| && active[j] != c && CountOnCell(active[j], moved.Of(active[j]), g) == 1;
      assert CountOnCell(active[j], pieces.Of(active[j]), g) == 1;
    }
    if exists j :: 0 <= j < |active| && active[j] != c && CountOnCell(active[j], pieces.Of(active[j]), g) == 1 {
      var j :| 0 <= j < |active| && active[j] != c && CountOnCell(active[j], pieces.Of(active[j]), g) == 1;
      assert CountOnCell(active[j], moved.Of(active[j]), g) == 1;
    }
  }

  /**
   * Steps 1-3 of `doMove`: write the moved piece's target, then apply the capture pass when the
   * target is a non-safe ring cell. Reports whether anything was captured.
   */
  method MovePiece(pieces: Pieces, active: seq<Colour>, c: Colour, idx: nat, roll: int)
    returns (np: Pieces, captured: bool)
    requires idx < 4 && 1 <= roll <= 6 && Distinct(active) && InRange(pieces)
    ensures np == MoveResult(pieces, active, c, idx, roll)
    ensures captured == Captures(pieces, active, c, Target(pieces.Of(c)[idx], roll))
  {
    var q := pieces.Of(c);
    var target := if q[idx] == AtHome then 0 else q[idx] + roll;
    assert target == Target(q[idx], roll);
    var moved := pieces.With(c, q[idx := target]);
    np := moved;
    captured := false;
    if target <= 50 {
      var g := GlobalIndex(c, target);
      if !IsSafe(g) {
        np, captured := CaptureOpponents(moved, active, c, g);
        CapturesAfterWrite(pieces, moved, active, c, g);
      }
    }
  }

  class Game {
    var pieces: Pieces
    var turn: nat
    var dice: int
    var phase: Phase
    var mode: Mode
    var active: seq<Colour>
    var validMoves: seq<nat>
    var gameOver: bool
    var winner: Option<Colour>

    /** The screen's invariant: a known seating, a seat index in range, a die face, every piece on
        the board with at most two of a colour per position, and a MOVE phase offering exactly the
        legal moves of the current colour (at least one). */
    ghost predicate Valid()
      reads this
    {
      && (active == ActiveFor(2) || active == ActiveFor(3) || active == ActiveFor(4))
      && turn < |active|
      && 1 <= dice <= 6
      && InRange(pieces) && StackOk(pieces)
      && (phase == Move ==> validMoves == ValidMoves(pieces, active, active[turn], dice) && validMoves != [])
      && (gameOver ==> winner.Some? && AllFinished(pieces.Of(winner.value)))
    }

    function Current(): Colour
      reads this
      requires turn < |active|
    {
      active[turn]
    }

    /** `isBot`: against the computer every colour except red is played by the bot. */
    function IsBot(): (bot: bool)
      reads this
      requires turn < |active|
      ensures Valid() && mode == Cpu ==> (bot <==> turn != 0)
      ensures mode != Cpu ==> !bot
    {
      mode == Cpu && active[turn] != Red
    }

    /** The screen's initial state: setup phase, all four colours, every piece at home. */
    constructor()
      ensures Valid()
      ensures phase == Setup && mode == Cpu && active == ActiveFor(4)
      ensures pieces == StartPieces
      ensures turn == 0 && dice == 1 && validMoves == [] && !gameOver && winner == None
    {
      new;
      // The same board a four-player start sets up, shown on the setup screen.
      StartGame(Cpu, 4);
      ResetGame();
    }

    /** `startGame`: seat the players and start with the first colour rolling. */
    method StartGame(m: Mode, count: int)
      modifies this
      ensures Valid()
      ensures mode == m && active == ActiveFor(count) && phase == Roll
      ensures pieces == StartPieces
      ensures turn == 0 && dice == 1 && validMoves == [] && !gameOver && winner == None
    {
      mode := m;
      active := ActiveFor(count);
      pieces := StartPieces;
      StartPiecesOk();
      turn := 0;
      dice := 1;
      gameOver := false;
      winner := None;
      validMoves := [];
      phase := Roll;
    }

    /** `resetGame`: back to the setup screen; the board is kept until the next start. */
    method ResetGame()
      requires Valid()
      modifies this
      ensures Valid() && phase == Setup
      ensures pieces == old(pieces) && turn == old(turn) && dice == old(dice) && active == old(active)
      ensures mode == old(mode) && validMoves == old(validMoves)
      ensures gameOver == old(gameOver) && winner == old(winner)
    {
      phase := Setup;
    }

    /** `nextTurn`: the following seat (cyclically) rolls next. */
    method NextTurn()
      requires Valid()
      modifies this
      ensures Valid()
      ensures turn == (old(turn) + 1) % |active| && phase == Roll && dice == 1 && validMoves == []
      ensures pieces == old(pieces) && active == old(active) && mode == old(mode)
      ensures gameOver == old(gameOver) && winner == old(winner)
    {
      turn := (turn + 1) % |active|;
      phase := Roll;
      dice := 1;
      validMoves := [];
    }

    /**
     * The state `doMove` leaves behind, relative to the state before it: piece `idx` of `c` moved by
     * `roll` with captures; a finished colour wins and the board stays on show; an extra turn keeps
     * the seat and the die `d`; otherwise the next seat rolls with the die reset. Nothing else changes.
     */
    twostate predicate Moved(c: Colour, idx: nat, roll: int, d: int)
      reads this
    {
      MovedFrom(old(pieces), old(active), old(mode), old(turn), old(winner), c, idx, roll, d)
    }

    /** `Moved`, with the fields it reads from the earlier state passed in as values. */
    predicate MovedFrom(p0: Pieces, a0: seq<Colour>, m0: Mode, t0: nat, w0: Option<Colour>,
                        c: Colour, idx: nat, roll: int, d: int)
      reads this
    {
      && idx < 4 && 0 < |active|
      && pieces == MoveResult(p0, active, c, idx, roll)
      && active == a0 && mode == m0 && validMoves == []
      && gameOver == AllFinished(pieces.Of(c))
      && (gameOver ==> winner == Some(c) && phase == Waiting && turn == t0 && dice == d)
      && (!gameOver ==> winner == w0)
      && (!gameOver && ExtraTurn(p0, active, c, idx, roll) ==>
            turn == t0 && phase == Roll && dice == d)
      && (!gameOver && !ExtraTurn(p0, active, c, idx, roll) ==>
            turn == (t0 + 1) % |active| && phase == Roll && dice == 1)
    }

    /**
     * `doMove`: move piece `idx` of colour `c` by `roll`, send lone opponent pieces on a non-safe
     * landing cell home, then declare a winner, grant another roll, or pass the turn.
     */
    method DoMove(c: Colour, idx: nat, roll: int)
      requires Valid() && !gameOver && c == Current() && idx < 4 && 1 <= roll <= 6
      requires IsValidMove(pieces, active, c, pieces.Of(c)[idx], roll)
      modifies this
      ensures Valid()
      ensures Moved(c, idx, roll, old(dice))
    {
      var target := Target(pieces.Of(c)[idx], roll);
      var np, captured := MovePiece(pieces, active, c, idx, roll);
      MovePreservesStacks(pieces, active, c, idx, roll);
      Conclude(c, np, roll == 6 || captured || target == Finish);
    }

    /**
     * The rest of `doMove` once the new board `np` is known: the board is shown, a colour with
     * every piece home wins, `again` (a six, a capture or a finished piece) keeps the turn, and
     * otherwise the turn passes.
     */
    method Conclude(c: Colour, np: Pieces, again: bool)
      requires Valid() && !gameOver && c == Current()
      requires InRange(np) && StackOk(np)
      modifies this
      ensures Valid() && pieces == np
      ensures active == old(active) && mode == old(mode) && validMoves == []
      ensures gameOver == AllFinished(np.Of(c))
      ensures gameOver ==> winner == Some(c) && phase == Waiting && turn == old(turn) && dice == old(dice)
      ensures !gameOver ==> winner == old(winner)
      ensures !gameOver && again ==> turn == old(turn) && phase == Roll && dice == old(dice)
      ensures !gameOver && !again ==> turn == (old(turn) + 1) % |active| && phase == Roll && dice == 1
    {
      phase := Waiting;
      validMoves := [];
      pieces := np;
      if AllFinished(np.Of(c)) {
        gameOver := true;
        winner := Some(c);
        return;
      }
      if again {
        phase := Roll;
      } else {
        NextTurn();
      }
    }

    /** `onUserRoll`: a human's roll; with no legal move the turn passes, otherwise the legal
        moves are offered. Ignored unless a human is due to roll. */
    method OnUserRoll(roll: int)
      requires Valid() && 1 <= roll <= 6
      modifies this
      ensures Valid()
      ensures old(phase) != Roll || old(IsBot()) ==> unchanged(this)
      ensures old(phase) == Roll && !old(IsBot()) ==>
        var moves := ValidMoves(old(pieces), old(active), old(Current()), roll);
        && pieces == old(pieces) && active == old(active) && mode == old(mode)
        && (moves == [] ==> turn == (old(turn) + 1) % |active| && phase == Roll && dice == 1 && validMoves == [])
        && (moves != [] ==> turn == old(turn) && phase == Move && dice == roll && validMoves == moves)
    {
      if phase != Roll || IsBot() {
        return;
      }
      dice := roll;
      var valid := ValidMoves(pieces, active, Current(), roll);
      if valid == [] {
        NextTurn();
      } else {
        phase := Move;
        validMoves := valid;
      }
    }

    /** `onPiecePress`: a human picks one of the offered pieces; anything else is ignored. */
    method OnPiecePress(idx: int)
      requires Valid() && !gameOver
      modifies this
      ensures Valid()
      ensures !(old(phase) == Move && !old(IsBot()) && idx in old(validMoves)) ==> unchanged(this)
      ensures old(phase) == Move && !old(IsBot()) && idx in old(validMoves) ==>
        0 <= idx < 4 && Moved(old(Current()), idx, old(dice), old(dice))
    {
      if phase != Move || IsBot() {
        return;
      }
      if idx in validMoves {
        DoMove(Current(), idx, dice);
      }
    }

    /** `botTurnRoutine`: the bot rolls, passes when nothing is legal, and otherwise plays the
        move that `pickBestBotMove` prefers. */
    method BotTurn(roll: int)
      requires Valid() && 1 <= roll <= 6
      modifies this
      ensures Valid()
      ensures !(old(phase) == Roll && old(IsBot()) && !old(gameOver)) ==> unchanged(this)
      ensures old(phase) == Roll && old(IsBot()) && !old(gameOver) ==>
        var moves := ValidMoves(old(pieces), old(active), old(Current()), roll);
        && (moves == [] ==> pieces == old(pieces) && turn == (old(turn) + 1) % |active| && phase == Roll)
        && (moves == [] ==> active == old(active) && mode == old(mode) && dice == 1 && validMoves == [])
        && (moves == [] ==> gameOver == old(gameOver) && winner == old(winner))
        && (moves != [] ==> exists k ::
              && k in moves
              && (forall j :: j in moves ==>
                    ScoreOf(old(pieces), old(active), old(Current()), j, roll)
                    <= ScoreOf(old(pieces), old(active), old(Current()), k, roll))
              && Moved(old(Current()), k, roll, roll))
    {
      if gameOver || phase != Roll || !IsBot() {
        return;
      }
      var c := Current();
      var valid := ValidMoves(pieces, active, c, roll);
      if valid == [] {
        dice := roll;
        NextTurn();
      } else {
        PlayBestMove(c, valid, roll);
      }
    }

    /** The bot's move once the die shows `roll` and `valid` is not empty: the best-scoring move is played. */
    method PlayBestMove(c: Colour, valid: seq<nat>, roll: int)
      requires Valid() && !gameOver && phase == Roll && c == Current() && 1 <= roll <= 6
      requires valid == ValidMoves(pieces, active, c, roll) && valid != []
      modifies this
      ensures Valid()
      ensures exists k ::
        && k in valid
        && (forall j :: j in valid ==>
              ScoreOf(old(pieces), old(active), c, j, roll) <= ScoreOf(old(pieces), old(active), c, k, roll))
        && Moved(c, k, roll, roll)
    {
      var best := PickBestBotMove(pieces, active, c, valid, roll);
      assert IsValidMove(pieces, active, c, pieces.Of(c)[best], roll);
      dice := roll;
      assert Valid();
      ghost var p0, a0, m0, t0, w0 := pieces, active, mode, turn, winner;
      DoMove(c, best, roll);
      assert MovedFrom(p0, a0, m0, t0, w0, c, best, roll, roll);
    }
  }

  /** Under the as-written own-stack cap no game ever reaches `gameOver` (see WinUnreachable). */
  lemma NeverWon(g: Game)
    requires g.Valid()
    ensures !g.gameOver
  {
    if g.gameOver {
      WinUnreachable(g.pieces, g.winner.value);
    }
  }
}
