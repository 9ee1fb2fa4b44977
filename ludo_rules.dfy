/**
 * The read-only Ludo rule queries of LudoScreen.js: counting pieces, move legality,
 * the legal-move list, the effect of a move (with captures) and the bot's scoring
 * policy. The game state that these read is held by LudoGame.Game.
 */
module LudoRules {
  import opened Common
  import opened LudoBoard

  /** The four piece positions of one colour; index = piece identity. */
  type Quad = s: seq<int> | |s| == 4 witness [-1, -1, -1, -1]

  datatype Pieces = Pieces(red: Quad, green: Quad, yellow: Quad, blue: Quad) {
    function Of(c: Colour): Quad {
      match c
      case Red => red
      case Green => green
      case Yellow => yellow
      case Blue => blue
    }

    function With(c: Colour, q: Quad): (r: Pieces)
      ensures r.Of(c) == q
      ensures forall o :: o != c ==> r.Of(o) == Of(o)
    {
      match c
      case Red => this.(red := q)
      case Green => this.(green := q)
      case Yellow => this.(yellow := q)
      case Blue => this.(blue := q)
    }
  }

  const AllHome: Quad := [-1, -1, -1, -1]

  /** The board of a new game: every piece in its base. */
  const StartPieces := Pieces(AllHome, AllHome, AllHome, AllHome)

  /** Every piece is in its base, on its path, or finished. */
  predicate InRange(pieces: Pieces) {
    forall c, i :: 0 <= i < 4 ==> AtHome <= pieces.Of(c)[i] <= Finish
  }

  /** At most two pieces of one colour share any relative position on the board. */
  predicate StackOk(pieces: Pieces) {
    forall c, p :: 0 <= p <= Finish ==> Count(pieces.Of(c), p) <= 2
  }

  /** Whether a piece of colour `o` at relative position `p` stands on ring cell `g`. */
  predicate OnCell(o: Colour, p: int, g: int) {
    0 <= p <= 50 && GlobalIndex(o, p) == g
  }

  /** Indices of the pieces in `q` (of colour `o`) standing on ring cell `g`, in order
      (the source's `oppAtSq` list). */
  function IndicesOnCell(o: Colour, q: seq<int>, g: int): (r: seq<nat>)
    ensures forall j :: j in r <==> 0 <= j < |q| && OnCell(o, q[j], g)
    ensures forall a, b :: 0 <= a < b < |r| ==> r[a] < r[b]
    ensures |r| == |OnCellSet(o, q, g, |q|)|
    ensures |r| <= |q|
  {
    var r := IndicesBelow(o, q, g, |q|);
    IndicesBelowIncreasing(o, q, g, |q|, r);
    r
  }

  /** The same scan over the first `n` pieces only. */
  function IndicesBelow(o: Colour, q: seq<int>, g: int, n: nat): (r: seq<nat>)
    requires n <= |q|
    ensures forall j :: j in r <==> 0 <= j < n && OnCell(o, q[j], g)
    ensures |r| == |OnCellSet(o, q, g, n)|
    ensures |r| <= n
  {
    if n == 0 then
      assert OnCellSet(o, q, g, 0) == {};
      []
    else
      var prev := IndicesBelow(o, q, g, n - 1);
      OnCellSetStep(o, q, g, n);
      if OnCell(o, q[n - 1], g) then prev + [n - 1] else prev
  }

  /** The scan lists the indices in increasing order. */
  lemma {:induction false} IndicesBelowIncreasing(o: Colour, q: seq<int>, g: int, n: nat, r: seq<nat>)
    requires n <= |q| && r == IndicesBelow(o, q, g, n)
    ensures forall a, b :: 0 <= a < b < |r| ==> r[a] < r[b]
  {
    if n > 0 {
      var prev := IndicesBelow(o, q, g, n - 1);
      IndicesBelowIncreasing(o, q, g, n - 1, prev);
      if OnCell(o, q[n - 1], g) {
        assert r == prev + [n - 1];
        assert forall x :: x in prev ==> x < n - 1;
        AppendIncreasing(prev, n - 1);
      } else {
        assert r == prev;
      }
    }
  }

  /** The indices below `n` of the pieces in `q` (of colour `o`) standing on ring cell `g`. */
  ghost function OnCellSet(o: Colour, q: seq<int>, g: int, n: nat): set<int>
    requires n <= |q|
  {
    set j | 0 <= j < n && OnCell(o, q[j], g)
  }

  /** One more piece adds at most its own index to the set. */
  lemma OnCellSetStep(o: Colour, q: seq<int>, g: int, n: nat)
    requires 0 < n <= |q|
    ensures OnCellSet(o, q, g, n) == OnCellSet(o, q, g, n - 1) + (if OnCell(o, q[n - 1], g) then {n - 1} else {})
    ensures n - 1 !in OnCellSet(o, q, g, n - 1)
  {
  }

  /** Appending a value above every element keeps a sequence increasing. */
  lemma AppendIncreasing(s: seq<nat>, n: nat)
    requires forall a, b :: 0 <= a < b < |s| ==> s[a] < s[b]
    requires forall x :: x in s ==> x < n
    ensures forall a, b :: 0 <= a < b < |s + [n]| ==> (s + [n])[a] < (s + [n])[b]
  {
    assert forall a :: 0 <= a < |s| ==> s[a] in s;
  }

  /** Number of pieces in `q` (of colour `o`) standing on ring cell `g`. */
  function CountOnCell(o: Colour, q: seq<int>, g: int): (n: nat)
    ensures n == |OnCellSet(o, q, g, |q|)|
    ensures n <= |q|
    ensures n == 0 <==> forall i :: 0 <= i < |q| ==> !OnCell(o, q[i], g)
  {
    var r := IndicesOnCell(o, q, g);
    assert r != [] ==> r[0] in r;
    |r|
  }

  /** A new game's board satisfies the board invariants. */
  lemma StartPiecesOk()
    ensures InRange(StartPieces) && StackOk(StartPieces)
    ensures forall c, p :: 0 <= p <= Finish ==> Count(StartPieces.Of(c), p) == 0
  {
    forall p | 0 <= p <= Finish ensures Count(AllHome, p) == 0 {
      Count4(AllHome, p);
    }
    forall c ensures StartPieces.Of(c) == AllHome {
    }
    assert forall i :: 0 <= i < 4 ==> AllHome[i] == AtHome;
  }

  /** Some single colour of `active` other than `c` has two or more pieces on ring cell `g`. */
  predicate OpponentBlock(pieces: Pieces, active: seq<Colour>, c: Colour, g: int) {
    exists k :: 0 <= k < |active| && active[k] != c && CountOnCell(active[k], pieces.Of(active[k]), g) >= 2
  }

  /** Some colour of `active` other than `c` has at least one piece on ring cell `g`. */
  predicate OpponentOn(pieces: Pieces, active: seq<Colour>, c: Colour, g: int) {
    exists k :: 0 <= k < |active| && active[k] != c && CountOnCell(active[k], pieces.Of(active[k]), g) >= 1
  }

  /** `isStartBlocked`: two own pieces already at relative 0, or an opponent stack on the entry cell. */
  function IsStartBlocked(pieces: Pieces, active: seq<Colour>, c: Colour): (r: bool)
    ensures r <==> Count(pieces.Of(c), 0) >= 2 || OpponentBlock(pieces, active, c, GlobalIndex(c, 0))
  {
    EntryCell(c);
    Count(pieces.Of(c), 0) >= 2 || OpponentBlock(pieces, active, c, StartOffset(c))
  }

  /** Where a move of the piece at `pos` with `roll` lands. */
  function Target(pos: int, roll: int): (t: int)
    ensures pos == AtHome ==> t == 0
    ensures AtHome < pos && 1 <= roll ==> pos < t
  {
    if pos == AtHome then 0 else pos + roll
  }

  /** `isValidMove` as the source writes it: the own-stack cap also counts finished pieces. */
  function IsValidMove(pieces: Pieces, active: seq<Colour>, c: Colour, pos: int, roll: int): (r: bool)
    requires AtHome <= pos && 1 <= roll <= 6
    ensures r ==> (pos == AtHome && roll == 6) || (0 <= pos && pos + roll <= Finish)
    ensures r ==> Count(pieces.Of(c), Target(pos, roll)) < 2
  {
    if pos == AtHome then
      roll == 6 && !IsStartBlocked(pieces, active, c)
    else
      var t := pos + roll;
      if t > Finish then false
      else if Count(pieces.Of(c), t) >= 2 then false
      else if t <= 50 && OpponentBlock(pieces, active, c, GlobalIndex(c, t)) then false
      else true
  }

  /** The indices from `i` on whose flag is set, in increasing order. */
  function IndicesFrom(flags: seq<bool>, i: nat): (r: seq<nat>)
    requires i <= |flags|
    ensures forall k :: k in r <==> i <= k < |flags| && flags[k]
    ensures forall a, b :: 0 <= a < b < |r| ==> r[a] < r[b]
    decreases |flags| - i
  {
    if i == |flags| then []
    else
      var rest := IndicesFrom(flags, i + 1);
      if flags[i] then
        assert forall b :: 0 <= b < |rest| ==> rest[b] in rest;
        [i] + rest
      else rest
  }

  /** `getValidMovesForColor`: the indices of the pieces that may move, in index order. */
  function ValidMoves(pieces: Pieces, active: seq<Colour>, c: Colour, roll: int): (r: seq<nat>)
    requires InRange(pieces) && 1 <= roll <= 6
    ensures forall k :: k in r <==> 0 <= k < 4 && IsValidMove(pieces, active, c, pieces.Of(c)[k], roll)
    ensures forall a, b :: 0 <= a < b < |r| ==> r[a] < r[b]
    ensures |r| <= 4 && forall i :: 0 <= i < |r| ==> r[i] < 4
  {
    var flags := seq(4, k requires 0 <= k < 4 => IsValidMove(pieces, active, c, pieces.Of(c)[k], roll));
    var r := IndicesFrom(flags, 0);
    Bounded(r);
    assert forall i :: 0 <= i < |r| ==> r[i] in r;
    r
  }

  /** A strictly increasing list of indices below 4 has at most 4 entries. */
  lemma {:induction false} Bounded(r: seq<nat>)
    requires forall k :: k in r ==> k < 4
    requires forall a, b :: 0 <= a < b < |r| ==> r[a] < r[b]
    ensures |r| <= 4
  {
    if |r| > 0 {
      Increasing(r, |r| - 1);
      assert r[|r| - 1] in r;
    }
  }

  lemma {:induction false} Increasing(r: seq<nat>, a: nat)
    requires a < |r|
    requires forall x, y :: 0 <= x < y < |r| ==> r[x] < r[y]
    ensures a <= r[a]
  {
    if a > 0 {
      Increasing(r, a - 1);
    }
  }

  /** Colour `o`'s pieces after a capture on ring cell `g`: when exactly one of them stands
      there, that piece goes home; a pair or more is left alone. */
  function CaptureFrom(o: Colour, q: Quad, g: int): (r: Quad)
    ensures CountOnCell(o, q, g) == 1 ==>
      forall i :: 0 <= i < 4 ==> r[i] == if OnCell(o, q[i], g) then AtHome else q[i]
    ensures CountOnCell(o, q, g) != 1 ==> r == q
  {
    var atSq := IndicesOnCell(o, q, g);
    if |atSq| == 1 then
      assert atSq[0] in atSq;
      assert forall i :: 0 <= i < 4 && OnCell(o, q[i], g) ==> i in atSq;
      q[atSq[0] := AtHome]
    else q
  }

  /** Whether landing colour `c` on ring position `t` captures anything. */
  predicate Captures(pieces: Pieces, active: seq<Colour>, c: Colour, t: int) {
    0 <= t <= 50 && !IsSafe(GlobalIndex(c, t)) &&
    exists k :: 0 <= k < |active| && active[k] != c && CountOnCell(active[k], pieces.Of(active[k]), GlobalIndex(c, t)) == 1
  }

  /** Apply the captures of `active[k..]` on ring cell `g` (the source's `activeColors.forEach`). */
  function CaptureAll(pieces: Pieces, active: seq<Colour>, c: Colour, g: int, k: nat): Pieces
    requires k <= |active|
    decreases |active| - k
  {
    if k == |active| then pieces
    else
      var o := active[k];
      var next := if o == c then pieces else pieces.With(o, CaptureFrom(o, pieces.Of(o), g));
      CaptureAll(next, active, c, g, k + 1)
  }

  /** The board after `doMove`: the piece goes to its target, then lone opponents there go home. */
  function MoveResult(pieces: Pieces, active: seq<Colour>, c: Colour, idx: nat, roll: int): (r: Pieces)
    requires idx < 4
    ensures r.Of(c) == pieces.Of(c)[idx := Target(pieces.Of(c)[idx], roll)]
  {
    var t := Target(pieces.Of(c)[idx], roll);
    var moved := pieces.With(c, pieces.Of(c)[idx := t]);
    if 0 <= t <= 50 && !IsSafe(GlobalIndex(c, t)) then
      CaptureAllKeepsMover(moved, active, c, GlobalIndex(c, t), 0);
      CaptureAll(moved, active, c, GlobalIndex(c, t), 0)
    else moved
  }

  /** The capture pass never touches the moving colour's own pieces. */
  lemma {:induction false} CaptureAllKeepsMover(pieces: Pieces, active: seq<Colour>, c: Colour, g: int, k: nat)
    requires k <= |active|
    ensures CaptureAll(pieces, active, c, g, k).Of(c) == pieces.Of(c)
    decreases |active| - k
  {
    if k < |active| {
      var o := active[k];
      var next := if o == c then pieces else pieces.With(o, CaptureFrom(o, pieces.Of(o), g));
      CaptureAllKeepsMover(next, active, c, g, k + 1);
    }
  }

  /** Some piece of a colour other than `c` stands somewhere else in `after` than in `before`. */
  ghost predicate SentHome(before: Pieces, after: Pieces, c: Colour) {
    exists o: Colour, i :: o != c && 0 <= i < 4 && after.Of(o)[i] != before.Of(o)[i]
  }

  /**
   * The `captured` flag of `doMove` is set exactly when the move changes some opponent piece:
   * a capture always sends a piece that was on the board home, and nothing else moves an opponent.
   */
  lemma CaptureIffSentHome(pieces: Pieces, active: seq<Colour>, c: Colour, idx: nat, roll: int)
    requires idx < 4 && Distinct(active)
    ensures Captures(pieces, active, c, Target(pieces.Of(c)[idx], roll))
        <==> SentHome(pieces, MoveResult(pieces, active, c, idx, roll), c)
  {
    var t := Target(pieces.Of(c)[idx], roll);
    var r := MoveResult(pieces, active, c, idx, roll);
    if Captures(pieces, active, c, t) {
      var g := GlobalIndex(c, t);
      var k :| 0 <= k < |active| && active[k] != c && CountOnCell(active[k], pieces.Of(active[k]), g) == 1;
      var o := active[k];
      var i :| 0 <= i < 4 && OnCell(o, pieces.Of(o)[i], g);
      MoveEffect(pieces, active, c, idx, roll, o, i);
      assert r.Of(o)[i] == AtHome != pieces.Of(o)[i];
    }
    if SentHome(pieces, r, c) {
      var o: Colour, i :| o != c && 0 <= i < 4 && r.Of(o)[i] != pieces.Of(o)[i];
      MoveEffect(pieces, active, c, idx, roll, o, i);
      var k :| 0 <= k < |active| && active[k] == o;
      assert CountOnCell(active[k], pieces.Of(active[k]), GlobalIndex(c, t)) == 1;
    }
  }

  /** Every colour of the list appears once. */
  predicate Distinct(active: seq<Colour>) {
    forall a, b :: 0 <= a < b < |active| ==> active[a] != active[b]
  }

  /** What the capture loop does to each colour, for distinct active colours. */
  lemma {:induction false} CaptureAllEffect(pieces: Pieces, active: seq<Colour>, c: Colour, g: int, k: nat, o: Colour)
    requires k <= |active| && Distinct(active)
    ensures CaptureAll(pieces, active, c, g, k).Of(o) ==
      if o != c && o in active[k..] then CaptureFrom(o, pieces.Of(o), g) else pieces.Of(o)
    decreases |active| - k
  {
    if k < |active| {
      var a := active[k];
      var next := if a == c then pieces else pieces.With(a, CaptureFrom(a, pieces.Of(a), g));
      assert CaptureAll(pieces, active, c, g, k) == CaptureAll(next, active, c, g, k + 1);
      CaptureAllEffect(next, active, c, g, k + 1, o);
      assert o in active[k..] <==> o == a || o in active[k + 1..] by {
        assert active[k..] == [a] + active[k + 1..];
      }
      if o == a {
        assert o !in active[k + 1..] by {
          assert forall j :: k + 1 <= j < |active| ==> active[j] != o;
        }
      } else {
        assert next.Of(o) == pieces.Of(o);
      }
    }
  }

  /**
   * `doMove`'s effect on the board: the moved piece is at its target; every other active colour
   * that had exactly one piece on a non-safe target cell has that piece sent home; nothing else changes.
   */
  lemma MoveEffect(pieces: Pieces, active: seq<Colour>, c: Colour, idx: nat, roll: int, o: Colour, i: nat)
    requires idx < 4 && i < 4 && Distinct(active)
    ensures var t := Target(pieces.Of(c)[idx], roll);
      MoveResult(pieces, active, c, idx, roll).Of(o)[i] ==
        if o == c && i == idx then t
        else if o != c && o in active && 0 <= t <= 50 && !IsSafe(GlobalIndex(c, t))
          && CountOnCell(o, pieces.Of(o), GlobalIndex(c, t)) == 1
          && OnCell(o, pieces.Of(o)[i], GlobalIndex(c, t))
        then AtHome
        else pieces.Of(o)[i]
  {
    var t := Target(pieces.Of(c)[idx], roll);
    var moved := pieces.With(c, pieces.Of(c)[idx := t]);
    if 0 <= t <= 50 && !IsSafe(GlobalIndex(c, t)) {
      CaptureAllEffect(moved, active, c, GlobalIndex(c, t), 0, o);
      assert active[0..] == active;
    }
  }

  /** Landing on a safe cell, or beyond the ring, never changes any other colour's pieces. */
  lemma NoCaptureOnSafe(pieces: Pieces, active: seq<Colour>, c: Colour, idx: nat, roll: int, o: Colour)
    requires idx < 4 && Distinct(active) && o != c
    requires var t := Target(pieces.Of(c)[idx], roll); !(0 <= t <= 50) || IsSafe(GlobalIndex(c, t))
    ensures MoveResult(pieces, active, c, idx, roll).Of(o) == pieces.Of(o)
  {
    forall i | 0 <= i < 4 ensures MoveResult(pieces, active, c, idx, roll).Of(o)[i] == pieces.Of(o)[i] {
      MoveEffect(pieces, active, c, idx, roll, o, i);
    }
  }

  /** A legal move keeps every piece in range and keeps the two-per-position stacking cap. */
  lemma MovePreservesStacks(pieces: Pieces, active: seq<Colour>, c: Colour, idx: nat, roll: int)
    requires idx < 4 && 1 <= roll <= 6 && Distinct(active)
    requires InRange(pieces) && StackOk(pieces)
    requires IsValidMove(pieces, active, c, pieces.Of(c)[idx], roll)
    ensures InRange(MoveResult(pieces, active, c, idx, roll))
    ensures StackOk(MoveResult(pieces, active, c, idx, roll))
  {
    var r := MoveResult(pieces, active, c, idx, roll);
    var t := Target(pieces.Of(c)[idx], roll);
    forall o, i | 0 <= i < 4 ensures AtHome <= r.Of(o)[i] <= Finish {
      MoveEffect(pieces, active, c, idx, roll, o, i);
    }
    forall o, p | 0 <= p <= Finish ensures Count(r.Of(o), p) <= 2 {
      StackAfterMove(pieces, active, c, idx, roll, o, p);
    }
  }

  lemma StackAfterMove(pieces: Pieces, active: seq<Colour>, c: Colour, idx: nat, roll: int, o: Colour, p: int)
    requires idx < 4 && 1 <= roll <= 6 && Distinct(active) && 0 <= p <= Finish
    requires InRange(pieces) && StackOk(pieces)
    requires IsValidMove(pieces, active, c, pieces.Of(c)[idx], roll)
    ensures Count(MoveResult(pieces, active, c, idx, roll).Of(o), p) <= 2
  {
    var r := MoveResult(pieces, active, c, idx, roll);
    var t := Target(pieces.Of(c)[idx], roll);
    var q := pieces.Of(o);
    if o == c {
      assert r.Of(o) == q[idx := t] by {
        forall i | 0 <= i < 4 ensures r.Of(o)[i] == q[idx := t][i] {
          MoveEffect(pieces, active, c, idx, roll, o, i);
        }
      }
      assert Count(q, p) <= 2;
      CountAfterWrite(q, idx, t, p);
    } else {
      forall i | 0 <= i < 4 ensures r.Of(o)[i] == q[i] || r.Of(o)[i] == AtHome {
        MoveEffect(pieces, active, c, idx, roll, o, i);
      }
      assert Count(q, p) <= 2;
      CountDrops(q, r.Of(o), p);
    }
  }

  /** Writing `t` into a slot that did not hold it raises only the count at `t`, by one. */
  lemma CountAfterWrite(q: seq<int>, idx: nat, t: int, p: int)
    requires idx < |q| && q[idx] != t
    ensures Count(q[idx := t], p) == Count(q, p) + (if p == t then 1 else 0) - (if p == q[idx] then 1 else 0)
  {
    assert multiset(q[idx := t]) == multiset(q) - multiset{q[idx]} + multiset{t};
  }

  /** Sending pieces home never raises the count at a board position. */
  lemma {:induction false} CountDrops(q: seq<int>, r: seq<int>, p: int)
    requires |q| == |r| && 0 <= p
    requires forall i :: 0 <= i < |q| ==> r[i] == q[i] || r[i] == AtHome
    ensures Count(r, p) <= Count(q, p)
  {
    if q != [] {
      CountDrops(q[1..], r[1..], p);
    }
  }

  /** Under the stacking cap no colour ever has all four pieces finished: the source's win test is unreachable. */
  lemma WinUnreachable(pieces: Pieces, c: Colour)
    requires StackOk(pieces)
    ensures exists i :: 0 <= i < 4 && pieces.Of(c)[i] != Finish
  {
    var q := pieces.Of(c);
    assert Count(q, Finish) <= 2;
    Count4(q, Finish);
    assert q[0] != Finish || q[1] != Finish || q[2] != Finish || q[3] != Finish;
  }

  /** The count over four pieces, spelled out. */
  lemma Count4(q: Quad, x: int)
    ensures Count(q, x) == (if q[0] == x then 1 else 0) + (if q[1] == x then 1 else 0)
                         + (if q[2] == x then 1 else 0) + (if q[3] == x then 1 else 0)
  {
    var q1, q2, q3 := q[1..], q[2..], q[3..];
    assert q1[1..] == q2 && q2[1..] == q3 && q3[1..] == [];
    assert Count(q3, x) == if q[3] == x then 1 else 0;
    assert Count(q2, x) == (if q[2] == x then 1 else 0) + Count(q3, x);
    assert Count(q1, x) == (if q[1] == x then 1 else 0) + Count(q2, x);
  }

  /** Concretely: with two pieces finished, a third piece one roll from the centre may not finish. */
  lemma ThirdPieceCannotFinish(active: seq<Colour>)
    ensures var pieces := Pieces([Finish, Finish, 53, AtHome], AllHome, AllHome, AllHome);
      !IsValidMove(pieces, active, Red, 53, 3)
  {
    var q: Quad := [Finish, Finish, 53, AtHome];
    var pieces := Pieces(q, AllHome, AllHome, AllHome);
    assert pieces.Of(Red) == q;
    assert multiset(q)[Finish] == 2;
  }

  /** The own-stack cap as evidently intended: finished pieces do not count against it. */
  function IsValidMoveIntended(pieces: Pieces, active: seq<Colour>, c: Colour, pos: int, roll: int): (r: bool)
    requires AtHome <= pos && 1 <= roll <= 6
    ensures r ==> (pos == AtHome && roll == 6) || (0 <= pos && pos + roll <= Finish)
    ensures Target(pos, roll) != Finish ==> r == IsValidMove(pieces, active, c, pos, roll)
  {
    if pos == AtHome then
      roll == 6 && !IsStartBlocked(pieces, active, c)
    else
      var t := pos + roll;
      if t > Finish then false
      else if t < Finish && Count(pieces.Of(c), t) >= 2 then false
      else if t <= 50 && OpponentBlock(pieces, active, c, GlobalIndex(c, t)) then false
      else true
  }

  /** With the intended cap any piece exactly `roll` short of the centre may finish, so a colour can win. */
  lemma IntendedAllowsFinish(pieces: Pieces, active: seq<Colour>, c: Colour, idx: nat, roll: int)
    requires idx < 4 && 1 <= roll <= 6 && Distinct(active)
    requires pieces.Of(c)[idx] == Finish - roll
    requires forall i :: 0 <= i < 4 && i != idx ==> pieces.Of(c)[i] == Finish
    ensures IsValidMoveIntended(pieces, active, c, pieces.Of(c)[idx], roll)
    ensures forall i :: 0 <= i < 4 ==> MoveResult(pieces, active, c, idx, roll).Of(c)[i] == Finish
  {
    forall i | 0 <= i < 4 ensures MoveResult(pieces, active, c, idx, roll).Of(c)[i] == Finish {
      MoveEffect(pieces, active, c, idx, roll, c, i);
    }
  }

  /**
   * The as-written and the corrected rule differ exactly on a board piece that would land on the
   * centre while two own pieces are already there; everywhere else they agree, and the corrected
   * rule only ever allows more.
   */
  lemma CapIsTheOnlyDifference(pieces: Pieces, active: seq<Colour>, c: Colour, pos: int, roll: int)
    requires AtHome <= pos && 1 <= roll <= 6
    ensures IsValidMove(pieces, active, c, pos, roll) != IsValidMoveIntended(pieces, active, c, pos, roll)
      <==> 0 <= pos && pos + roll == Finish && Count(pieces.Of(c), Finish) >= 2
    ensures IsValidMove(pieces, active, c, pos, roll) ==> IsValidMoveIntended(pieces, active, c, pos, roll)
  {
  }

  /** One piece each of two different opponent colours on a cell does not block it. */
  lemma MixedPairDoesNotBlock(pieces: Pieces, active: seq<Colour>, c: Colour, g: int)
    requires forall k :: 0 <= k < |active| && active[k] != c ==> CountOnCell(active[k], pieces.Of(active[k]), g) <= 1
    ensures !OpponentBlock(pieces, active, c, g)
  {
  }

  function Max(a: int, b: int): int {
    if a >= b then a else b
  }

  /** The bot's score for moving the piece at `pos`: 100 to finish; else on the ring 80 when any
      opponent piece stands on a non-safe target, 50 on a safe target; never below the target itself. */
  function BotScore(pieces: Pieces, active: seq<Colour>, c: Colour, pos: int, roll: int): (score: int)
    requires AtHome <= pos <= Finish && 1 <= roll <= 6
    ensures score >= Target(pos, roll)
    ensures Target(pos, roll) == Finish ==> score == 100
    ensures Target(pos, roll) != Finish ==> score <= 80
  {
    var t := Target(pos, roll);
    var special :=
      if t == Finish then 100
      else if t <= 50 then
        var g := GlobalIndex(c, t);
        var capture := if !IsSafe(g) && OpponentOn(pieces, active, c, g) then 80 else 0;
        if IsSafe(g) then Max(capture, 50) else capture
      else 0;
    Max(special, t)
  }

  /** Scores of the candidates `indices` for colour `c`, as `pickBestBotMove` computes them. */
  function ScoreOf(pieces: Pieces, active: seq<Colour>, c: Colour, idx: nat, roll: int): int
    requires idx < 4 && InRange(pieces) && 1 <= roll <= 6
  {
    BotScore(pieces, active, c, pieces.Of(c)[idx], roll)
  }

  /**
   * `pickBestBotMove`: the first candidate with the highest score (a strictly greater score is
   * needed to replace the current best).
   */
  method PickBestBotMove(pieces: Pieces, active: seq<Colour>, c: Colour, indices: seq<nat>, roll: int)
    returns (best: nat)
    requires |indices| > 0 && forall i :: 0 <= i < |indices| ==> indices[i] < 4
    requires InRange(pieces) && 1 <= roll <= 6
    ensures best in indices
    ensures forall k :: k in indices ==> ScoreOf(pieces, active, c, k, roll) <= ScoreOf(pieces, active, c, best, roll)
    ensures exists j ::
              && 0 <= j < |indices| && indices[j] == best
              && forall i :: 0 <= i < j ==> ScoreOf(pieces, active, c, indices[i], roll) < ScoreOf(pieces, active, c, best, roll)
  {
    ghost var sc := seq(|indices|, i requires 0 <= i < |indices| => ScoreOf(pieces, active, c, indices[i], roll));
    var bestScore := -1;
    best := indices[0];
    var bestAt := 0;
    var n := 0;
    while n < |indices|
      invariant 0 <= n <= |indices| && 0 <= bestAt < |indices| && best == indices[bestAt]
      invariant n == 0 ==> bestScore == -1 && bestAt == 0
      invariant n > 0 ==> bestAt < n && bestScore == sc[bestAt]
      invariant forall i :: 0 <= i < n ==> sc[i] <= bestScore
      invariant forall i :: 0 <= i < bestAt ==> sc[i] < bestScore
    {
      var idx := indices[n];
      var score := ScoreOf(pieces, active, c, idx, roll);
      assert score == sc[n];
      if score > bestScore {
        bestScore := score;
        best := idx;
        bestAt := n;
      }
      n := n + 1;
    }
    assert sc[bestAt] == ScoreOf(pieces, active, c, best, roll);
    forall k | k in indices ensures ScoreOf(pieces, active, c, k, roll) <= sc[bestAt] {
      var i :| 0 <= i < |indices| && indices[i] == k;
      assert sc[i] <= bestScore;
    }
    forall i | 0 <= i < bestAt ensures ScoreOf(pieces, active, c, indices[i], roll) < sc[bestAt] {
      assert sc[i] < bestScore;
    }
  }

  /** Given a candidate that finishes, the bot picks a finishing move (100 beats every other score). */
  lemma BotPrefersFinish(pieces: Pieces, active: seq<Colour>, c: Colour, indices: seq<nat>, roll: int, best: nat, k: nat)
    requires InRange(pieces) && 1 <= roll <= 6 && best < 4 && k < 4
    requires k in indices && Target(pieces.Of(c)[k], roll) == Finish
    requires forall j :: j in indices && j < 4 ==> ScoreOf(pieces, active, c, j, roll) <= ScoreOf(pieces, active, c, best, roll)
    ensures Target(pieces.Of(c)[best], roll) == Finish
  {
    assert ScoreOf(pieces, active, c, k, roll) == 100;
  }
}
