/**
 * The Water Sort screen (WaterSortScreen.js): starting and resetting a puzzle, selecting tubes,
 * pouring with an undo history and a move counter, and the star rating. The pour animation is
 * collapsed into one step, so the `isPouring` guard never fires between handlers.
 */
module WaterSortScreen {
  import opened Common
  import opened Stacks
  import opened WaterSortLogic

  /** `getStarRating`: three stars up to the first threshold, two up to the second, else one. */
  function StarRating(d: Option<Difficulty>, moves: int): (stars: int)
    ensures 1 <= stars <= 3
    ensures stars == 3 <==> moves <= Thresholds(d).0
    ensures stars >= 2 <==> moves <= Thresholds(d).1
  {
    var (first, second) := Thresholds(d);
    if moves <= first then 3
    else if moves <= second then 2
    else 1
  }

  /** The two move thresholds per difficulty; no difficulty uses 20/30. */
  function Thresholds(d: Option<Difficulty>): (t: (int, int))
    ensures 0 < t.0 < t.1
  {
    match d
    case Some(Easy) => (15, 20)
    case Some(Medium) => (30, 40)
    case Some(Hard) => (60, 80)
    case None => (20, 30)
  }

  /** Fewer moves never earn fewer stars. */
  lemma StarsNonIncreasing(d: Option<Difficulty>, m1: int, m2: int)
    requires m1 <= m2
    ensures StarRating(d, m2) <= StarRating(d, m1)
  {
  }

  class WaterSortGame {
    var gameStarted: bool
    var difficulty: Option<Difficulty>
    var tubes: seq<Stack>
    var selected: Option<nat>
    var moves: int
    var history: seq<seq<Stack>>
    /** The units of the puzzle being played, fixed when it was generated. */
    ghost var units: multiset<int>

    /**
     * The move counter equals the history length; the current tubes and every snapshot have the
     * same number of tubes, hold exactly the puzzle's units and respect the capacity; a selected
     * tube exists and is non-empty.
     */
    ghost predicate Valid()
      reads this
    {
      && moves == |history|
      && Units(tubes) == units && Bounded(tubes, Capacity)
      && Snapshots(history, |tubes|, units, Capacity)
      && (selected.Some? ==> selected.value < |tubes| && tubes[selected.value] != [])
    }

    /** The menu before any puzzle. */
    constructor()
      ensures Valid() && !gameStarted && difficulty == None
      ensures tubes == [] && selected == None && moves == 0 && history == []
    {
      gameStarted := false;
      difficulty := None;
      tubes := [];
      selected := None;
      moves := 0;
      history := [];
      units := multiset{};
    }

    /** `handleStartGame`: the chosen difficulty, then a fresh puzzle as on a reset, and the game screen. */
    method HandleStartGame(d: Difficulty, draws: seq<(nat, nat)>)
      requires DrawsFit(Some(d), draws)
      modifies this
      ensures Valid() && gameStarted && difficulty == Some(d)
      ensures tubes == Puzzle(Some(d), draws)
      ensures selected == None && moves == 0 && history == []
    {
      difficulty := Some(d);
      HandleReset(draws);
      gameStarted := true;
    }

    /** `handleReset` (once confirmed): a new puzzle of the current difficulty, history cleared. */
    method HandleReset(draws: seq<(nat, nat)>)
      requires DrawsFit(difficulty, draws)
      modifies this
      ensures Valid() && gameStarted == old(gameStarted) && difficulty == old(difficulty)
      ensures tubes == Puzzle(difficulty, draws)
      ensures selected == None && moves == 0 && history == []
    {
      var t := GeneratePuzzle(difficulty, draws);
      PuzzleShape(difficulty, draws);
      tubes := t;
      units := Units(t);
      selected := None;
      moves := 0;
      history := [];
    }

    /** `finishPour`: remember the tubes, pour, count the move, clear the selection; reports
        whether the puzzle is now solved. */
    method FinishPour(from: nat, to: nat) returns (won: bool)
      requires Valid() && from < |tubes| && to < |tubes| && from != to
      modifies this
      ensures Valid() && units == old(units)
      ensures history == old(history) + [old(tubes)] && moves == old(moves) + 1
      ensures tubes == PourResult(old(tubes), from, to) && selected == None
      ensures won == CheckWin(tubes)
      ensures gameStarted == old(gameStarted) && difficulty == old(difficulty)
    {
      SnapshotsAppend(history, tubes, units, Capacity);
      var r := PerformPour(tubes, from, to);
      history := history + [tubes];
      tubes := r;
      moves := moves + 1;
      selected := None;
      won := CheckWin(tubes);
    }

    /** `tryPour`: pour when `canPour` allows it, otherwise just drop the selection. */
    method TryPour(from: nat, to: nat) returns (won: bool)
      requires Valid() && from < |tubes| && to < |tubes| && from != to
      modifies this
      ensures Valid() && units == old(units) && selected == None
      ensures CanPour(old(tubes)[from], old(tubes)[to]) ==>
        history == old(history) + [old(tubes)] && moves == old(moves) + 1
        && tubes == PourResult(old(tubes), from, to) && won == CheckWin(tubes)
      ensures !CanPour(old(tubes)[from], old(tubes)[to]) ==>
        history == old(history) && tubes == old(tubes) && moves == old(moves) && !won
      ensures gameStarted == old(gameStarted) && difficulty == old(difficulty)
    {
      if CanPour(tubes[from], tubes[to]) {
        won := FinishPour(from, to);
      } else {
        selected := None;
        won := false;
      }
    }

    /**
     * `handleTubePress`: with nothing selected a non-empty tube becomes selected; pressing the
     * selected tube again deselects it; pressing another tube tries to pour into it.
     */
    method HandleTubePress(index: nat) returns (won: bool)
      requires Valid() && index < |tubes|
      modifies this
      ensures Valid() && units == old(units)
      ensures gameStarted == old(gameStarted) && difficulty == old(difficulty)
      ensures old(selected) == None ==>
        tubes == old(tubes) && history == old(history) && moves == old(moves) && !won
        && selected == (if old(tubes)[index] != [] then Some(index) else None)
      ensures old(selected) == Some(index) ==>
        tubes == old(tubes) && history == old(history) && moves == old(moves) && selected == None && !won
      ensures old(selected).Some? && old(selected) != Some(index) ==>
        var from := old(selected).value;
        && selected == None
        && (CanPour(old(tubes)[from], old(tubes)[index]) ==>
              && tubes == PourResult(old(tubes), from, index) && history == old(history) + [old(tubes)]
              && moves == old(moves) + 1 && won == CheckWin(tubes))
        && (!CanPour(old(tubes)[from], old(tubes)[index]) ==>
              tubes == old(tubes) && history == old(history) && moves == old(moves) && !won)
    {
      won := false;
      match selected
      case None =>
        if tubes[index] != [] {
          selected := Some(index);
        }
      case Some(s) =>
        if s == index {
          selected := None;
        } else {
          won := TryPour(s, index);
        }
    }

    /** `handleUndo`: with a history, go back to the last snapshot, drop it and uncount a move. */
    method HandleUndo()
      requires Valid()
      modifies this
      ensures Valid() && units == old(units)
      ensures old(history) == [] ==> tubes == old(tubes) && history == [] && moves == old(moves) && selected == old(selected)
      ensures old(history) != [] ==>
        && tubes == old(history)[|old(history)| - 1]
        && history == old(history)[..|old(history)| - 1]
        && moves == old(moves) - 1 && selected == None
      ensures gameStarted == old(gameStarted) && difficulty == old(difficulty)
    {
      if |history| > 0 {
        tubes := history[|history| - 1];
        history := history[..|history| - 1];
        moves := moves - 1;
        selected := None;
      }
    }

    /** `handleBackToMenu`: leave the puzzle; the tubes stay until the next start. */
    method HandleBackToMenu()
      requires Valid()
      modifies this
      ensures Valid() && !gameStarted && difficulty == None && selected == None
      ensures tubes == old(tubes) && history == old(history) && moves == old(moves) && units == old(units)
    {
      gameStarted := false;
      difficulty := None;
      selected := None;
    }
  }
}
