/**
 * The Nuts & Bolts screen (NutsBoltsScreen.js): choosing the difficulty from the level, selecting
 * bolts, moving one nut at a time with an undo history, and declaring the win.
 */
module NutsBoltsScreen {
  import opened Common
  import opened Stacks
  import opened NutsBoltsLogic

  datatype Screen = Menu | Game

  /** `startNewGame`'s level bands: 1-5 easy, 6-15 medium, above 15 hard. */
  function DifficultyForLevel(lvl: int): (d: Difficulty)
    ensures d == Easy <==> lvl <= 5
    ensures d == Hard <==> lvl > 15
  {
    if lvl <= 5 then Easy
    else if lvl <= 15 then Medium
    else Hard
  }

  /** A higher level never gets an easier configuration (more or equal colours and bolts). */
  lemma LevelsGetHarder(l1: int, l2: int)
    requires l1 <= l2
    ensures ConfigFor(DifficultyForLevel(l1)).colors <= ConfigFor(DifficultyForLevel(l2)).colors
    ensures ConfigFor(DifficultyForLevel(l1)).bolts <= ConfigFor(DifficultyForLevel(l2)).bolts
  {
  }

  /** The pop-and-push of `performMove` on a copy of the bolts: the top nut of `from` goes onto
      `to` and nothing else changes. */
  method MoveNut(bolts: seq<Stack>, from: nat, to: nat) returns (r: seq<Stack>)
    requires from < |bolts| && to < |bolts| && from != to && bolts[from] != []
    ensures r == MoveBlock(bolts, from, to, 1)
  {
    r := bolts;
    var nut := r[from][|r[from]| - 1];
    r := r[from := r[from][..|r[from]| - 1]];
    r := r[to := r[to] + [nut]];
    var m := MoveBlock(bolts, from, to, 1);
    assert m[to] == m[to][..|bolts[to]|] + m[to][|bolts[to]|..];
    assert m[from] + m[to][|bolts[to]|..] == bolts[from];
    assert m[from] == bolts[from][..|bolts[from]| - 1];
    assert m[to][|bolts[to]|..] == [bolts[from][|bolts[from]| - 1]];
  }

  class NutsBoltsGame {
    var level: int
    var bolts: seq<Stack>
    var selected: Option<nat>
    var history: seq<seq<Stack>>
    var gameWon: bool
    var screen: Screen
    /** The nuts of the level being played, fixed when it was generated. */
    ghost var units: multiset<int>

    /** Every position (current and remembered) has the same bolts count, the level's nuts and
        respects the capacity; a selected bolt exists and is non-empty. */
    ghost predicate Valid()
      reads this
    {
      && Units(bolts) == units && Bounded(bolts, DefaultCapacity)
      && Snapshots(history, |bolts|, units, DefaultCapacity)
      && (selected.Some? ==> selected.value < |bolts| && bolts[selected.value] != [])
    }

    /** The level menu at level 1. */
    constructor()
      ensures Valid() && level == 1 && bolts == [] && selected == None && history == []
      ensures !gameWon && screen == Menu
    {
      level := 1;
      bolts := [];
      selected := None;
      history := [];
      gameWon := false;
      screen := Menu;
      units := multiset{};
    }

    /** `startNewGame`: generate the level's puzzle and clear selection, history and the win. */
    method StartNewGame(lvl: int, draws: seq<(nat, nat)>)
      requires DrawsFit(DifficultyForLevel(lvl), draws)
      modifies this
      ensures Valid() && level == lvl && screen == Game && selected == None && history == [] && !gameWon
      ensures bolts == Level(DifficultyForLevel(lvl), draws)
    {
      var diff := DifficultyForLevel(lvl);
      var newBolts, _ := GenerateLevel(diff, draws);
      LevelShape(diff, draws);
      level := lvl;
      screen := Game;
      gameWon := false;
      Load(newBolts);
    }

    /** Show the bolts `b` with no selection and an empty history. */
    method Load(b: seq<Stack>)
      requires Bounded(b, DefaultCapacity)
      modifies this
      ensures Valid() && bolts == b && selected == None && history == []
      ensures level == old(level) && screen == old(screen) && gameWon == old(gameWon)
    {
      bolts := b;
      units := Units(b);
      selected := None;
      history := [];
    }

    /** `handleBackToMenu`. */
    method HandleBackToMenu()
      requires Valid()
      modifies this
      ensures Valid() && screen == Menu && !gameWon
      ensures bolts == old(bolts) && history == old(history) && selected == old(selected) && level == old(level)
      ensures units == old(units)
    {
      screen := Menu;
      gameWon := false;
    }

    /** `performMove`: remember the bolts, move the top nut of `from` onto `to`, drop the
        selection, and declare the win when `checkWin` holds. */
    method PerformMove(from: nat, to: nat)
      requires Valid() && from < |bolts| && to < |bolts| && IsValidMove(bolts, from, to, DefaultCapacity)
      modifies this
      ensures Valid() && units == old(units)
      ensures history == old(history) + [old(bolts)] && bolts == MoveBlock(old(bolts), from, to, 1)
      ensures selected == None
      ensures gameWon == (old(gameWon) || CheckWin(bolts, DefaultCapacity))
      ensures level == old(level) && screen == old(screen)
    {
      var moved := MoveNut(bolts, from, to);
      ValidMoveConserves(bolts, from, to, DefaultCapacity);
      Commit(moved, CheckWin(moved, DefaultCapacity));
    }

    /** The bookkeeping of `performMove` once the new bolts are known: the old bolts go on the
        undo history, `moved` is shown, the selection is dropped and `won` sets the win flag. */
    method Commit(moved: seq<Stack>, won: bool)
      requires Valid() && |moved| == |bolts| && Units(moved) == units && Bounded(moved, DefaultCapacity)
      modifies this
      ensures Valid() && units == old(units)
      ensures history == old(history) + [old(bolts)] && bolts == moved && selected == None
      ensures gameWon == (old(gameWon) || won)
      ensures level == old(level) && screen == old(screen)
    {
      var h := history + [bolts];
      SnapshotsAppend(history, bolts, units, DefaultCapacity);
      assert Snapshots(h, |moved|, units, DefaultCapacity);
      history := h;
      bolts := moved;
      selected := None;
      gameWon := gameWon || won;
    }

    /**
     * `handlePress`: ignored once the level is won; otherwise a non-empty bolt is picked up, the
     * picked bolt is put back, or a legal move to another bolt is made (an illegal one only drops
     * the selection).
     */
    method HandlePress(index: nat)
      requires Valid() && index < |bolts|
      modifies this
      ensures Valid() && units == old(units) && level == old(level) && screen == old(screen)
      ensures old(gameWon) ==> unchanged(this)
      ensures !old(gameWon) && old(selected) == None ==>
        bolts == old(bolts) && history == old(history) && !gameWon
        && selected == (if old(bolts)[index] != [] then Some(index) else None)
      ensures !old(gameWon) && old(selected).Some? ==>
        var from := old(selected).value;
        && selected == None
        && (IsValidMove(old(bolts), from, index, DefaultCapacity) ==>
              bolts == MoveBlock(old(bolts), from, index, 1) && history == old(history) + [old(bolts)]
              && gameWon == CheckWin(bolts, DefaultCapacity))
        && (!IsValidMove(old(bolts), from, index, DefaultCapacity) ==>
              bolts == old(bolts) && history == old(history) && !gameWon)
    {
      if gameWon {
        return;
      }
      match selected
      case None =>
        if bolts[index] != [] {
          selected := Some(index);
        }
      case Some(s) =>
        if s == index {
          selected := None;
        } else if IsValidMove(bolts, s, index, DefaultCapacity) {
          PerformMove(s, index);
        } else {
          selected := None;
        }
    }

    /** `handleUndo`: with a history, go back to the last snapshot and drop it; the win flag is
        left as it was. */
    method HandleUndo()
      requires Valid()
      modifies this
      ensures Valid() && units == old(units) && gameWon == old(gameWon) && level == old(level)
      ensures screen == old(screen)
      ensures old(history) == [] ==> unchanged(this)
      ensures old(history) != [] ==>
        && bolts == old(history)[|old(history)| - 1]
        && history == old(history)[..|old(history)| - 1]
        && selected == None
    {
      if |history| == 0 {
        return;
      }
      bolts := history[|history| - 1];
      history := history[..|history| - 1];
      selected := None;
    }
  }
}
