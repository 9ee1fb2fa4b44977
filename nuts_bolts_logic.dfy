/**
 * The Nuts & Bolts rules of nutsBolts/gameLogic.js: the difficulty table, the level generator
 * (full bolts, enough empty bolts, then random single-nut moves that ignore colours), the move
 * rule and the win test.
 */
module NutsBoltsLogic {
  import opened Stacks

  /** The default `capacity` argument of `isValidMove` and `checkWin`. */
  const DefaultCapacity: nat := 4
  /** Number of entries of the nut palette. */
  const PaletteSize: nat := 8

  datatype Difficulty = Easy | Medium | Hard

  datatype Config = Config(bolts: nat, colors: nat, capacity: nat, empty: nat, scramble: nat)

  /** `DIFFICULTY_CONFIG`. */
  function ConfigFor(d: Difficulty): (c: Config)
    ensures c.capacity == DefaultCapacity && 0 < c.colors <= PaletteSize && c.colors < c.bolts
    ensures c.empty >= 1
  {
    match d
    case Easy => Config(4, 3, 4, 1, 50)
    case Medium => Config(6, 4, 4, 2, 150)
    case Hard => Config(9, 7, 4, 2, 300)
  }

  /** The number of empty bolts added: at least `empty`, and enough to reach `bolts` in total. */
  function NeededEmpty(c: Config): (n: nat)
    ensures n >= c.empty && c.colors + n >= c.bolts
    ensures n == c.empty || c.colors + n == c.bolts
  {
    if c.empty >= c.bolts - c.colors then c.empty else c.bolts - c.colors
  }

  /** Every configuration ends up with exactly its `bolts` count. */
  lemma BoltCountMatches(d: Difficulty)
    ensures ConfigFor(d).colors + NeededEmpty(ConfigFor(d)) == ConfigFor(d).bolts
  {
  }

  /** `isValidMove`: not onto the same bolt, not from an empty bolt, not onto a full bolt; onto an
      empty bolt always, otherwise only onto the same top nut. */
  function IsValidMove(bolts: seq<Stack>, from: nat, to: nat, capacity: nat): (ok: bool)
    requires from < |bolts| && to < |bolts|
    ensures ok ==> from != to && bolts[from] != [] && |bolts[to]| < capacity
    ensures ok && bolts[to] != [] ==> bolts[to][|bolts[to]| - 1] == bolts[from][|bolts[from]| - 1]
    ensures !ok ==>
      (|| from == to || bolts[from] == [] || |bolts[to]| >= capacity
       || (bolts[to] != [] && bolts[to][|bolts[to]| - 1] != bolts[from][|bolts[from]| - 1]))
  {
    if from == to then false
    else if |bolts[from]| == 0 then false
    else if |bolts[to]| >= capacity then false
    else if |bolts[to]| == 0 then true
    else bolts[from][|bolts[from]| - 1] == bolts[to][|bolts[to]| - 1]
  }

  /** A legal move keeps every bolt within capacity and every colour's nut count. */
  lemma ValidMoveConserves(bolts: seq<Stack>, from: nat, to: nat, capacity: nat)
    requires from < |bolts| && to < |bolts| && IsValidMove(bolts, from, to, capacity)
    requires Bounded(bolts, capacity)
    ensures var r := MoveBlock(bolts, from, to, 1);
      Bounded(r, capacity) && Units(r) == Units(bolts) && |r| == |bolts|
      && r[to] == bolts[to] + [bolts[from][|bolts[from]| - 1]]
      && r[from] == bolts[from][..|bolts[from]| - 1]
  {
    var r := MoveBlock(bolts, from, to, 1);
    assert r[to] == r[to][..|bolts[to]|] + r[to][|bolts[to]|..];
  }

  /** `checkWin`: every bolt is empty or holds `capacity` nuts equal to the first. */
  function CheckWin(bolts: seq<Stack>, capacity: nat): (won: bool)
    ensures won <==> forall i :: 0 <= i < |bolts| ==>
      bolts[i] == [] || (|bolts[i]| == capacity && forall j :: 0 <= j < capacity ==> bolts[i][j] == bolts[i][0])
    ensures won ==> Bounded(bolts, capacity)
  {
    Solved(bolts, capacity)
  }

  /** Random draws usable for difficulty `d`: both indices name one of its bolts. */
  predicate DrawsFit(d: Difficulty, draws: seq<(nat, nat)>) {
    forall k :: 0 <= k < |draws| ==> draws[k].0 < ConfigFor(d).bolts && draws[k].1 < ConfigFor(d).bolts
  }

  /** The level of difficulty `d` for the draws: the solved layout, scrambled. */
  function Level(d: Difficulty, draws: seq<(nat, nat)>): seq<Stack>
    requires DrawsFit(d, draws)
  {
    var c := ConfigFor(d);
    ApplyDraws(SolvedState(c.colors, c.capacity, NeededEmpty(c)), c.capacity, c.scramble, draws)
  }

  /**
   * `generateLevel`: one full bolt per colour, `NeededEmpty` empty bolts, then `scramble` random
   * single-nut moves drawn from `draws` (indices below the number of bolts).
   */
  method GenerateLevel(d: Difficulty, draws: seq<(nat, nat)>) returns (bolts: seq<Stack>, config: Config)
    requires DrawsFit(d, draws)
    ensures config == ConfigFor(d) && bolts == Level(d, draws)
  {
    config := ConfigFor(d);
    var start := BuildSolved(config.colors, config.capacity, NeededEmpty(config));
    bolts := Scramble(start, config.capacity, config.scramble, draws);
  }

  /** A generated level has `bolts` bolts, none over capacity. */
  lemma LevelShape(d: Difficulty, draws: seq<(nat, nat)>)
    requires DrawsFit(d, draws)
    ensures |Level(d, draws)| == ConfigFor(d).bolts && Bounded(Level(d, draws), DefaultCapacity)
  {
    var c := ConfigFor(d);
    ScrambleConserves(SolvedState(c.colors, c.capacity, NeededEmpty(c)), c.capacity, c.scramble, draws);
  }

  /** A generated level holds exactly `capacity` nuts of each of its `colors` colours and no other. */
  lemma LevelColours(d: Difficulty, draws: seq<(nat, nat)>)
    requires DrawsFit(d, draws)
    ensures forall x :: Units(Level(d, draws))[x] == if 0 <= x < ConfigFor(d).colors then DefaultCapacity else 0
  {
    var c := ConfigFor(d);
    ScrambleConserves(SolvedState(c.colors, c.capacity, NeededEmpty(c)), c.capacity, c.scramble, draws);
    SolvedStateUnits(c.colors, c.capacity, NeededEmpty(c));
  }
}
