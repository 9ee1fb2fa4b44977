/**
 * The Water Sort rules of waterSort/puzzleGenerator.js: the difficulty table, the legality of a
 * pour, the pour itself (a block of the source's top colour, as much as fits), the win test and
 * the generator (a solved layout scrambled by random single-unit moves, colour rule ignored).
 */
module WaterSortLogic {
  import opened Common
  import opened Stacks

  /** Every tube holds at most four units. */
  const Capacity: nat := 4
  /** Number of entries of the colour palette. */
  const PaletteSize: nat := 12

  datatype Difficulty = Easy | Medium | Hard

  datatype Config = Config(totalTubes: nat, colorCount: nat, emptyTubes: nat, mixingSteps: nat, unitsPerColor: nat)

  /** `DIFFICULTY_CONFIG[difficulty || 'medium']`: no difficulty means medium. */
  function ConfigFor(d: Option<Difficulty>): (c: Config)
    ensures c.colorCount + c.emptyTubes == c.totalTubes
    ensures c.unitsPerColor == Capacity && c.emptyTubes == 2
    ensures 0 < c.colorCount <= PaletteSize
  {
    match d
    case Some(Easy) => Config(5, 3, 2, 100, 4)
    case Some(Hard) => Config(12, 10, 2, 500, 4)
    case _ => Config(7, 5, 2, 200, 4)
  }

  /** `canPour`: not from an empty tube, not into a full one; into an empty tube always,
      otherwise only onto the same top colour. */
  function CanPour(from: Stack, to: Stack): (ok: bool)
    ensures ok ==> from != [] && |to| < Capacity && (to == [] || to[|to| - 1] == from[|from| - 1])
    ensures !ok ==> from == [] || |to| >= Capacity || (to != [] && to[|to| - 1] != from[|from| - 1])
    ensures ok ==> 1 <= Min(TopRun(from), Capacity - |to|)
  {
    if |from| == 0 then false
    else if |to| >= Capacity then false
    else if |to| == 0 then true
    else from[|from| - 1] == to[|to| - 1]
  }

  /** Number of consecutive units equal to `c` directly below index `i`. */
  function RunBelow(s: Stack, c: int, i: nat): (n: nat)
    requires i <= |s|
    ensures n <= i
    ensures forall j :: i - n <= j < i ==> s[j] == c
    ensures n < i ==> s[i - n - 1] != c
  {
    if i == 0 || s[i - 1] != c then 0 else 1 + RunBelow(s, c, i - 1)
  }

  /** Length of the run of units equal to the top unit, counted from the top. */
  function TopRun(s: Stack): (n: nat)
    ensures n <= |s| && (s != [] ==> n >= 1) && (s == [] ==> n == 0)
    ensures forall j :: |s| - n <= j < |s| ==> s[j] == s[|s| - 1]
    ensures 0 < n < |s| ==> s[|s| - n - 1] != s[|s| - 1]
  {
    if s == [] then 0 else RunBelow(s, s[|s| - 1], |s|)
  }

  function Min(a: int, b: int): int {
    if a <= b then a else b
  }

  /** The tubes after `performPour`: when the pour is legal, the top run of `from` moves onto
      `to` as far as `to` has room; otherwise nothing changes. */
  function PourResult(tubes: seq<Stack>, from: nat, to: nat): seq<Stack>
    requires from < |tubes| && to < |tubes| && from != to
  {
    if CanPour(tubes[from], tubes[to]) then
      MoveBlock(tubes, from, to, Min(TopRun(tubes[from]), Capacity - |tubes[to]|))
    else tubes
  }

  /**
   * `performPour`: copy, then pop from `from` and push onto `to` while `from` is non-empty, its
   * top is the poured colour and `to` has room.
   */
  method PerformPour(tubes: seq<Stack>, from: nat, to: nat) returns (r: seq<Stack>)
    requires from < |tubes| && to < |tubes| && from != to
    ensures r == PourResult(tubes, from, to)
    ensures |r| == |tubes| && Units(r) == Units(tubes)
    ensures Bounded(tubes, Capacity) ==> Bounded(r, Capacity)
  {
    if !CanPour(tubes[from], tubes[to]) {
      return tubes;
    }
    var fromTube, toTube := PourUnits(tubes[from], tubes[to]);
    r := tubes[from := fromTube][to := toTube];
    assert r == MoveBlock(tubes, from, to, Min(TopRun(tubes[from]), Capacity - |tubes[to]|));
  }

  /** After `m` rounds of the pour loop, `m` units of the top colour have left `f` and landed on `t`. */
  ghost predicate Poured(f: Stack, t: Stack, m: nat, fromTube: Stack, toTube: Stack) {
    && f != [] && m <= |f|
    && fromTube == f[..|f| - m]
    && toTube == t + seq(m, _ => f[|f| - 1])
  }

  /** The loop guard of `performPour` holds exactly while fewer than the poured amount have moved. */
  lemma PourGuard(f: Stack, t: Stack, m: nat, fromTube: Stack, toTube: Stack)
    requires CanPour(f, t) && Poured(f, t, m, fromTube, toTube)
    requires m <= Min(TopRun(f), Capacity - |t|)
    ensures (|fromTube| > 0 && fromTube[|fromTube| - 1] == f[|f| - 1] && |toTube| < Capacity)
      <==> m < Min(TopRun(f), Capacity - |t|)
  {
    if |fromTube| > 0 {
      assert fromTube[|fromTube| - 1] == f[|f| - m - 1];
    }
  }

  /** One round of the pour loop moves one more unit of the top colour. */
  lemma PourStep(f: Stack, t: Stack, m: nat, fromTube: Stack, toTube: Stack)
    requires Poured(f, t, m, fromTube, toTube)
    requires |fromTube| > 0 && fromTube[|fromTube| - 1] == f[|f| - 1]
    ensures Poured(f, t, m + 1, fromTube[..|fromTube| - 1], toTube + [fromTube[|fromTube| - 1]])
  {
    assert seq(m, _ => f[|f| - 1]) + [f[|f| - 1]] == seq(m + 1, _ => f[|f| - 1]);
  }

  /** The loop of `performPour` on the two tubes: it moves exactly the block `PourResult` moves. */
  method PourUnits(f: Stack, t: Stack) returns (fromTube: Stack, toTube: Stack)
    requires CanPour(f, t)
    ensures var k := Min(TopRun(f), Capacity - |t|);
      fromTube == f[..|f| - k] && toTube == t + f[|f| - k..]
  {
    fromTube, toTube := f, t;
    var color := f[|f| - 1];
    ghost var k := Min(TopRun(f), Capacity - |t|);
    ghost var m := 0;
    assert t + seq(0, _ => color) == t;
    while |fromTube| > 0 && fromTube[|fromTube| - 1] == color && |toTube| < Capacity
      invariant m <= k && Poured(f, t, m, fromTube, toTube)
    {
      PourGuard(f, t, m, fromTube, toTube);
      PourStep(f, t, m, fromTube, toTube);
      toTube := toTube + [fromTube[|fromTube| - 1]];
      fromTube := fromTube[..|fromTube| - 1];
      m := m + 1;
    }
    PourGuard(f, t, m, fromTube, toTube);
    assert f[|f| - k..] == seq(k, _ => color);
  }

  /** The other half of `canPour`: a legal pour moves at least one unit, an illegal one none. */
  lemma PourMovesIffLegal(tubes: seq<Stack>, from: nat, to: nat)
    requires from < |tubes| && to < |tubes| && from != to
    ensures CanPour(tubes[from], tubes[to]) <==> |PourResult(tubes, from, to)[to]| > |tubes[to]|
    ensures !CanPour(tubes[from], tubes[to]) ==> PourResult(tubes, from, to) == tubes
  {
  }

  /**
   * What a legal pour does: every moved unit has the source's top colour, and the pour stops
   * only because the source is empty, a different colour is exposed, or the destination is full.
   */
  lemma PourEffect(tubes: seq<Stack>, from: nat, to: nat)
    requires from < |tubes| && to < |tubes| && from != to
    requires CanPour(tubes[from], tubes[to])
    ensures var r := PourResult(tubes, from, to);
      var f := tubes[from];
      var color := f[|f| - 1];
      && r[to][..|tubes[to]|] == tubes[to]
      && (forall j :: |tubes[to]| <= j < |r[to]| ==> r[to][j] == color)
      && (r[from] == [] || r[from][|r[from]| - 1] != color || |r[to]| == Capacity)
      && (forall i :: 0 <= i < |tubes| && i != from && i != to ==> r[i] == tubes[i])
  {
    var f := tubes[from];
    var t := tubes[to];
    var k := Min(TopRun(f), Capacity - |t|);
    var r := MoveBlock(tubes, from, to, k);
    assert PourResult(tubes, from, to) == r;
    BlockOnTop(f, t, k);
    BlockStop(f, t, k);
  }

  /** The top `k` units of `f`, for `k` within its top run, all have the top colour, and land above `t`. */
  lemma BlockOnTop(f: Stack, t: Stack, k: nat)
    requires f != [] && k <= TopRun(f)
    ensures var s := t + f[|f| - k..];
      s[..|t|] == t && forall j :: |t| <= j < |s| ==> s[j] == f[|f| - 1]
  {
    var s := t + f[|f| - k..];
    assert s[..|t|] == t;
    forall j | |t| <= j < |s| ensures s[j] == f[|f| - 1] {
      var x := |f| - k + (j - |t|);
      assert |f| - TopRun(f) <= x < |f|;
      assert s[j] == f[x];
    }
  }

  /** Moving `Min(TopRun(f), Capacity - |t|)` units leaves `f` empty, exposes another colour or fills `t`. */
  lemma BlockStop(f: Stack, t: Stack, k: nat)
    requires f != [] && |t| < Capacity && k == Min(TopRun(f), Capacity - |t|)
    ensures var rest := f[..|f| - k];
      rest == [] || rest[|rest| - 1] != f[|f| - 1] || |t| + k == Capacity
  {
    var rest := f[..|f| - k];
    if k != Capacity - |t| && k < |f| {
      assert k == TopRun(f);
      assert rest[|rest| - 1] == f[|f| - k - 1];
    }
  }

  /** `checkWin`: every tube is empty or holds four units of one colour. */
  function CheckWin(tubes: seq<Stack>): (won: bool)
    ensures won <==> forall i :: 0 <= i < |tubes| ==>
      tubes[i] == [] || (|tubes[i]| == Capacity && forall j :: 0 <= j < Capacity ==> tubes[i][j] == tubes[i][0])
    ensures won ==> Bounded(tubes, Capacity)
  {
    Solved(tubes, Capacity)
  }

  /** Random draws usable for difficulty `d`: both indices name one of its tubes. */
  predicate DrawsFit(d: Option<Difficulty>, draws: seq<(nat, nat)>) {
    forall k :: 0 <= k < |draws| ==> draws[k].0 < ConfigFor(d).totalTubes && draws[k].1 < ConfigFor(d).totalTubes
  }

  /** The puzzle of difficulty `d` for the draws: the solved layout, scrambled. */
  function Puzzle(d: Option<Difficulty>, draws: seq<(nat, nat)>): seq<Stack>
    requires DrawsFit(d, draws)
  {
    var c := ConfigFor(d);
    ApplyDraws(SolvedState(c.colorCount, c.unitsPerColor, c.emptyTubes), Capacity, c.mixingSteps, draws)
  }

  /**
   * `generatePuzzle`: one full tube per colour, then the empty tubes, then `mixingSteps` random
   * single-unit moves drawn from `draws` (indices below `totalTubes`).
   */
  method GeneratePuzzle(d: Option<Difficulty>, draws: seq<(nat, nat)>) returns (tubes: seq<Stack>)
    requires DrawsFit(d, draws)
    ensures tubes == Puzzle(d, draws)
  {
    var c := ConfigFor(d);
    var start := BuildSolved(c.colorCount, c.unitsPerColor, c.emptyTubes);
    tubes := Scramble(start, Capacity, c.mixingSteps, draws);
  }

  /** A generated puzzle has `totalTubes` tubes, none over capacity. */
  lemma PuzzleShape(d: Option<Difficulty>, draws: seq<(nat, nat)>)
    requires DrawsFit(d, draws)
    ensures |Puzzle(d, draws)| == ConfigFor(d).totalTubes && Bounded(Puzzle(d, draws), Capacity)
  {
    var c := ConfigFor(d);
    ScrambleConserves(SolvedState(c.colorCount, c.unitsPerColor, c.emptyTubes), Capacity, c.mixingSteps, draws);
  }

  /** A generated puzzle holds exactly four units of each of the `colorCount` colours and no other. */
  lemma PuzzleColours(d: Option<Difficulty>, draws: seq<(nat, nat)>)
    requires DrawsFit(d, draws)
    ensures forall x :: Units(Puzzle(d, draws))[x] == if 0 <= x < ConfigFor(d).colorCount then Capacity else 0
  {
    var c := ConfigFor(d);
    ScrambleConserves(SolvedState(c.colorCount, c.unitsPerColor, c.emptyTubes), Capacity, c.mixingSteps, draws);
    SolvedStateUnits(c.colorCount, c.unitsPerColor, c.emptyTubes);
  }
}
