/**
 * Capacity-bounded stacks of colour ids, shared by the Water Sort tubes (puzzleGenerator.js) and
 * the Nuts & Bolts bolts (gameLogic.js). The last element of a stack is its top. A colour is the
 * index of its palette entry (the source compares palette entries by reference).
 */
module Stacks {
  type Stack = seq<int>

  /** All units held by the stacks, as one multiset. */
  function Units(ts: seq<Stack>): multiset<int> {
    if ts == [] then multiset{} else Units(ts[..|ts| - 1]) + multiset(ts[|ts| - 1])
  }

  /** No stack holds more than `cap` units. */
  predicate Bounded(ts: seq<Stack>, cap: nat) {
    forall i :: 0 <= i < |ts| ==> |ts[i]| <= cap
  }

  /** A stack is complete: `cap` units, all of the first unit's colour. */
  predicate Uniform(s: Stack, cap: nat) {
    |s| == cap && forall j :: 0 <= j < |s| ==> s[j] == s[0]
  }

  /** `checkWin`: every stack is empty or complete. */
  predicate Solved(ts: seq<Stack>, cap: nat) {
    forall i :: 0 <= i < |ts| ==> ts[i] == [] || Uniform(ts[i], cap)
  }

  /** Every snapshot of an undo history has `n` stacks, holds exactly `units` and respects `cap`. */
  ghost predicate Snapshots(history: seq<seq<Stack>>, n: nat, units: multiset<int>, cap: nat) {
    forall h :: 0 <= h < |history| ==>
      |history[h]| == n && Units(history[h]) == units && Bounded(history[h], cap)
  }

  /** Recording a snapshot that meets the same conditions keeps them for the whole history. */
  lemma SnapshotsAppend(history: seq<seq<Stack>>, ts: seq<Stack>, units: multiset<int>, cap: nat)
    requires Snapshots(history, |ts|, units, cap)
    requires Units(ts) == units && Bounded(ts, cap)
    ensures Snapshots(history + [ts], |ts|, units, cap)
  {
    var h2 := history + [ts];
    forall h | 0 <= h < |h2|
      ensures |h2[h]| == |ts| && Units(h2[h]) == units && Bounded(h2[h], cap)
    {
      if h < |history| {
        assert h2[h] == history[h];
      }
    }
  }

  /** The top `k` units of stack `from` move, in order, onto stack `to`; nothing else changes. */
  function MoveBlock(ts: seq<Stack>, from: nat, to: nat, k: nat): (r: seq<Stack>)
    requires from < |ts| && to < |ts| && from != to && k <= |ts[from]|
    ensures |r| == |ts| && Units(r) == Units(ts)
    ensures r[from] == ts[from][..|ts[from]| - k] && r[to] == ts[to] + ts[from][|ts[from]| - k..]
    ensures forall i :: 0 <= i < |ts| && i != from && i != to ==> r[i] == ts[i]
  {
    var f := ts[from];
    var keep := f[..|f| - k];
    var block := f[|f| - k..];
    TransferUnits(ts, from, to, keep, block);
    ts[from := keep][to := ts[to] + block]
  }

  /** Splitting stack `from` into `keep + block` and appending `block` to stack `to` keeps the units. */
  lemma TransferUnits(ts: seq<Stack>, from: nat, to: nat, keep: Stack, block: Stack)
    requires from < |ts| && to < |ts| && from != to && ts[from] == keep + block
    ensures Units(ts[from := keep][to := ts[to] + block]) == Units(ts)
  {
    var mid := ts[from := keep];
    UnitsContains(ts, from);
    UnitsUpdate(ts, from, keep);
    assert multiset(ts[from]) == multiset(keep) + multiset(block);
    assert Units(mid) + multiset(block) == Units(ts);
    UnitsUpdate(mid, to, ts[to] + block);
    UnitsContains(mid, to);
    assert mid[to] == ts[to];
    assert multiset(ts[to] + block) == multiset(ts[to]) + multiset(block);
  }

  lemma {:induction false} UnitsContains(ts: seq<Stack>, i: nat)
    requires i < |ts|
    ensures multiset(ts[i]) <= Units(ts)
  {
    var n := |ts| - 1;
    if i < n {
      UnitsContains(ts[..n], i);
    }
  }

  /** Replacing one stack replaces its units and nothing else. */
  lemma {:induction false} UnitsUpdate(ts: seq<Stack>, i: nat, s: Stack)
    requires i < |ts|
    ensures Units(ts[i := s]) == Units(ts) - multiset(ts[i]) + multiset(s)
  {
    var n := |ts| - 1;
    var u := ts[i := s];
    if i == n {
      assert u[..n] == ts[..n];
    } else {
      assert u[..n] == ts[..n][i := s];
      UnitsUpdate(ts[..n], i, s);
      UnitsContains(ts[..n], i);
    }
  }

  /** Units of a concatenation. */
  lemma {:induction false} UnitsAppend(a: seq<Stack>, b: seq<Stack>)
    ensures Units(a + b) == Units(a) + Units(b)
    decreases |b|
  {
    if b != [] {
      var n := |b| - 1;
      assert (a + b)[..|a + b| - 1] == a + b[..n];
      assert (a + b)[|a + b| - 1] == b[n];
      UnitsAppend(a, b[..n]);
      assert Units(a + b) == Units(a + b[..n]) + multiset(b[n]);
      assert Units(b) == Units(b[..n]) + multiset(b[n]);
    } else {
      assert a + b == a;
    }
  }

  /** A solved starting layout: one complete stack per colour `0..colours-1`, then `empties`
      empty stacks. */
  function SolvedState(colours: nat, cap: nat, empties: nat): (r: seq<Stack>)
    ensures |r| == colours + empties
    ensures Solved(r, cap) && Bounded(r, cap)
    ensures forall i :: 0 <= i < colours ==> |r[i]| == cap && (cap > 0 ==> r[i][0] == i)
    ensures forall i :: colours <= i < |r| ==> r[i] == []
  {
    Filled(colours, cap) + Empties(empties)
  }

  function Empties(e: nat): seq<Stack> {
    seq(e, _ => [])
  }

  function Filled(colours: nat, cap: nat): seq<Stack> {
    seq(colours, c => seq(cap, _ => c))
  }

  /** The starting layout holds exactly `cap` units of each colour `0..colours-1` and nothing else. */
  lemma SolvedStateUnits(colours: nat, cap: nat, empties: nat)
    ensures forall x :: Units(SolvedState(colours, cap, empties))[x] == if 0 <= x < colours then cap else 0
  {
    UnitsAppend(Filled(colours, cap), Empties(empties));
    NoUnits(empties);
    forall x ensures Units(Filled(colours, cap))[x] == if 0 <= x < colours then cap else 0 {
      FilledUnits(colours, cap, x);
    }
  }

  lemma {:induction false} NoUnits(e: nat)
    ensures Units(Empties(e)) == multiset{}
  {
    if e > 0 {
      assert Empties(e)[..e - 1] == Empties(e - 1);
      NoUnits(e - 1);
    }
  }

  lemma {:induction false} FilledUnits(colours: nat, cap: nat, x: int)
    ensures Units(Filled(colours, cap))[x] == if 0 <= x < colours then cap else 0
  {
    if colours > 0 {
      var n := colours - 1;
      assert Filled(colours, cap)[..n] == Filled(n, cap);
      FilledUnits(n, cap, x);
      RepeatUnits(n, cap, x);
    }
  }

  lemma {:induction false} RepeatUnits(c: int, cap: nat, x: int)
    ensures multiset(seq(cap, _ => c))[x] == if x == c then cap else 0
  {
    if cap > 0 {
      assert seq(cap, _ => c) == seq(cap - 1, _ => c) + [c];
      RepeatUnits(c, cap - 1, x);
    }
  }

  /** Every unit lies in some stack. */
  lemma {:induction false} UnitsMember(ts: seq<Stack>, x: int)
    requires x in Units(ts)
    ensures exists i, j :: 0 <= i < |ts| && 0 <= j < |ts[i]| && ts[i][j] == x
  {
    var n := |ts| - 1;
    if x in multiset(ts[n]) {
      assert x in ts[n];
      var j :| 0 <= j < |ts[n]| && ts[n][j] == x;
    } else {
      UnitsMember(ts[..n], x);
      var i, j :| 0 <= i < n && 0 <= j < |ts[..n][i]| && ts[..n][i][j] == x;
      assert ts[i][j] == x;
    }
  }

  /** Two different stacks together hold no more of a colour than all the stacks. */
  lemma UnitsOfTwo(ts: seq<Stack>, i: nat, j: nat, x: int)
    requires i < |ts| && j < |ts| && i != j
    ensures multiset(ts[i])[x] + multiset(ts[j])[x] <= Units(ts)[x]
  {
    UnitsUpdate(ts, i, []);
    UnitsContains(ts[i := []], j);
    UnitsContains(ts, i);
  }

  /**
   * In a solved position where each colour has exactly `cap` units, all units of a colour sit in
   * a single stack: no other stack holds any of them.
   */
  lemma SolvedGathersColours(ts: seq<Stack>, cap: nat, x: int, i: nat)
    requires Solved(ts, cap) && Units(ts)[x] == cap
    requires i < |ts| && x in ts[i]
    ensures forall j :: 0 <= j < |ts| && j != i ==> x !in ts[j]
  {
    assert ts[i] == seq(cap, _ => x);
    RepeatUnits(x, cap, x);
    forall j | 0 <= j < |ts| && j != i ensures x !in ts[j] {
      UnitsOfTwo(ts, i, j, x);
      assert multiset(ts[j])[x] == 0;
    }
  }

  /**
   * The scrambling loop of both generators, driven by the random draws `draws` (pairs of stack
   * indices): a draw with distinct indices, a non-empty source and a destination below `cap`
   * moves one unit and counts as a step; any other draw is skipped. Stops after `steps` moves.
   */
  function ApplyDraws(ts: seq<Stack>, cap: nat, steps: nat, draws: seq<(nat, nat)>): seq<Stack>
    requires forall k :: 0 <= k < |draws| ==> draws[k].0 < |ts| && draws[k].1 < |ts|
    decreases |draws|
  {
    if steps == 0 || draws == [] then ts
    else
      var (f, t) := draws[0];
      if f != t && |ts[f]| > 0 && |ts[t]| < cap then ApplyDraws(MoveBlock(ts, f, t, 1), cap, steps - 1, draws[1..])
      else ApplyDraws(ts, cap, steps, draws[1..])
  }

  /** Scrambling keeps the number of stacks, every colour's unit count and the capacity bound. */
  lemma {:induction false} ScrambleConserves(ts: seq<Stack>, cap: nat, steps: nat, draws: seq<(nat, nat)>)
    requires forall k :: 0 <= k < |draws| ==> draws[k].0 < |ts| && draws[k].1 < |ts|
    requires Bounded(ts, cap)
    ensures var r := ApplyDraws(ts, cap, steps, draws);
      |r| == |ts| && Units(r) == Units(ts) && Bounded(r, cap)
    decreases |draws|
  {
    if steps > 0 && draws != [] {
      var (f, t) := draws[0];
      if f != t && |ts[f]| > 0 && |ts[t]| < cap {
        var m := MoveBlock(ts, f, t, 1);
        ScrambleConserves(m, cap, steps - 1, draws[1..]);
      } else {
        ScrambleConserves(ts, cap, steps, draws[1..]);
      }
    }
  }

  /** Builds the solved layout with the source's nested push loops. */
  method BuildSolved(colours: nat, cap: nat, empties: nat) returns (ts: seq<Stack>)
    ensures ts == SolvedState(colours, cap, empties)
  {
    ts := [];
    var c := 0;
    while c < colours
      invariant 0 <= c <= colours && ts == Filled(c, cap)
    {
      var s: Stack := [];
      var i := 0;
      while i < cap
        invariant 0 <= i <= cap && s == seq(i, _ => c)
      {
        s := s + [c];
        i := i + 1;
      }
      ts := ts + [s];
      c := c + 1;
    }
    var e := 0;
    while e < empties
      invariant 0 <= e <= empties && ts == Filled(colours, cap) + Empties(e)
    {
      ts := ts + [[]];
      e := e + 1;
    }
  }

  /** The scrambling loop: consumes draws until `steps` moves have been made or the draws are exhausted. */
  method Scramble(ts: seq<Stack>, cap: nat, steps: nat, draws: seq<(nat, nat)>) returns (r: seq<Stack>)
    requires forall k :: 0 <= k < |draws| ==> draws[k].0 < |ts| && draws[k].1 < |ts|
    ensures r == ApplyDraws(ts, cap, steps, draws)
  {
    r := ts;
    var moves := 0;
    var n := 0;
    while moves < steps && n < |draws|
      invariant 0 <= moves <= steps && 0 <= n <= |draws| && |r| == |ts|
      invariant ApplyDraws(r, cap, steps - moves, draws[n..]) == ApplyDraws(ts, cap, steps, draws)
    {
      assert draws[n..][1..] == draws[n + 1..];
      var (f, t) := draws[n];
      if f != t && |r[f]| > 0 && |r[t]| < cap {
        r := MoveBlock(r, f, t, 1);
        moves := moves + 1;
      }
      n := n + 1;
    }
  }
}
