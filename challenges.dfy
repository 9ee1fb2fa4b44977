/**
 * The challenges screen (ChallengeScreen.js): for each of four games a rolling target one step
 * above the last claimed milestone, a claim that pays the game's reward and moves the milestone,
 * and the lifetime achievements.
 */
module Challenges {
  datatype Game = Dino | Flappy | Water | Temple

  /** Distance between successive targets: 500 points, 20 pipes, 5 levels, 1000 m. */
  function StepOf(g: Game): (step: nat)
    ensures step > 0
  {
    match g
    case Dino => 500
    case Flappy => 20
    case Water => 5
    case Temple => 1000
  }

  /** Coins paid by a claim. */
  function RewardOf(g: Game): (coins: nat)
    ensures 30 <= coins <= 100
  {
    match g
    case Dino => 50
    case Flappy => 100
    case Water => 30
    case Temple => 60
  }

  /** The stat an achievement needs: Dino 2000, Flappy 100, Water 20, Temple 5000. */
  function AchievementThreshold(g: Game): (t: nat)
    ensures t > 0 && t % StepOf(g) == 0
  {
    match g
    case Dino => 2000
    case Flappy => 100
    case Water => 20
    case Temple => 5000
  }

  /** `getNextTarget`: one step past the last claimed milestone, so always above it. */
  function NextTarget(claimed: int, step: nat): (target: int)
    requires step > 0
    ensures target > claimed && target - claimed == step
  {
    claimed + step
  }

  /** The met test of a challenge card (and the condition for its claim button). */
  function IsMet(current: int, target: int): (met: bool)
    ensures met <==> target <= current
  {
    current >= target
  }

  /** An achievement's `completed` flag. */
  function AchievementCompleted(g: Game, stat: int): (done: bool)
    ensures done <==> IsMet(stat, AchievementThreshold(g))
    ensures done ==> stat > 0
  {
    stat >= AchievementThreshold(g)
  }

  /** An achievement's progress bar, `min(stat / threshold, 1)`: full exactly when the
      achievement is completed, and never below zero for a stat that is not. */
  function Percent(g: Game, stat: int): (p: real)
    ensures p <= 1.0
    ensures stat >= 0 ==> 0.0 <= p
    ensures p == 1.0 <==> AchievementCompleted(g, stat)
    ensures p < 1.0 ==> p * AchievementThreshold(g) as real == stat as real
  {
    var t := AchievementThreshold(g) as real;
    var x := stat as real / t;
    assert x * t == stat as real;
    if x < 1.0 then x else 1.0
  }

  /** How many times in a row the claim button appears for a stat of `current` when the last
      milestone was `claimed`: each claim moves the target one step further. */
  function ClaimsAvailable(current: int, claimed: int, step: nat): (n: nat)
    requires step > 0
    ensures n == 0 <==> current < claimed + step
    decreases current - claimed
  {
    if IsMet(current, NextTarget(claimed, step)) then 1 + ClaimsAvailable(current, claimed + step, step) else 0
  }

  /** Repeated claiming pays out exactly once per whole step between the milestone and the
      stat: the count n is the one with n steps fitting and n + 1 not. */
  lemma {:induction false} ClaimsAvailableCount(current: int, claimed: int, step: nat)
    requires step > 0 && claimed <= current
    ensures var n := ClaimsAvailable(current, claimed, step);
      n * step <= current - claimed < (n + 1) * step
    decreases current - claimed
  {
    if current - claimed >= step {
      ClaimsAvailableCount(current, claimed + step, step);
      var m := ClaimsAvailable(current, claimed + step, step);
      assert (m + 1) * step == m * step + step;
      assert (m + 2) * step == (m + 1) * step + step;
    }
  }

  class ChallengeBoard {
    /** The best scores and solved count read from storage. */
    var scores: map<Game, int>
    var coins: int
    /** The last claimed milestone per game. */
    var claimed: map<Game, int>

    /** Every game has a stat and a milestone, and milestones are never negative. */
    ghost predicate Valid()
      reads this
    {
      forall g: Game :: g in scores && g in claimed && claimed[g] >= 0
    }

    /** The initial stats: everything 0. */
    constructor()
      ensures Valid() && coins == 0
      ensures forall g: Game :: g in scores && scores[g] == 0 && g in claimed && claimed[g] == 0
    {
      scores := map[Dino := 0, Flappy := 0, Water := 0, Temple := 0];
      claimed := map[Dino := 0, Flappy := 0, Water := 0, Temple := 0];
      coins := 0;
      new;
      forall g: Game
        ensures g in scores && scores[g] == 0 && g in claimed && claimed[g] == 0
      {
        match g
        case Dino =>
        case Flappy =>
        case Water =>
        case Temple =>
      }
    }

    /** The current target of a game. */
    function Target(g: Game): (target: int)
      requires Valid()
      reads this
      ensures target > claimed[g]
    {
      NextTarget(claimed[g], StepOf(g))
    }

    /**
     * `handleClaim`, reachable from the claim button of a met challenge: the reward is added to
     * the coins and the game's milestone becomes the target; other games, and the stats, are
     * unchanged.
     */
    method HandleClaim(g: Game)
      requires Valid() && IsMet(scores[g], Target(g))
      modifies this
      ensures Valid()
      ensures coins == old(coins) + RewardOf(g)
      ensures claimed == old(claimed)[g := old(Target(g))] && scores == old(scores)
      ensures ClaimsAvailable(scores[g], claimed[g], StepOf(g)) + 1 == old(ClaimsAvailable(scores[g], claimed[g], StepOf(g)))
    {
      var target := Target(g);
      var newCoins := coins + RewardOf(g);
      var newClaimed := claimed[g := target];
      coins := newCoins;
      claimed := newClaimed;
    }
  }
}
