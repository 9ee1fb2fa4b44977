/**
 * Snake (SnakeScreen.js) on a 20-column by 30-row grid: the input buffer that refuses reversal,
 * one tick of the game loop (move, grow on food, wall and self collision), food spawning with at
 * most 100 random candidates, the speed steps every fifth food, and the high score.
 */
module Snake {
  const GridCols: int := 20
  const GridRows: int := 30
  const InitialSpeed: int := 200
  const MinSpeed: int := 80
  const SpeedDecrement: int := 10
  const SpeedThreshold: int := 5
  /** Number of random candidates `spawnFood` draws at most. */
  const SpawnAttempts: int := 100

  datatype Dir = Up | Down | Left | Right

  datatype Pos = Pos(x: int, y: int)

  /** The `DIRECTION` table: the step in x and y. */
  function Delta(d: Dir): (p: Pos)
    ensures (p.x == 0) != (p.y == 0) && -1 <= p.x <= 1 && -1 <= p.y <= 1
  {
    match d
    case Up => Pos(0, -1)
    case Down => Pos(0, 1)
    case Left => Pos(-1, 0)
    case Right => Pos(1, 0)
  }

  function Step(p: Pos, d: Dir): Pos {
    Pos(p.x + Delta(d).x, p.y + Delta(d).y)
  }

  /** The `isOpposite` test of `handleInput`: two directions are opposite exactly when their steps cancel out. */
  function Opposite(a: Dir, b: Dir): (opp: bool)
    ensures opp <==> Delta(a).x + Delta(b).x == 0 && Delta(a).y + Delta(b).y == 0
  {
    (a == Up && b == Down) || (a == Down && b == Up) || (a == Left && b == Right) || (a == Right && b == Left)
  }

  predicate InGrid(p: Pos) {
    0 <= p.x < GridCols && 0 <= p.y < GridRows
  }

  /** No two segments share a cell. */
  predicate Distinct(s: seq<Pos>) {
    forall i, j :: 0 <= i < j < |s| ==> s[i] != s[j]
  }

  function InitialSnake(): (s: seq<Pos>)
    ensures |s| == 3 && Distinct(s) && forall i :: 0 <= i < |s| ==> InGrid(s[i])
  {
    [Pos(5, 10), Pos(4, 10), Pos(3, 10)]
  }

  /** The interval after `score` foods: 200 ms, 10 ms less for every 5 foods, at least 80 ms (the
      formula the source's comment gives for the step-by-step decrement). */
  function SpeedFor(score: nat): (ms: int)
    ensures MinSpeed <= ms <= InitialSpeed
  {
    var v := InitialSpeed - SpeedDecrement * (score / SpeedThreshold);
    if v > MinSpeed then v else MinSpeed
  }

  /** The step-by-step decrement of `handleEatFood` yields `SpeedFor` of the new score. */
  lemma SpeedStep(score: nat)
    ensures var s := score + 1;
      SpeedFor(s) == if s % SpeedThreshold == 0 then
        (if SpeedFor(score) - SpeedDecrement > MinSpeed then SpeedFor(score) - SpeedDecrement else MinSpeed)
      else SpeedFor(score)
  {
    var s := score + 1;
    if s % SpeedThreshold == 0 {
      assert s / SpeedThreshold == score / SpeedThreshold + 1;
    } else {
      assert s / SpeedThreshold == score / SpeedThreshold;
    }
  }

  /** More food never makes the snake slower. */
  lemma {:induction false} SpeedNonIncreasing(a: nat, b: nat)
    requires a <= b
    ensures SpeedFor(b) <= SpeedFor(a)
    decreases b - a
  {
    if a < b {
      SpeedStep(a);
      SpeedNonIncreasing(a + 1, b);
    }
  }

  /**
   * The food `spawnFood` settles on: the candidate `draws[i]` where every earlier candidate lay on
   * the snake, and which is either off the snake or the last one allowed.
   */
  ghost predicate SpawnedFrom(food: Pos, snake: seq<Pos>, draws: seq<Pos>)
    requires |draws| == SpawnAttempts
  {
    exists i :: 0 <= i < SpawnAttempts && food == draws[i]
      && (forall j :: 0 <= j < i ==> draws[j] in snake)
      && (food !in snake || i == SpawnAttempts - 1)
  }

  /** The draws decide the food: two foods spawned from the same candidates are equal. */
  lemma SpawnedUnique(f1: Pos, f2: Pos, snake: seq<Pos>, draws: seq<Pos>)
    requires |draws| == SpawnAttempts
    requires SpawnedFrom(f1, snake, draws) && SpawnedFrom(f2, snake, draws)
    ensures f1 == f2
  {
    var i1 :| 0 <= i1 < SpawnAttempts && f1 == draws[i1]
      && (forall j :: 0 <= j < i1 ==> draws[j] in snake) && (f1 !in snake || i1 == SpawnAttempts - 1);
    var i2 :| 0 <= i2 < SpawnAttempts && f2 == draws[i2]
      && (forall j :: 0 <= j < i2 ==> draws[j] in snake) && (f2 !in snake || i2 == SpawnAttempts - 1);
    if i1 < i2 {
      assert false;
    } else if i2 < i1 {
      assert false;
    }
  }

  /**
   * `spawnFood`: candidates are taken from `draws` in order, stopping at the first one not on
   * the snake or after 100 attempts; the last candidate is kept even when it overlaps.
   */
  method SpawnFood(snake: seq<Pos>, draws: seq<Pos>) returns (food: Pos)
    requires |draws| == SpawnAttempts
    ensures SpawnedFrom(food, snake, draws)
    ensures (exists j :: 0 <= j < SpawnAttempts && draws[j] !in snake) ==> food !in snake
  {
    food := draws[0];
    var isValid := false;
    var attempts := 0;
    while !isValid && attempts < SpawnAttempts
      invariant 0 <= attempts <= SpawnAttempts
      invariant attempts > 0 ==> food == draws[attempts - 1]
      invariant forall j :: 0 <= j < attempts - 1 ==> draws[j] in snake
      invariant isValid <==> attempts > 0 && food !in snake
    {
      attempts := attempts + 1;
      food := draws[attempts - 1];
      var overlap := food in snake;
      if !overlap {
        isValid := true;
      }
    }
    assert food == draws[attempts - 1];
    assert 0 <= attempts - 1 < SpawnAttempts && (forall j :: 0 <= j < attempts - 1 ==> draws[j] in snake);
  }

  /** The high score after a game ending with `score`, as `saveHighScore` is reached from the
      game loop: the callback still sees the first render's high score of 0, so any positive
      score replaces it. */
  function HighScoreAsWritten(high: nat, score: nat): (h: nat)
    ensures h == high || h == score
    ensures h < high <==> 0 < score < high
  {
    if score > 0 then score else high
  }

  /** A worse game lowers the high score as written. */
  lemma HighScoreCanDrop()
    ensures HighScoreAsWritten(10, 3) < 10
  {
  }

  /** The intended update: the larger of the two. */
  function HighScoreAfter(high: nat, score: nat): (h: nat)
    ensures h >= high && h >= score && (h == high || h == score)
  {
    if score > high then score else high
  }

  class SnakeGame {
    var snake: seq<Pos>
    var food: Pos
    var score: nat
    var highScore: nat
    var isPlaying: bool
    var isGameOver: bool
    var isPaused: bool
    var speed: int
    var direction: Dir
    var nextDirection: Dir

    /**
     * The snake has one more segment than the initial three per food and lies on the grid without
     * overlapping itself; the buffered direction never reverses `direction`; the speed is
     * `SpeedFor(score)`.
     */
    ghost predicate Shape()
      reads this
    {
      && |snake| == score + 3 && Distinct(snake) && (forall i :: 0 <= i < |snake| ==> InGrid(snake[i]))
      && !Opposite(nextDirection, direction)
      && speed == SpeedFor(score)
    }

    /** `Shape`, and until the game is over the head is one step of `direction` from the neck. */
    ghost predicate Valid()
      reads this
    {
      Shape() && (isGameOver || snake[0] == Step(snake[1], direction))
    }

    /** The state at mount: the initial snake moving right, food at (10, 10), not playing. */
    constructor()
      ensures Valid() && snake == InitialSnake() && food == Pos(10, 10)
      ensures score == 0 && highScore == 0 && !isPlaying && !isGameOver && !isPaused
      ensures speed == InitialSpeed && direction == Right && nextDirection == Right
    {
      snake := InitialSnake();
      food := Pos(10, 10);
      score := 0;
      highScore := 0;
      isPlaying := false;
      isGameOver := false;
      isPaused := false;
      speed := InitialSpeed;
      direction := Right;
      nextDirection := Right;
    }

    /** `startGame`: the initial snake moving right, score 0, speed 200, playing, fresh food. */
    method StartGame(draws: seq<Pos>)
      requires |draws| == SpawnAttempts
      modifies this
      ensures Valid() && snake == InitialSnake() && score == 0 && speed == InitialSpeed
      ensures direction == Right && nextDirection == Right
      ensures isPlaying && !isGameOver && !isPaused && highScore == old(highScore)
      ensures SpawnedFrom(food, InitialSnake(), draws)
    {
      snake := InitialSnake();
      direction := Right;
      nextDirection := Right;
      score := 0;
      speed := InitialSpeed;
      isGameOver := false;
      isPaused := false;
      isPlaying := true;
      food := SpawnFood(snake, draws);
    }

    /** `togglePause`: only a running game can be paused or resumed. */
    method TogglePause()
      requires Valid()
      modifies this
      ensures Valid()
      ensures isPaused == if old(isGameOver) || !old(isPlaying) then old(isPaused) else !old(isPaused)
      ensures snake == old(snake) && score == old(score) && isPlaying == old(isPlaying) && isGameOver == old(isGameOver)
      ensures direction == old(direction) && nextDirection == old(nextDirection) && speed == old(speed)
      ensures food == old(food) && highScore == old(highScore)
    {
      if isGameOver || !isPlaying {
        return;
      }
      isPaused := !isPaused;
    }

    /** `handleInput`: buffer `d` unless it reverses the current direction. */
    method HandleInput(d: Dir)
      requires Valid()
      modifies this
      ensures Valid()
      ensures nextDirection == if Opposite(d, direction) then old(nextDirection) else d
      ensures snake == old(snake) && direction == old(direction) && score == old(score)
      ensures isPlaying == old(isPlaying) && isGameOver == old(isGameOver) && speed == old(speed)
      ensures food == old(food) && highScore == old(highScore) && isPaused == old(isPaused)
    {
      var isOpposite := Opposite(d, direction);
      if !isOpposite {
        nextDirection := d;
      }
    }

    /** `handleGameOver`: stop playing and keep the better of the two scores. */
    method HandleGameOver()
      requires Shape()
      modifies this
      ensures Valid() && !isPlaying && isGameOver
      ensures highScore == HighScoreAfter(old(highScore), score)
      ensures snake == old(snake) && score == old(score) && food == old(food) && isPaused == old(isPaused)
      ensures direction == old(direction) && nextDirection == old(nextDirection) && speed == old(speed)
    {
      isPlaying := false;
      isGameOver := true;
      highScore := HighScoreAfter(highScore, score);
    }

    /**
     * `gameTick`: the buffered direction becomes current and the head advances one step. Leaving
     * the grid or entering any segment (the tail included) ends the game with the snake as it
     * was. Otherwise the new head is prepended; on the food the snake keeps its tail, the score
     * grows by one, new food is spawned from `draws` and every fifth food speeds the game up;
     * elsewhere the tail is dropped.
     */
    method GameTick(draws: seq<Pos>)
      requires Valid() && |draws| == SpawnAttempts
      modifies this
      ensures Valid() && direction == old(nextDirection) && nextDirection == old(nextDirection)
      ensures isPaused == old(isPaused)
      ensures var head := Step(old(snake)[0], old(nextDirection));
        && (!InGrid(head) || head in old(snake) ==>
              && snake == old(snake) && score == old(score) && food == old(food) && speed == old(speed)
              && isGameOver && !isPlaying && highScore == HighScoreAfter(old(highScore), old(score)))
        && (InGrid(head) && head !in old(snake) && head == old(food) ==>
              && snake == [head] + old(snake) && score == old(score) + 1 && SpawnedFrom(food, snake, draws)
              && isGameOver == old(isGameOver) && isPlaying == old(isPlaying) && highScore == old(highScore))
        && (InGrid(head) && head !in old(snake) && head != old(food) ==>
              && snake == [head] + old(snake)[..|old(snake)| - 1] && score == old(score) && food == old(food)
              && speed == old(speed)
              && isGameOver == old(isGameOver) && isPlaying == old(isPlaying) && highScore == old(highScore))
    {
      direction := nextDirection;
      var currentHead := snake[0];
      var newHead := Step(currentHead, direction);
      if !InGrid(newHead) {
        HandleGameOver();
        return;
      }
      if newHead in snake {
        HandleGameOver();
        return;
      }
      var newSnake := [newHead] + snake;
      if newHead == food {
        HandleEatFood(newSnake, draws);
      } else {
        snake := newSnake[..|newSnake| - 1];
      }
    }

    /** `handleEatFood`: one more point, the grown snake, new food, and on every fifth food the
        interval 10 ms shorter but not below 80. */
    method HandleEatFood(expanded: seq<Pos>, draws: seq<Pos>)
      requires |draws| == SpawnAttempts && |expanded| == score + 4 && Distinct(expanded)
      requires forall i :: 0 <= i < |expanded| ==> InGrid(expanded[i])
      requires expanded[0] == Step(expanded[1], direction) && !Opposite(nextDirection, direction)
      requires speed == SpeedFor(score)
      modifies this
      ensures Valid() && snake == expanded && score == old(score) + 1
      ensures direction == old(direction) && nextDirection == old(nextDirection)
      ensures isPlaying == old(isPlaying) && isGameOver == old(isGameOver)
      ensures highScore == old(highScore) && isPaused == old(isPaused)
      ensures SpawnedFrom(food, expanded, draws)
    {
      SpeedStep(score);
      var newScore := score + 1;
      score := newScore;
      snake := expanded;
      food := SpawnFood(expanded, draws);
      if newScore % SpeedThreshold == 0 {
        var currentS := speed;
        var newSpeed := if currentS - SpeedDecrement > MinSpeed then currentS - SpeedDecrement else MinSpeed;
        speed := newSpeed;
      }
    }
  }

  /** While the game goes on, the buffered direction never turns the head back onto the neck. */
  lemma NoReversal(g: SnakeGame)
    requires g.Valid() && !g.isGameOver
    ensures Step(g.snake[0], g.nextDirection) != g.snake[1]
  {
    assert !Opposite(g.nextDirection, g.direction);
  }
}
