/** The game session: the current level, its maze, the player's cell, the score, the countdown
    and the game-over flag, and the transitions that the keyboard, the one-second timer and the
    level logic apply to them.

    The score is kept in tenths of a point: a step costs 1 (0.1 point) and reaching the goal
    earns 100 (10 points).  Each transition that builds a maze takes the random draws for it as
    `attempts` (see `MazeGenerator.GenerateMaze`).
 */
module GameSession {
  import opened Grid
  import opened MazeGenerator

  datatype LevelConfig = LevelConfig(size: nat, obstacles: nat)

  /** The three levels: a 7 by 7 maze with 8 draws, 9 by 9 with 15, 11 by 11 with 25. */
  const Levels: seq<LevelConfig> := [LevelConfig(7, 8), LevelConfig(9, 15), LevelConfig(11, 25)]

  /** Reaching the goal: +10 points. */
  const RewardWin: int := 100

  /** Any other accepted move: -0.1 point. */
  const RewardStep: int := -1

  /** Seconds on the clock at the start of every level. */
  const TimeBudget: int := 60

  /** The level played after `level` is won: the next one, or the first again after the last. */
  function Following(level: nat): (next: nat)
    requires level < |Levels|
    ensures next < |Levels|
    ensures next == 0 <==> level + 1 == |Levels|
    ensures next != 0 ==> next == level + 1
  {
    if level + 1 < |Levels| then level + 1 else 0
  }

  /** The arrow keys. */
  datatype Arrow = Up | Down | Left | Right

  /** The move an arrow key asks for, as (row change, column change). */
  function Delta(key: Arrow): (d: (int, int))
    ensures forall p :: Adjacent(p, Step(p, d))
    ensures d.0 < 0 <==> key == Up
    ensures d.0 > 0 <==> key == Down
    ensures d.1 < 0 <==> key == Left
    ensures d.1 > 0 <==> key == Right
  {
    match key
    case Up => (-1, 0)
    case Down => (1, 0)
    case Left => (0, -1)
    case Right => (0, 1)
  }

  /** Random draws for building a maze of `config`: well formed, and one of them solvable, so
      that generation returns. */
  ghost predicate Supplies(config: LevelConfig, attempts: seq<seq<Pos>>) {
    WellFormedAttempts(config.size, config.obstacles, attempts) && EventuallySolvable(config.size, attempts)
  }

  /** A maze fit to play on a `size` by `size` level: of that size, holding only 0 and 1, with the
      start and the goal open, and solvable. */
  ghost predicate Playable(m: array2<int>, size: nat)
    reads m
  {
    size > 0 && m.Length0 == size && m.Length1 == size &&
    (forall i, j :: 0 <= i < size && 0 <= j < size ==> m[i, j] == 0 || m[i, j] == 1) &&
    m[0, 0] == 0 && m[size - 1, size - 1] == 0 &&
    Solvable(size, BlockedOf(m))
  }

  /** The maze of a level, generated from its configuration and the draws supplied for it. */
  method BuildLevel(config: LevelConfig, attempts: seq<seq<Pos>>) returns (m: array2<int>)
    requires config.size > 0 && Supplies(config, attempts)
    ensures Playable(m, config.size) && FirstSolvable(config.size, attempts, BlockedOf(m))
  {
    var ok;
    m, ok := GenerateMaze(config.size, config.obstacles, attempts);
  }

  class Session {
    var level: nat
    var maze: array2<int>
    var player: Pos
    /** In tenths of a point; never clamped, so it may go negative. */
    var score: int
    var timeLeft: int
    var gameOver: bool
    /** Accepted moves that did not reach the goal since the last reset. */
    ghost var steps: nat

    function Size(): nat
      reads this
      requires level < |Levels|
    {
      Levels[level].size
    }

    /** The level index is in range, and the maze has the level's size, holds only 0 and 1, has
        the start and goal open and can be won. */
    ghost predicate MazeOk()
      reads this, maze
    {
      level < |Levels| && Playable(maze, Size())
    }

    /** The countdown is within the level's budget, and the game is over exactly when it is 0. */
    ghost predicate ClockOk()
      reads this
    {
      0 <= timeLeft <= TimeBudget && (gameOver <==> timeLeft == 0)
    }

    /** The move check: `p` is inside the current level's grid and not a wall. */
    predicate Enterable(p: Pos)
      reads this, maze
      requires level < |Levels| && maze.Length0 == Size() && maze.Length1 == Size()
    {
      0 <= p.x < Size() && 0 <= p.y < Size() && maze[p.x, p.y] != 1
    }

    /** The move check accepts exactly the open cells of the maze, the cells a path may use. */
    lemma EnterableIsOpen(p: Pos)
      requires level < |Levels| && maze.Length0 == Size() && maze.Length1 == Size()
      ensures Enterable(p) <==> Open(Size(), BlockedOf(maze), p)
    {
      if InBounds(Size(), p) {
        BlockedOfCell(maze, p.x, p.y);
      }
    }

    /** The player stands on an open cell of the grid, and never on the goal, since reaching
        the goal starts another level at once. */
    ghost predicate Valid()
      reads this, maze
    {
      MazeOk() && ClockOk() && Enterable(player) && player != Goal(Size())
    }

    /** The score is exact: +10 for each level won since the last reset (the level index counts
        them) and -0.1 for each other accepted move. */
    ghost predicate Accounted()
      reads this
    {
      score == RewardWin * level + RewardStep * steps
    }

    /** The state of a new game, apart from its maze. */
    ghost predicate Initial()
      reads this
    {
      level == 0 && player == Start && score == 0 && timeLeft == TimeBudget && !gameOver && steps == 0
    }

    /** The state the session starts in: level 0 with a fresh maze, at the start cell, score 0,
        a full clock. */
    constructor (attempts: seq<seq<Pos>>)
      requires Supplies(Levels[0], attempts)
      ensures Valid() && Accounted() && Initial()
      ensures FirstSolvable(Size(), attempts, BlockedOf(maze))
    {
      var m := BuildLevel(Levels[0], attempts);
      level := 0;
      maze := m;
      player := Start;
      score := 0;
      timeLeft := TimeBudget;
      gameOver := false;
      steps := 0;
    }

    /** What starting a level sets: its index, a fresh maze of its configuration, the player at
        the start and a full clock. */
    method StartLevel(index: nat, attempts: seq<seq<Pos>>)
      requires index < |Levels| && Supplies(Levels[index], attempts)
      modifies this
      ensures level == index && player == Start && timeLeft == TimeBudget
      ensures MazeOk() && Enterable(player) && player != Goal(Size())
      ensures FirstSolvable(Size(), attempts, BlockedOf(maze))
      ensures score == old(score) && gameOver == old(gameOver) && steps == old(steps)
    {
      var config := Levels[index];
      assert config.size > 1;
      var m := BuildLevel(config, attempts);
      ghost var walls := BlockedOf(m);
      level, maze, player, timeLeft := index, m, Start, TimeBudget;
      assert BlockedOf(maze) == walls;
    }

    /** Starts over: level 0 with a fresh maze, at the start cell, score 0, a full clock. */
    method Reset(attempts: seq<seq<Pos>>)
      requires Supplies(Levels[0], attempts)
      modifies this
      ensures Valid() && Accounted() && Initial()
      ensures FirstSolvable(Size(), attempts, BlockedOf(maze))
    {
      StartLevel(0, attempts);
      score := 0;
      gameOver := false;
      steps := 0;
    }

    /** One second of the countdown, followed by the check the timer effect makes on the new
        value: while the game runs the clock drops by one, and the game is over once it is 0. */
    method Tick()
      requires Valid()
      modifies this
      ensures Valid()
      ensures old(gameOver) ==> unchanged(this)
      ensures !old(gameOver) ==>
        timeLeft == old(timeLeft) - 1 && (gameOver <==> timeLeft == 0) &&
        level == old(level) && maze == old(maze) && player == old(player) &&
        score == old(score) && steps == old(steps)
    {
      if timeLeft > 0 && !gameOver {
        timeLeft := timeLeft - 1;
        if timeLeft == 0 {
          gameOver := true;
        }
      }
    }

    /** Moves on from a won level: to the next level with a fresh maze, the player at the start and
        a full clock, keeping the score; after the last level, the game starts over as `Reset`
        does and `completedAll` reports it. */
    method NextLevel(attempts: seq<seq<Pos>>) returns (completedAll: bool)
      requires MazeOk() && ClockOk() && !gameOver
      requires Supplies(Levels[Following(level)], attempts)
      modifies this
      ensures Valid()
      ensures completedAll <==> old(level) + 1 == |Levels|
      ensures level == Following(old(level))
      ensures FirstSolvable(Size(), attempts, BlockedOf(maze))
      ensures !completedAll ==>
        player == Start && timeLeft == TimeBudget && !gameOver &&
        score == old(score) && steps == old(steps)
      ensures completedAll ==> Accounted() && Initial()
    {
      if level + 1 < |Levels| {
        StartLevel(level + 1, attempts);
        completedAll := false;
      } else {
        completedAll := true;
        Reset(attempts);
      }
    }

    /** A move by (dx, dy).  Ignored once the game is over, and rejected, changing nothing, when
        the target is off the grid or a wall.  Otherwise the player moves there and pays 0.1
        point, unless the target is the goal: then the move earns 10 points and the next level
        begins (the game starts over after the last). */
    method Move(dx: int, dy: int, attempts: seq<seq<Pos>>)
      requires Valid() && Accounted()
      requires Supplies(Levels[Following(level)], attempts)
      modifies this
      ensures Valid() && Accounted()
      ensures var target := Pos(old(player).x + dx, old(player).y + dy);
        if old(gameOver) || !old(Enterable(target)) then
          unchanged(this)
        else if target != old(Goal(Size())) then
          player == target && score == old(score) + RewardStep && steps == old(steps) + 1 &&
          level == old(level) && maze == old(maze) && timeLeft == old(timeLeft) && !gameOver
        else if old(level) + 1 < |Levels| then
          level == old(level) + 1 && player == Start && score == old(score) + RewardWin &&
          steps == old(steps) && timeLeft == TimeBudget && !gameOver &&
          FirstSolvable(Size(), attempts, BlockedOf(maze))
        else
          Initial() && FirstSolvable(Size(), attempts, BlockedOf(maze))
    {
      if gameOver {
        return;
      }
      var target := Pos(player.x + dx, player.y + dy);
      if Enterable(target) {
        player := target;
        var won := target.x == Size() - 1 && target.y == Size() - 1;
        score := score + (if won then RewardWin else RewardStep);
        if won {
          var completedAll := NextLevel(attempts);
        } else {
          steps := steps + 1;
        }
      }
    }

    /** An arrow key pressed: ignored once the game is over, otherwise the move `Delta(key)`. */
    method Press(key: Arrow, attempts: seq<seq<Pos>>)
      requires Valid() && Accounted()
      requires Supplies(Levels[Following(level)], attempts)
      modifies this
      ensures Valid() && Accounted()
      ensures var target := Pos(old(player).x + Delta(key).0, old(player).y + Delta(key).1);
        if old(gameOver) || !old(Enterable(target)) then
          unchanged(this)
        else if target != old(Goal(Size())) then
          player == target && score == old(score) + RewardStep && steps == old(steps) + 1 &&
          level == old(level) && maze == old(maze) && timeLeft == old(timeLeft) && !gameOver
        else if old(level) + 1 < |Levels| then
          level == old(level) + 1 && player == Start && score == old(score) + RewardWin &&
          steps == old(steps) && timeLeft == TimeBudget && !gameOver &&
          FirstSolvable(Size(), attempts, BlockedOf(maze))
        else
          Initial() && FirstSolvable(Size(), attempts, BlockedOf(maze))
    {
      if gameOver {
        return;
      }
      Move(Delta(key).0, Delta(key).1, attempts);
    }
  }
}
