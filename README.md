# Maze game core in Dafny

This project models the core of a browser maze game, `src/MazeGame.js`. The core has two parts.

- **Maze generation.** `generateMaze` builds a `size`×`size` grid of 0 (open) and 1 (blocked). For
  each of `obstacleCount` random draws it blocks the drawn cell, unless that cell is the start
  (0,0) or the goal (size-1,size-1). It retries until `isValidPath` succeeds. `isValidPath` is a
  breadth-first search from (0,0) over the four neighbours of each cell. It returns true when it
  dequeues the goal.
- **The game session.** This is the state React keeps in `useState` slots: level, maze, player,
  score, time left and game over. It is changed by `movePlayer`, `nextLevel`, `resetGame` and the
  countdown effect.

The Dafny modules follow that split:

- `Grid` (`grid.dfy`) defines cells and neighbours. It also gives the specification of the search:
  a *path* starts at (0,0), and each later cell is inside the grid, not 1, and shares a side with
  the cell before it.
- `MazeGenerator` (`maze_generator.dfy`) holds the search and the generator as imperative methods
  over `array2<int>`.
- `GameSession` (`game_session.dfy`) holds the level table and the scoring constants. It also
  holds the class `Session`, whose fields are the source's state slots and whose methods are the
  transitions.

Modelling decisions:

- **Randomness is a parameter.** `attempts[k]` lists the cells drawn in the k-th generation
  attempt. Each cell is inside the grid, as `Math.floor(Math.random() * size)` guarantees.
- **The retry loop is bounded by the supplied attempts.** The generator returns the first attempt
  the search solves. Session operations that build a maze require that such an attempt exists. The
  source's loop never returns without one.
- **The score is in tenths of a point.** A step is -1 and a win is +100. A ghost counter of
  accepted non-winning moves lets the class invariant state the score exactly:
  `score == 100 * level - steps`. This works because each level won since the last reset advances
  the level index by one, and winning the last level resets.
- **Winning the last level leaves the score at 0.** In the source, `movePlayer` adds the win
  bonus and then `nextLevel` calls `resetGame`, which sets the score to 0. React keeps the last
  value set, so the model does the same.
- **The search's contract follows the code exactly:**
  - The start cell is never tested for being blocked.
  - The start cell is not marked visited, so it can be queued a second time.
  - Any cell value other than 1 counts as open.
  - A goal that is blocked and is not also the start never reaches the queue.

  The path predicate therefore requires every cell after the first to be open, but not the
  first. `Grid.ReachableWithOpenStart` shows that with an open start this is the usual notion.
- **The constants are the source's.**
  - `Grid.Start` is (0,0), as `START_POS` (src/MazeGame.js:4).
  - `Grid.Directions` is the search's move order: down, up, right, left (src/MazeGame.js:16).
    `Grid.AdjacentIsDirection` proves these four are exactly the neighbouring cells.
  - `GameSession.Levels` holds the three levels: size 7 with 8 draws, 9 with 15, and 11 with 25
    (src/MazeGame.js:8-12).
  - `GameSession.RewardWin` is 100 and `GameSession.RewardStep` is -1. These are `REWARD_WIN = 10`
    and `REWARD_STEP = -0.1` scaled to tenths (src/MazeGame.js:5-6).
  - `GameSession.TimeBudget` is the 60 seconds every level starts with (src/MazeGame.js:56, 74
    and 84).
- **Completion is returned as a flag.** `nextLevel` signals completion with an `alert`. The model
  returns a `completedAll` flag instead.

## Model

| member | source | states |
|---|---|---|
| Grid.AdjacentIsDirection | src/MazeGame.js:16 | the four direction offsets the search tries are exactly the cells sharing a side with the current one |
| Grid.ExtendPath | src/MazeGame.js:24-29 | appending an in-bounds, non-1 neighbour of a path's last cell gives a path, so every cell the search queues is reachable |
| Grid.PathStaysInClosedSet | src/MazeGame.js:20-31 | a set holding the start and closed under stepping to open neighbours holds the end of every path (induction on the path) |
| Grid.ClosedSetExcludesTarget | src/MazeGame.js:20-32 | a cell missing from such a closed set is unreachable: the basis of the search's `return false` |
| Grid.ReachableWithOpenStart | src/MazeGame.js:15-33 | when (0,0) is open, reachability is exactly a chain of open neighbouring cells from (0,0) to the target |
| MazeGenerator.Blocked | src/MazeGame.js:40-46 | the cells one attempt blocks are exactly the drawn cells other than (0,0) and (size-1,size-1) |
| MazeGenerator.BlockedCount | src/MazeGame.js:40-45 | an attempt blocks at most as many cells as it draws |
| MazeGenerator.PlacementKeepsEndsOpen | src/MazeGame.js:43-44 | whatever is drawn, the start and goal are never blocked, and only drawn cells are |
| MazeGenerator.ExpandedStep | src/MazeGame.js:26-28 | marking one more unvisited, open, reachable neighbour and appending it keeps the inner loop's bookkeeping: the appended cells stay distinct, none was marked before, and they are exactly the cells moved from unvisited to visited |
| MazeGenerator.VisitDirection | src/MazeGame.js:25-29 | one pass of the inner loop: the neighbour in the given direction is marked and queued only if it is in bounds, unvisited and not 1. Afterwards every open neighbour in the directions tried so far is marked, and the bookkeeping above still holds |
| MazeGenerator.VisitNeighbours | src/MazeGame.js:24-30 | the inner loop queues exactly the neighbours it marks: the added cells are the cells that move from unvisited to visited, with no duplicates and none visited before. Each added cell is a neighbour of the current cell, open and reachable. The visited count grows by exactly the number added, every open neighbour ends up visited, and the unvisited set shrinks unless nothing is added |
| MazeGenerator.PushLogStep | src/MazeGame.js:21-28 | one dequeue, followed by pushing the newly marked distinct cells, keeps the push log. The log holds the start once plus each visited cell once, so its length is the visited count plus one. The queue is the part of the log not yet dequeued |
| MazeGenerator.FrontierStep | src/MazeGame.js:20-31 | expanding a queue head that is not the goal keeps the search invariant. Queued cells stay reachable, and those other than the start stay open. Every visited cell is expanded or still queued, every open neighbour of an expanded cell is visited, the goal is never expanded, and the push log holds |
| MazeGenerator.IsValidPath | src/MazeGame.js:15-33 | returns true exactly when a path from (0,0) reaches (size-1,size-1), in both directions. Loop invariants: each queued cell other than the start is in bounds and open. The push log shows that every cell other than the start is queued at most once, and only right after it is marked, so at most one more push happens than there are visited cells. The loop ends because the unvisited set or the queue shrinks |
| MazeGenerator.BuildAttempt | src/MazeGame.js:39-46 | one attempt yields a size×size grid holding 1 exactly on the `Blocked` cells and 0 elsewhere |
| MazeGenerator.GenerateMaze | src/MazeGame.js:36-49 | the result is size×size and holds only 0 and 1, with start and goal open and at most `obstacleCount` blocked cells. It succeeds exactly when some attempt is solvable, and then it returns the first such attempt, which the search solves |
| GameSession.Following | src/MazeGame.js:79-88 | the level after a win stays in [0, 3): the next index, or 0 exactly after the last level |
| GameSession.Delta | src/MazeGame.js:121-133 | each arrow key moves to a neighbouring cell: Up decreases the row, Down increases it, Left decreases the column, Right increases it |
| GameSession.BuildLevel | src/MazeGame.js:53 | a level's maze is generated at the level's size. It holds only 0 and 1, has the start and goal open, can be won, and is the first solvable attempt |
| GameSession.Session.constructor | src/MazeGame.js:52-57 | the initial state: level 0, a generated solvable maze, player at (0,0), score 0, 60 seconds, not over. All class invariants hold |
| GameSession.Session.EnterableIsOpen | src/MazeGame.js:97-103 | the move check accepts a cell exactly when it is inside the current level's grid and not a wall: the open cells that paths and the search use |
| GameSession.Session.StartLevel | src/MazeGame.js:79-84 | starting a level sets its index, a fresh maze of its size built from the first solvable attempt, the player at (0,0) and 60 seconds, and leaves the score alone |
| GameSession.Session.Reset | src/MazeGame.js:69-77 | level 0, a fresh solvable maze, player at (0,0), score 0, 60 seconds, game not over. The invariants and the score accounting hold |
| GameSession.Session.Tick | src/MazeGame.js:60-67 | a no-op once the game is over. Otherwise the time drops by exactly one and the game is over exactly when it reaches 0. Nothing else changes |
| GameSession.Session.NextLevel | src/MazeGame.js:79-89 | below the last level: level+1, a new maze of that level's size, player at (0,0), 60 seconds, score unchanged. At the last level: reports completion and the state equals a fresh reset. The level index stays in [0, 3) |
| GameSession.Session.Move | src/MazeGame.js:91-115 | a no-op when the game is over or the target is off the grid or blocked. An accepted non-goal move puts the player there and changes the score by exactly -0.1. A move onto the goal changes it by exactly +10 and starts the next level, or resets after the last. It keeps the player in bounds, on an open cell and off the goal, and keeps the score accounting exact |
| GameSession.Session.Press | src/MazeGame.js:117-136 | an arrow key press is ignored once the game is over. Otherwise it has exactly the effect of `Move` by that key's offset: a rejected move leaves the state unchanged, and an accepted one steps, wins and advances, or wins and resets |

## Left out

- GenerateMaze: the source's `do … while` retries forever. The model stops when the supplied attempts run out and reports this with `ok == false`. The session operations require that the supplied attempts contain a solvable one.
- The random distribution of `Math.random` is not modelled. The draws are a parameter, and only their range is assumed.
- JSX rendering, the `motion.div` animation and the CSS classes are left out, because they are presentation only.
- The `showInstructions` overlay flag is left out, including `resetGame` setting it back to true, because it only affects what is displayed.
- The `alert` messages (level won, all levels completed) are left out. The model reports completion through `NextLevel`'s return value instead. The level-won alert prints the score from before the move; that is display only and not modelled.
- The `window` keydown listener and its add/remove lifecycle are left out, because they are event plumbing. Only the handler itself is kept, as `Press` with the key-to-move mapping `Delta`. `Press` takes one of the four arrows, so keys other than these, which the handler ignores, are not modelled.
- `setTimeout`/`clearTimeout` scheduling is left out, because these are host timers. One expiry of the pending timer, together with the effect's re-run on the new value, is the explicit method `Tick`. Cancelling a pending timer when the state changes is not modelled.
- The floating-point score and `toFixed` are left out. The score is an exact integer in tenths, so floating-point rounding is not modelled.
- React evaluates `generateMaze(...)` as the `useState` initial value on every render and discards the result after the first render. This is left out: the model generates one maze when the session is constructed.
- Mazes whose row count or row length differs from `size` are not modelled. The search requires an array of exactly `size`×`size`, which is what every caller passes.
- `src/components/Button.js` is not part of this model. It is a styling wrapper without logic.
