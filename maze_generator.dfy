/** Random maze generation with a solvability check.

    A maze is a `size` by `size` array of cells, 0 for open and 1 for blocked.  The generator
    draws `obstacleCount` random cells per attempt, blocks each one that is neither the start nor
    the goal, and keeps the first attempt whose goal the breadth-first search reaches.  The random
    draws are a parameter: `attempts[k]` lists the cells drawn in the k-th attempt.
 */
module MazeGenerator {
  import opened Grid

  /** The cells that placing `draws` in order blocks: every drawn cell except the start and goal. */
  function Blocked(size: int, draws: seq<Pos>): (walls: set<Pos>)
    ensures forall p :: p in walls <==> p in draws && p != Start && p != Goal(size)
  {
    if draws == [] then {}
    else
      var p := draws[|draws| - 1];
      assert draws == draws[..|draws| - 1] + [p];
      Blocked(size, draws[..|draws| - 1]) + (if p != Start && p != Goal(size) then {p} else {})
  }

  /** Placement blocks at most one cell per draw. */
  lemma {:induction false} BlockedCount(size: int, draws: seq<Pos>)
    ensures |Blocked(size, draws)| <= |draws|
  {
    if draws != [] {
      BlockedCount(size, draws[..|draws| - 1]);
    }
  }

  /** Whatever is drawn, the start and goal cells stay open, and only drawn cells are blocked. */
  lemma PlacementKeepsEndsOpen(size: int, draws: seq<Pos>)
    ensures Start !in Blocked(size, draws) && Goal(size) !in Blocked(size, draws)
    ensures forall p :: p in Blocked(size, draws) ==> p in draws
  {
  }

  /** One attempt's draws: `count` cells, each inside the grid (what `Math.floor(Math.random() * size)`
      yields for both coordinates). */
  ghost predicate WellFormedDraws(size: int, count: nat, draws: seq<Pos>) {
    |draws| == count && forall i :: 0 <= i < |draws| ==> InBounds(size, draws[i])
  }

  ghost predicate WellFormedAttempts(size: int, count: nat, attempts: seq<seq<Pos>>) {
    forall k :: 0 <= k < |attempts| ==> WellFormedDraws(size, count, attempts[k])
  }

  /** Some attempt yields a solvable maze, so the retry loop stops. */
  ghost predicate EventuallySolvable(size: int, attempts: seq<seq<Pos>>) {
    exists k :: 0 <= k < |attempts| && Solvable(size, Blocked(size, attempts[k]))
  }

  /** `walls` are those of the first attempt that yields a solvable maze. */
  ghost predicate FirstSolvable(size: int, attempts: seq<seq<Pos>>, walls: set<Pos>) {
    exists k :: 0 <= k < |attempts| && walls == Blocked(size, attempts[k]) && Solvable(size, walls) &&
      forall j :: 0 <= j < k ==> !Solvable(size, Blocked(size, attempts[j]))
  }

  /** `visited` and the ghost sets agree: a cell is visited when it is in `marked`, and not
      visited when it is in `unmarked`. */
  ghost predicate Mirrors(visited: array2<bool>, size: int, marked: set<Pos>, unmarked: set<Pos>)
    reads visited
  {
    visited.Length0 == size && visited.Length1 == size &&
    forall i, j :: 0 <= i < size && 0 <= j < size ==>
      (visited[i, j] <==> Pos(i, j) in marked) && (!visited[i, j] <==> Pos(i, j) in unmarked)
  }

  /** Marks one cell of the grid visited, moving it from `unmarked` to `marked`. */
  method MarkVisited(visited: array2<bool>, size: int, ghost marked: set<Pos>, ghost unmarked: set<Pos>, p: Pos)
    requires Mirrors(visited, size, marked, unmarked) && InBounds(size, p)
    modifies visited
    ensures Mirrors(visited, size, marked + {p}, unmarked - {p})
  {
    visited[p.x, p.y] := true;
  }

  /** What the inner loop of the search has done so far, apart from the `visited` matrix: the
      cells `added` are distinct open neighbours of `cur`, each reachable; they are exactly the
      cells that moved from `unmarked` to `marked`, and none of them was marked before. */
  ghost predicate Expanded(size: nat, walls: set<Pos>, cur: Pos, marked: set<Pos>, unmarked: set<Pos>,
                           added: seq<Pos>, marked': set<Pos>, unmarked': set<Pos>) {
    (forall p :: p in marked' <==> p in marked || p in added) &&
    (forall p :: p in added <==> p in unmarked && p !in unmarked') &&
    (forall k :: 0 <= k < |added| ==>
      Adjacent(cur, added[k]) && Open(size, walls, added[k]) && Reachable(size, walls, added[k])) &&
    (forall i, j :: 0 <= i < j < |added| ==> added[i] != added[j]) &&
    (forall k :: 0 <= k < |added| ==> added[k] !in marked) &&
    |marked'| == |marked| + |added| &&
    unmarked' <= unmarked && (unmarked' == unmarked ==> added == [])
  }

  /** Marking one more unmarked, open, reachable neighbour and appending it keeps `Expanded`. */
  lemma ExpandedStep(size: nat, walls: set<Pos>, cur: Pos, marked: set<Pos>, unmarked: set<Pos>,
                     added: seq<Pos>, marked': set<Pos>, unmarked': set<Pos>, next: Pos)
    requires Expanded(size, walls, cur, marked, unmarked, added, marked', unmarked')
    requires next in unmarked' && next !in marked'
    requires Adjacent(cur, next) && Open(size, walls, next) && Reachable(size, walls, next)
    ensures Expanded(size, walls, cur, marked, unmarked, added + [next], marked' + {next}, unmarked' - {next})
  {
    var added' := added + [next];
    forall i, j | 0 <= i < j < |added'|
      ensures added'[i] != added'[j]
    {
      if j == |added| {
        assert added'[i] == added[i] && added[i] in marked';
      } else {
        assert added'[i] == added[i] && added'[j] == added[j];
      }
    }
    forall k | 0 <= k < |added'|
      ensures Adjacent(cur, added'[k]) && Open(size, walls, added'[k]) &&
        Reachable(size, walls, added'[k]) && added'[k] !in marked
    {
      if k < |added| {
        assert added'[k] == added[k];
      }
    }
    forall p | p in added'
      ensures p in unmarked && p !in unmarked' - {next}
    {
      if p != next {
        assert p in added;
      }
    }
  }

  /** One pass of the inner loop of the search, for the direction `Directions[d]`: the neighbour
      that way is marked visited and appended when it is inside the grid, not yet visited and not
      a wall.  Afterwards the open neighbours in the first `d + 1` directions are all marked. */
  method VisitDirection(maze: array2<int>, size: nat, visited: array2<bool>, cur: Pos, d: nat,
                        ghost walls: set<Pos>, ghost curPath: seq<Pos>,
                        ghost marked: set<Pos>, ghost unmarked: set<Pos>,
                        added: seq<Pos>, ghost marked': set<Pos>, ghost unmarked': set<Pos>)
    returns (added'': seq<Pos>, ghost marked'': set<Pos>, ghost unmarked'': set<Pos>)
    requires maze.Length0 == size && maze.Length1 == size && walls == BlockedOf(maze)
    requires IsPath(size, walls, curPath) && curPath[|curPath| - 1] == cur
    requires d < |Directions|
    requires Mirrors(visited, size, marked', unmarked')
    requires Expanded(size, walls, cur, marked, unmarked, added, marked', unmarked')
    requires forall e :: 0 <= e < d && Open(size, walls, Step(cur, Directions[e])) ==>
      Step(cur, Directions[e]) in marked'
    modifies visited
    ensures Mirrors(visited, size, marked'', unmarked'')
    ensures Expanded(size, walls, cur, marked, unmarked, added'', marked'', unmarked'')
    ensures forall e :: 0 <= e < d + 1 && Open(size, walls, Step(cur, Directions[e])) ==>
      Step(cur, Directions[e]) in marked''
  {
    added'', marked'', unmarked'' := added, marked', unmarked';
    var (dx, dy) := Directions[d];
    var nx, ny := cur.x + dx, cur.y + dy;
    var next := Pos(nx, ny);
    assert next == Step(cur, Directions[d]);
    if InBounds(size, next) {
      BlockedOfCell(maze, nx, ny);
    }
    if nx >= 0 && ny >= 0 && nx < size && ny < size && !visited[nx, ny] && maze[nx, ny] != 1 {
      assert Adjacent(cur, next) && Open(size, walls, next);
      ExtendPath(size, walls, curPath, next);
      ExpandedStep(size, walls, cur, marked, unmarked, added, marked', unmarked', next);
      MarkVisited(visited, size, marked', unmarked', next);
      marked'' := marked' + {next};
      unmarked'' := unmarked' - {next};
      added'' := added + [next];
    } else if Open(size, walls, next) {
      assert next in marked';
    }
    forall e | 0 <= e < d + 1 && Open(size, walls, Step(cur, Directions[e]))
      ensures Step(cur, Directions[e]) in marked''
    {
      if e < d {
        assert Step(cur, Directions[e]) in marked';
      }
    }
  }

  /** The inner loop of the search: every neighbour of `cur` in the order of `Directions` that
      is inside the grid, not yet visited and not a wall is marked visited and appended to the
      queue, here returned as `added`. */
  method VisitNeighbours(maze: array2<int>, size: nat, visited: array2<bool>, cur: Pos,
                         ghost walls: set<Pos>, ghost curPath: seq<Pos>,
                         ghost marked: set<Pos>, ghost unmarked: set<Pos>)
    returns (added: seq<Pos>, ghost marked': set<Pos>, ghost unmarked': set<Pos>)
    requires maze.Length0 == size && maze.Length1 == size && walls == BlockedOf(maze)
    requires Mirrors(visited, size, marked, unmarked)
    requires IsPath(size, walls, curPath) && curPath[|curPath| - 1] == cur
    modifies visited
    ensures walls == BlockedOf(maze)
    ensures Mirrors(visited, size, marked', unmarked')
    ensures forall p :: p in marked' <==> p in marked || p in added
    ensures forall p :: p in added <==> p in unmarked && p !in unmarked'
    ensures forall k :: 0 <= k < |added| ==>
      Adjacent(cur, added[k]) && Open(size, walls, added[k]) && Reachable(size, walls, added[k])
    ensures forall i, j :: 0 <= i < j < |added| ==> added[i] != added[j]
    ensures forall k :: 0 <= k < |added| ==> added[k] !in marked
    ensures |marked'| == |marked| + |added|
    ensures forall b :: Adjacent(cur, b) && Open(size, walls, b) ==> b in marked'
    ensures unmarked' <= unmarked && (unmarked' == unmarked ==> added == [])
  {
    added, marked', unmarked' := [], marked, unmarked;
    for d := 0 to |Directions|
      invariant Mirrors(visited, size, marked', unmarked')
      invariant Expanded(size, walls, cur, marked, unmarked, added, marked', unmarked')
      invariant forall e :: 0 <= e < d && Open(size, walls, Step(cur, Directions[e])) ==>
        Step(cur, Directions[e]) in marked'
    {
      added, marked', unmarked' :=
        VisitDirection(maze, size, visited, cur, d, walls, curPath, marked, unmarked, added, marked', unmarked');
    }
    forall b | Adjacent(cur, b) && Open(size, walls, b)
      ensures b in marked'
    {
      AdjacentIsDirection(cur, b);
    }
  }

  /** `pushed` logs every cell the search has queued: the start first, then each marked cell
      exactly once, and the queue is what of the log has not been dequeued yet.  So no cell other
      than the start is queued twice, and at most `|marked| + 1` cells are queued in all. */
  ghost predicate PushLog(pushed: seq<Pos>, marked: set<Pos>, queue: seq<Pos>) {
    |pushed| == |marked| + 1 && pushed[0] == Start &&
    (forall k :: 1 <= k < |pushed| ==> pushed[k] in marked) &&
    (forall i, j :: 1 <= i < j < |pushed| ==> pushed[i] != pushed[j]) &&
    |queue| <= |pushed| && queue == pushed[|pushed| - |queue|..]
  }

  /** Dequeuing one cell and queuing the newly marked, distinct cells `added` keeps the log. */
  lemma PushLogStep(pushed: seq<Pos>, marked: set<Pos>, queue: seq<Pos>, added: seq<Pos>, marked': set<Pos>)
    requires PushLog(pushed, marked, queue) && queue != []
    requires forall p :: p in marked' <==> p in marked || p in added
    requires forall k :: 0 <= k < |added| ==> added[k] !in marked
    requires forall i, j :: 0 <= i < j < |added| ==> added[i] != added[j]
    requires |marked'| == |marked| + |added|
    ensures PushLog(pushed + added, marked', queue[1..] + added)
  {
    var log := pushed + added;
    forall i, j | 1 <= i < j < |log|
      ensures log[i] != log[j]
    {
      if j >= |pushed| {
        assert log[j] == added[j - |pushed|];
        if i < |pushed| {
          assert log[i] == pushed[i] && pushed[i] in marked;
        } else {
          assert log[i] == added[i - |pushed|];
        }
      }
    }
    assert queue[1..] == pushed[|pushed| - |queue| + 1..];
  }

  /** What the search knows between two dequeues, apart from the `visited` matrix: the queued
      cells are reachable, and those other than the start are open; every cell marked is done or
      still queued, every marked cell is open, and every open neighbour of a done cell is marked;
      the start is done or queued, the goal is not done, and `pushed` logs the queue. */
  ghost predicate Frontier(size: nat, walls: set<Pos>, queue: seq<Pos>, marked: set<Pos>,
                           done: set<Pos>, pushed: seq<Pos>) {
    (forall k :: 0 <= k < |queue| ==> Reachable(size, walls, queue[k])) &&
    (forall k :: 0 <= k < |queue| ==> queue[k] == Start || Open(size, walls, queue[k])) &&
    (Start in done || Start in queue) &&
    (forall p :: p in marked ==> p in done || p in queue) &&
    (forall p :: p in marked ==> Open(size, walls, p)) &&
    (forall a, b :: a in done && Adjacent(a, b) && Open(size, walls, b) ==> b in marked) &&
    Goal(size) !in done &&
    PushLog(pushed, marked, queue)
  }

  /** Expanding the head of the queue, when it is not the goal, keeps `Frontier`: it moves to
      `done`, and the neighbours marked for it join the tail of the queue. */
  lemma FrontierStep(size: nat, walls: set<Pos>, queue: seq<Pos>, marked: set<Pos>, done: set<Pos>,
                     pushed: seq<Pos>, added: seq<Pos>, marked': set<Pos>)
    requires Frontier(size, walls, queue, marked, done, pushed)
    requires queue != [] && queue[0] != Goal(size)
    requires forall p :: p in marked' <==> p in marked || p in added
    requires forall k :: 0 <= k < |added| ==>
      Adjacent(queue[0], added[k]) && Open(size, walls, added[k]) && Reachable(size, walls, added[k])
    requires forall i, j :: 0 <= i < j < |added| ==> added[i] != added[j]
    requires forall k :: 0 <= k < |added| ==> added[k] !in marked
    requires |marked'| == |marked| + |added|
    requires forall b :: Adjacent(queue[0], b) && Open(size, walls, b) ==> b in marked'
    ensures Frontier(size, walls, queue[1..] + added, marked', done + {queue[0]}, pushed + added)
  {
    var queue' := queue[1..] + added;
    PushLogStep(pushed, marked, queue, added, marked');
    forall k | 0 <= k < |queue'|
      ensures Reachable(size, walls, queue'[k]) && (queue'[k] == Start || Open(size, walls, queue'[k]))
    {
      if k >= |queue| - 1 {
        assert queue'[k] == added[k - |queue| + 1];
      } else {
        assert queue'[k] == queue[k + 1];
      }
    }
    forall p | p in marked'
      ensures p in done + {queue[0]} || p in queue'
    {
      if p in added {
        var k :| 0 <= k < |added| && added[k] == p;
        assert queue'[|queue| - 1 + k] == p;
      } else if p in queue && p != queue[0] {
        var k :| 0 <= k < |queue| && queue[k] == p;
        assert queue'[k - 1] == p;
      }
    }
    if Start !in done && Start != queue[0] {
      var k :| 0 <= k < |queue| && queue[k] == Start;
      assert queue'[k - 1] == Start;
    }
  }

  /** Breadth-first search from (0, 0) over the open cells; true when it dequeues the goal.

      The queue holds cells known to be reachable.  `marked` mirrors the `visited` matrix and
      `done` holds the cells already dequeued (and expanded); every cell marked is done or still
      queued, and every open neighbour of a done cell is marked.  When the queue runs dry, `done`
      is closed under moving to open neighbours, holds the start and lacks the goal, so no path
      reaches the goal.  Every queued cell other than the start is inside the grid and open.  The
      start cell is not marked at first, so it may be queued a second time; every other cell is
      queued at most once, just after it is marked, and the set of unmarked cells shrinks each
      time one is, which bounds the loop. */
  method IsValidPath(maze: array2<int>, size: nat) returns (found: bool)
    requires maze.Length0 == size && maze.Length1 == size
    ensures found <==> Solvable(size, BlockedOf(maze))
  {
    ghost var walls := BlockedOf(maze);
    var queue := [Start];
    var visited := new bool[size, size]((i, j) => false);
    ghost var marked: set<Pos> := {};
    ghost var unmarked: set<Pos> := Cells(size);
    ghost var done: set<Pos> := {};
    ghost var pushed: seq<Pos> := [Start];
    assert IsPath(size, walls, [Start]);

    while queue != []
      invariant walls == BlockedOf(maze)
      invariant Mirrors(visited, size, marked, unmarked)
      invariant Frontier(size, walls, queue, marked, done, pushed)
      decreases unmarked, |queue|
    {
      var cur := queue[0];
      assert Reachable(size, walls, queue[0]);
      if cur.x == size - 1 && cur.y == size - 1 {
        assert cur == Goal(size);
        return true;
      }
      ghost var curPath :| IsPath(size, walls, curPath) && curPath[|curPath| - 1] == cur;
      ghost var marked0, unmarked0, queue0 := marked, unmarked, queue;
      var added;
      added, marked, unmarked := VisitNeighbours(maze, size, visited, cur, walls, curPath, marked, unmarked);
      FrontierStep(size, walls, queue, marked0, done, pushed, added, marked);
      queue := queue[1..] + added;
      if unmarked == unmarked0 {
        assert added == [];
      }
      pushed := pushed + added;
      done := done + {cur};
    }

    ClosedSetExcludesTarget(size, walls, done, Goal(size));
    return false;
  }

  /** One attempt: an all-open grid in which each drawn cell other than the start and the goal
      is set to 1. */
  method BuildAttempt(size: nat, draws: seq<Pos>) returns (maze: array2<int>)
    requires forall i :: 0 <= i < |draws| ==> InBounds(size, draws[i])
    ensures maze.Length0 == size && maze.Length1 == size
    ensures forall i, j :: 0 <= i < size && 0 <= j < size ==>
      maze[i, j] == if Pos(i, j) in Blocked(size, draws) then 1 else 0
    ensures BlockedOf(maze) == Blocked(size, draws)
  {
    maze := new int[size, size]((i, j) => 0);
    for t := 0 to |draws|
      invariant forall i, j :: 0 <= i < size && 0 <= j < size ==>
        maze[i, j] == if Pos(i, j) in Blocked(size, draws[..t]) then 1 else 0
    {
      var p := draws[t];
      assert draws[..t + 1] == draws[..t] + [p];
      if (p.x != Start.x || p.y != Start.y) && (p.x != size - 1 || p.y != size - 1) {
        maze[p.x, p.y] := 1;
      }
    }
    assert draws[..|draws|] == draws;
    forall p | p in Blocked(size, draws)
      ensures p in BlockedOf(maze)
    {
      assert InBounds(size, p);
      assert maze[p.x, p.y] == 1;
    }
  }

  /** Draws attempts in order until one yields a maze the search solves.  `ok` is false only when
      every supplied attempt fails, where the source would go on drawing. */
  method GenerateMaze(size: nat, obstacleCount: nat, attempts: seq<seq<Pos>>) returns (maze: array2<int>, ok: bool)
    requires WellFormedAttempts(size, obstacleCount, attempts)
    ensures maze.Length0 == size && maze.Length1 == size
    ensures forall i, j :: 0 <= i < size && 0 <= j < size ==> maze[i, j] == 0 || maze[i, j] == 1
    ensures size > 0 ==> maze[0, 0] == 0 && maze[size - 1, size - 1] == 0
    ensures |BlockedOf(maze)| <= obstacleCount
    ensures ok <==> EventuallySolvable(size, attempts)
    ensures ok ==> Solvable(size, BlockedOf(maze)) && FirstSolvable(size, attempts, BlockedOf(maze))
  {
    maze := BuildAttempt(size, []);
    ok := false;
    var k := 0;
    while k < |attempts|
      invariant k <= |attempts| && !ok
      invariant maze.Length0 == size && maze.Length1 == size
      invariant forall i, j :: 0 <= i < size && 0 <= j < size ==> maze[i, j] == 0 || maze[i, j] == 1
      invariant size > 0 ==> maze[0, 0] == 0 && maze[size - 1, size - 1] == 0
      invariant |BlockedOf(maze)| <= obstacleCount
      invariant forall j :: 0 <= j < k ==> !Solvable(size, Blocked(size, attempts[j]))
    {
      maze := BuildAttempt(size, attempts[k]);
      ghost var walls := Blocked(size, attempts[k]);
      BlockedCount(size, attempts[k]);
      ok := IsValidPath(maze, size);
      if ok {
        return;
      }
      forall j | 0 <= j < k + 1
        ensures !Solvable(size, Blocked(size, attempts[j]))
      {
        if j == k {
          assert Blocked(size, attempts[j]) == walls;
        }
      }
      k := k + 1;
    }
  }
}
