/** Cells, walls and paths of a square maze.

    A maze of dimension `size` has cells `(x, y)` with `0 <= x, y < size`; `x` is the row and
    `y` the column, as in `maze[x][y]`.  A cell holding 1 is blocked, anything else is open.
    The player starts in the top-left cell and wins in the bottom-right one.
 */
module Grid {

  datatype Pos = Pos(x: int, y: int)

  /** The start cell, (0, 0). */
  const Start: Pos := Pos(0, 0)

  /** The goal cell, (size - 1, size - 1). */
  function Goal(size: int): Pos {
    Pos(size - 1, size - 1)
  }

  predicate InBounds(size: int, p: Pos) {
    0 <= p.x < size && 0 <= p.y < size
  }

  /** The four moves the search tries, in its order: down, up, right, left. */
  const Directions: seq<(int, int)> := [(1, 0), (-1, 0), (0, 1), (0, -1)]

  function Step(p: Pos, d: (int, int)): Pos {
    Pos(p.x + d.0, p.y + d.1)
  }

  function Abs(n: int): nat {
    if n < 0 then -n else n
  }

  /** Two cells are neighbours when they share a side. */
  predicate Adjacent(a: Pos, b: Pos) {
    Abs(a.x - b.x) + Abs(a.y - b.y) == 1
  }

  /** A cell the player may stand on: inside the grid and not a wall. */
  predicate Open(size: int, walls: set<Pos>, p: Pos) {
    InBounds(size, p) && p !in walls
  }

  /** The walls of an array maze: the cells holding 1. */
  ghost function BlockedOf(maze: array2<int>): set<Pos>
    reads maze
  {
    set i, j | 0 <= i < maze.Length0 && 0 <= j < maze.Length1 && maze[i, j] == 1 :: Pos(i, j)
  }

  lemma BlockedOfCell(maze: array2<int>, i: int, j: int)
    requires 0 <= i < maze.Length0 && 0 <= j < maze.Length1
    ensures Pos(i, j) in BlockedOf(maze) <==> maze[i, j] == 1
  {
  }

  /** All cells of a `size` by `size` grid. */
  ghost function Cells(size: int): set<Pos> {
    set i, j | 0 <= i < size && 0 <= j < size :: Pos(i, j)
  }

  /** A walk from the start cell in which every later cell is open and a neighbour of the one
      before it.  The start cell itself is not required to be open: the search begins there
      without looking at it. */
  ghost predicate IsPath(size: int, walls: set<Pos>, path: seq<Pos>) {
    |path| >= 1 && path[0] == Start &&
    forall k :: 1 <= k < |path| ==> Adjacent(path[k - 1], path[k]) && Open(size, walls, path[k])
  }

  ghost predicate Reachable(size: int, walls: set<Pos>, target: Pos) {
    exists path :: IsPath(size, walls, path) && path[|path| - 1] == target
  }

  /** The maze can be won: the goal is reachable from the start. */
  ghost predicate Solvable(size: int, walls: set<Pos>) {
    Reachable(size, walls, Goal(size))
  }

  /** With the start cell open, as the generator guarantees, reachability is the usual notion:
      a chain of open cells, each a neighbour of the one before, from the start to the target. */
  lemma ReachableWithOpenStart(size: int, walls: set<Pos>, target: Pos)
    requires Open(size, walls, Start)
    ensures Reachable(size, walls, target) <==>
      exists path: seq<Pos> :: |path| >= 1 && path[0] == Start && path[|path| - 1] == target &&
        (forall k :: 0 <= k < |path| ==> Open(size, walls, path[k])) &&
        (forall k :: 1 <= k < |path| ==> Adjacent(path[k - 1], path[k]))
  {
    if Reachable(size, walls, target) {
      var path :| IsPath(size, walls, path) && path[|path| - 1] == target;
      assert forall k :: 0 <= k < |path| ==> Open(size, walls, path[k]);
    }
  }

  /** The cells one move away are exactly the four `Directions` steps. */
  lemma AdjacentIsDirection(a: Pos, b: Pos)
    ensures Adjacent(a, b) <==> exists d :: 0 <= d < |Directions| && b == Step(a, Directions[d])
  {
    if Adjacent(a, b) {
      if b.x == a.x + 1 {
        assert b == Step(a, Directions[0]);
      } else if b.x == a.x - 1 {
        assert b == Step(a, Directions[1]);
      } else if b.y == a.y + 1 {
        assert b == Step(a, Directions[2]);
      } else {
        assert b == Step(a, Directions[3]);
      }
    }
  }

  /** A path extended by an open neighbour of its last cell is a path to that neighbour. */
  lemma ExtendPath(size: int, walls: set<Pos>, path: seq<Pos>, next: Pos)
    requires IsPath(size, walls, path)
    requires Adjacent(path[|path| - 1], next) && Open(size, walls, next)
    ensures IsPath(size, walls, path + [next]) && Reachable(size, walls, next)
  {
    var longer := path + [next];
    forall k | 1 <= k < |longer|
      ensures Adjacent(longer[k - 1], longer[k]) && Open(size, walls, longer[k])
    {
      if k < |path| {
        assert longer[k - 1] == path[k - 1] && longer[k] == path[k];
      }
    }
    assert longer[|longer| - 1] == next;
  }

  /** A set that holds the start cell and every open neighbour of its members holds every cell
      a path reaches. */
  lemma {:induction false} PathStaysInClosedSet(size: int, walls: set<Pos>, closed: set<Pos>, path: seq<Pos>)
    requires Start in closed
    requires forall a, b :: a in closed && Adjacent(a, b) && Open(size, walls, b) ==> b in closed
    requires IsPath(size, walls, path)
    ensures path[|path| - 1] in closed
    decreases |path|
  {
    if |path| > 1 {
      var prefix := path[..|path| - 1];
      assert IsPath(size, walls, prefix) by {
        forall k | 1 <= k < |prefix|
          ensures Adjacent(prefix[k - 1], prefix[k]) && Open(size, walls, prefix[k])
        {
          assert prefix[k - 1] == path[k - 1] && prefix[k] == path[k];
        }
      }
      PathStaysInClosedSet(size, walls, closed, prefix);
      assert Adjacent(path[|path| - 2], path[|path| - 1]);
    }
  }

  /** The contrapositive used by the search: a closed set without the target rules out a path. */
  lemma ClosedSetExcludesTarget(size: int, walls: set<Pos>, closed: set<Pos>, target: Pos)
    requires Start in closed
    requires forall a, b :: a in closed && Adjacent(a, b) && Open(size, walls, b) ==> b in closed
    requires target !in closed
    ensures !Reachable(size, walls, target)
  {
    forall path | IsPath(size, walls, path)
      ensures path[|path| - 1] != target
    {
      PathStaysInClosedSet(size, walls, closed, path);
    }
  }
}
