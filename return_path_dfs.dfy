/** The explorer of maze.py: a recursive depth-first search that appends each position to
    the path as the successful calls return, so the path is recorded goal first. */
module ReturnPathDfs {
  import opened Grid

  /** Appending the caller's position to a return walk that ends at one of its passable
      neighbours gives a return walk that ends at the caller. */
  lemma ReturnWalkExtends(l: Layout, r: seq<Pos>, position: Pos, next: Pos, goal: Pos)
    requires IsReturnWalk(l, r, next, goal)
    requires Adjacent(position, next) && Passable(l, next)
    ensures IsReturnWalk(l, r + [position], position, goal)
  {
  }

  /** How a successful call at `position`, other than at the goal, comes back: the walk
      found by the call into its neighbour by `move`, followed by `position`. The moves
      before `move`, in East, South, West, North order, had all come to nothing when that
      call began, with `before` visited (`TriedBefore`), and every cell of the walk between
      the goal and `position` was visited by that call, so after `before`. */
  ghost predicate ReturnsBy(l: Layout, r: seq<Pos>, position: Pos, move: int, entered: set<Pos>,
                            before: set<Pos>, v: set<Pos>, goal: Pos) {
    TriedBefore(l, position, move, entered, before) && before <= v &&
    ReturnsThrough(l, r, position, Neighbour(position, move), goal) && AllIn(r[1..|r| - 1], v - before)
  }

  /** A return walk to `position` whose step before last is `next`: the walk found from
      `next`, followed by `position`. */
  ghost predicate ReturnsThrough(l: Layout, r: seq<Pos>, position: Pos, next: Pos, goal: Pos) {
    |r| >= 2 && r[|r| - 1] == position && IsReturnWalk(l, r[..|r| - 1], next, goal)
  }

  /** The cells of a walk after its first, when those before its last were marked in `s`
      and its last in `t`, a set containing `s`, all lie in `t`. */
  lemma MarkedWalk(r: seq<Pos>, s: set<Pos>, t: set<Pos>)
    requires |r| >= 2 && AllIn(r[1..|r| - 1], s) && r[|r| - 1] in t && s <= t
    ensures AllIn(r[1..], t)
  {
    assert forall i :: 1 <= i < |r| - 1 ==> r[1..|r| - 1][i - 1] == r[i];
  }

  /** The walk a successful move of a call at `position` brings back, followed by
      `position`, is how that call returns: by the first successful move, with every cell
      but the goal marked by the call, none twice. `v0` is what `visited` held before the
      call, `before` what it held when the move began and `v` what it holds now. */
  lemma ReturnsByMove(l: Layout, r: seq<Pos>, position: Pos, k: int, v0: set<Pos>, before: set<Pos>,
                      v: set<Pos>, goal: Pos)
    requires 0 <= k < 4 && position != goal && position !in v0
    requires v0 + {position} <= before <= v
    requires MovesSeen(l, position, k, before) && ClosedIn(l, before - v0 - {position}, before)
    requires ReturnsThrough(l, r, position, Neighbour(position, k), goal)
    requires AllIn(r[1..|r| - 1], v - before) && Distinct(r[..|r| - 1])
    ensures ReturnsBy(l, r, position, k, v0 + {position}, before, v, goal)
    ensures AllIn(r[1..], v - v0) && Distinct(r)
  {
    MarkedWalk(r, v - before, v - v0);
    assert before - (v0 + {position}) == before - v0 - {position};
    var front := r[..|r| - 1];
    forall i | 0 <= i < |front|
      ensures front[i] != position
    {
      if i > 0 {
        assert front[i] == r[1..|r| - 1][i - 1];
      }
    }
    DistinctEnds(front, position);
    assert front + [position] == r;
  }

  /** On the `Detour` layout, from (0, 0) to (0, 2), the search tries East first and so
      returns the two-step route: any outcome FindExit promises there is exactly
      [(0, 0), (0, 1), (0, 2)], never the detour through (1, 0), (1, 1) and (0, 1). */
  lemma {:induction false} DetourRoute(found: bool, route: seq<Pos>, move: int, before: set<Pos>, visited: set<Pos>)
    requires found <==> Reachable(Detour, (0, 0), (0, 2))
    requires found ==> |route| > 0 && route[0] == (0, 0) && route[|route| - 1] == (0, 2)
    requires found ==> IsWalk(Detour, route) && Distinct(route)
    requires (0, 2) !in visited
    requires found ==>
      TriedBefore(Detour, (0, 0), move, {(0, 0)}, before) && before <= visited &&
      |route| >= 2 && route[1] == Neighbour((0, 0), move)
    ensures found && route == [(0, 0), (0, 1), (0, 2)]
  {
    assert IsWalk(Detour, [(0, 0), (0, 1), (0, 2)]);
    if move != 0 {
      // East was tried first and came to nothing, yet (0, 2) lies East of (0, 1)
      assert Neighbour((0, 0), 0) == (0, 1) && Passable(Detour, (0, 1));
      assert (0, 1) in before - {(0, 0)};
      ClosedStep(Detour, before - {(0, 0)}, before, (0, 1), 0);
      assert false;
    }
    assert route[1] == (0, 1);
    assert route[2] == (0, 2) || route[2] == (1, 1);
    if route[2] == (1, 1) {
      // the detour from (0, 1) back South runs into a dead end at (2, 0)
      assert route[3] == (1, 0);
      assert route[4] == (2, 0) && |route| > 5;
      WalkStep(Detour, route, 5);
      assert false;
    }
    assert route[|route| - 1] == route[2];
  }

  class Player {
    const maze: Maze
    var visited: set<Pos>
    var path: seq<Pos>

    constructor(maze: Maze)
      ensures this.maze == maze && visited == {} && path == []
    {
      this.maze := maze;
      visited := {};
      path := [];
    }

    /** The positions a search can ever mark: the grid cells and the start. */
    ghost function Universe(): set<Pos> {
      Cells(maze.grid.Length0, maze.grid.Length1) + {maze.start}
    }

    /** The recursive search from `position`. The goal test comes before the position is
        marked, so the goal never enters `visited`; each neighbour is then tried in the
        order East, South, West, North. */
    method Dfs(position: Pos) returns (found: bool, ghost appended: seq<Pos>, ghost move: int, ghost before: set<Pos>)
      requires maze.Valid()
      requires position == maze.start || Passable(maze.Shape(), position)
      requires position !in visited
      modifies this
      decreases |Universe() - visited|, 1
      ensures old(visited) <= visited
      ensures maze.goal !in visited - old(visited)
      ensures forall c :: c in visited - old(visited) ==> c == position || Passable(maze.Shape(), c)
      ensures position != maze.goal ==> position in visited
      ensures position == maze.goal ==> found && visited == old(visited) && path == old(path) + [position]
      // a failed call leaves the path alone and has looked at every passable neighbour
      // of each cell it marked
      ensures !found ==> path == old(path)
      ensures !found ==> ClosedIn(maze.Shape(), visited - old(visited), visited)
      // a successful call has appended a walk from the goal back to `position`
      ensures found ==> path == old(path) + appended && IsReturnWalk(maze.Shape(), appended, position, maze.goal)
      // every cell of that walk but the goal was marked by this call, and none twice
      ensures found ==> AllIn(appended[1..], visited - old(visited)) && Distinct(appended)
      // away from the goal, the walk comes back through the first move, in East, South,
      // West, North order, whose call succeeded: the earlier moves had all come to nothing
      // when it began, with `before` visited
      ensures found && position != maze.goal ==>
        ReturnsBy(maze.Shape(), appended, position, move, old(visited) + {position}, before, visited, maze.goal)
    {
      ghost var l := maze.Shape();
      if maze.IsGoal(position) {
        path := path + [position];
        return true, [position], 0, visited;
      }
      visited := visited + {position};
      if position != maze.start {
        InCells(l.height, l.width, position);
      }
      var k := 0;
      while k < 4
        invariant 0 <= k <= 4
        invariant old(visited) + {position} <= visited
        invariant path == old(path)
        invariant maze.goal !in visited - old(visited)
        invariant forall c :: c in visited - old(visited) ==> c == position || Passable(l, c)
        invariant ClosedIn(l, visited - old(visited) - {position}, visited)
        invariant MovesSeen(l, position, k, visited)
      {
        before := visited;
        UnvisitedShrinks(Universe(), old(visited), visited, position);
        found, appended := TryMove(position, k);
        if found {
          ReturnsByMove(l, appended, position, k, old(visited), before, visited, maze.goal);
          move := k;
          return;
        }
        ClosedUnion(l, before - old(visited) - {position}, visited - before, before, visited,
          visited - old(visited) - {position});
        MovesSeenGrows(l, position, k, before, visited);
        k := k + 1;
      }
      MovesSeenCloses(l, visited - old(visited) - {position}, position, visited, visited - old(visited));
      return false, [], 4, visited;
    }

    /** One iteration of the move loop: the k-th neighbour of a marked `position` is
        searched when it is in bounds, not a wall and not yet visited. */
    method TryMove(position: Pos, k: int) returns (found: bool, ghost appended: seq<Pos>)
      requires maze.Valid()
      requires 0 <= k < 4
      requires position in visited
      modifies this
      decreases |Universe() - visited| + 1, 0
      ensures old(visited) <= visited
      ensures maze.goal !in visited - old(visited)
      ensures forall c :: c in visited - old(visited) ==> Passable(maze.Shape(), c)
      ensures !found ==> path == old(path)
      ensures !found ==> ClosedIn(maze.Shape(), visited - old(visited), visited)
      ensures !found ==> Passable(maze.Shape(), Neighbour(position, k)) ==> Neighbour(position, k) in visited
      ensures found ==> path == old(path) + appended && IsReturnWalk(maze.Shape(), appended, position, maze.goal)
      // a neighbour out of bounds, on a wall or already visited is not searched
      ensures !Passable(maze.Shape(), Neighbour(position, k)) || Neighbour(position, k) in old(visited) ==>
        !found && visited == old(visited) && path == old(path)
      // on success the walk is the one found from the neighbour, followed by `position`
      ensures found ==>
        ReturnsThrough(maze.Shape(), appended, position, Neighbour(position, k), maze.goal) &&
        AllIn(appended[1..|appended| - 1], visited - old(visited)) && Distinct(appended[..|appended| - 1])
    {
      ghost var l := maze.Shape();
      var next := Neighbour(position, k);
      maze.CanStepIff(next);
      if maze.IsWithinBounds(next) && !maze.IsWall(next) && next !in visited {
        assert Passable(l, next);
        var sub, subAppended, _, _ := Dfs(next);
        if sub {
          NeighbourAdjacent(position, k);
          ReturnWalkExtends(l, subAppended, position, next, maze.goal);
          path := path + [position];
          assert (subAppended + [position])[..|subAppended|] == subAppended;
          assert (subAppended + [position])[1..|subAppended|] == subAppended[1..];
          return true, subAppended + [position];
        }
      }
      return false, [];
    }

    /** Runs the search from the start on a fresh player and returns the path in the order
        it is printed, start first. */
    method FindExit() returns (found: bool, route: seq<Pos>, ghost move: int, ghost before: set<Pos>)
      requires maze.Valid()
      requires visited == {} && path == []
      modifies this
      ensures found <==> Reachable(maze.Shape(), maze.start, maze.goal)
      ensures found ==> route == Reversed(path)
      ensures found ==> |route| > 0 && route[0] == maze.start && route[|route| - 1] == maze.goal
      ensures found ==> IsWalk(maze.Shape(), route)
      ensures !found ==> route == []
      // the goal is never visited, and every cell of the route but the goal was, once
      ensures maze.goal !in visited
      ensures found ==> (forall i :: 0 <= i < |route| - 1 ==> route[i] in visited) && Distinct(route)
      // away from the goal, the route leaves the start by its first move, in East, South,
      // West, North order, whose call succeeded: the earlier moves had all come to nothing
      // when it began, with `before` visited, and the rest of the route was visited after
      ensures found && maze.start != maze.goal ==>
        TriedBefore(maze.Shape(), maze.start, move, {maze.start}, before) && before <= visited &&
        |route| >= 2 && route[1] == Neighbour(maze.start, move) &&
        forall i :: 1 <= i < |route| - 1 ==> route[i] in visited - before
    {
      ghost var appended;
      found, appended, move, before := Dfs(maze.start);
      if found {
        ReversedReturnWalk(maze.Shape(), path, maze.start, maze.goal);
        ReversedDistinct(path);
        route := Reversed(path);
        forall i | 1 <= i < |route| - 1
          ensures route[i] in visited - before
        {
          if maze.start != maze.goal {
            assert route[i] == appended[1..|appended| - 1][|route| - 2 - i];
          }
        }
      } else {
        route := [];
        ClosedSetUnreachable(maze.Shape(), visited, maze.start, maze.goal);
      }
    }
  }
}
