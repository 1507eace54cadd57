/** The explorer of maze3.py: a depth-first search over an explicit stack that alternates
    between a forward mode, which pushes the first fresh neighbour of the top, and a
    backward mode, which pops the top. Every push and every backtrack is recorded in a
    numbered trace. */
module StackDfs {
  import opened Grid

  datatype Mode = MoveForward | MoveBackward

  /** What holds at the head of every iteration of the search from `position`: `marked`
      holds the cells the search added to the visited set `v`, each of them passable (bar
      `position`) and either done (pushed and popped again) or on the stack; the done cells
      are closed in `v` and exclude the goal; the stack is a walk from `position`; the trace
      is a sequence of single steps from `position` that ends at the top. */
  ghost predicate Search(l: Layout, goal: Pos, position: Pos, v: set<Pos>, marked: set<Pos>,
                         path: seq<Pos>, done: set<Pos>, trace: seq<Pos>)
  {
    position in marked && marked <= v && done <= marked && goal !in done &&
    (forall c :: c in marked ==> (c == position || Passable(l, c)) && (c in done || c in path)) &&
    (forall i :: 0 <= i < |path| ==> path[i] in marked) &&
    ClosedIn(l, done, v) &&
    IsStepSeq(trace) && trace[0] == position &&
    (path != [] ==> IsWalk(l, path) && path[0] == position && trace[|trace| - 1] == path[|path| - 1])
  }

  lemma SearchStarts(l: Layout, goal: Pos, position: Pos, v: set<Pos>)
    requires position in v
    ensures Search(l, goal, position, v, {position}, [position], {}, [position])
  {
  }

  /** A forward step pushes a fresh passable neighbour of the top and records it. */
  lemma SearchPush(l: Layout, goal: Pos, position: Pos, v: set<Pos>, marked: set<Pos>,
                   path: seq<Pos>, done: set<Pos>, trace: seq<Pos>, next: Pos)
    requires Search(l, goal, position, v, marked, path, done, trace)
    requires path != [] && Adjacent(path[|path| - 1], next) && Passable(l, next)
    ensures Search(l, goal, position, v + {next}, marked + {next}, path + [next], done, trace + [next])
  {
    var path' := path + [next];
    assert forall i :: 0 <= i < |path| ==> path'[i] == path[i];
    assert IsWalk(l, path');
    ClosedInGrows(l, done, v, v + {next});
  }

  /** A backward step pops a top whose four moves were all seen and which is not the goal;
      it becomes done, and the new top, if any, is recorded. */
  lemma SearchPop(l: Layout, goal: Pos, position: Pos, v: set<Pos>, marked: set<Pos>,
                  path: seq<Pos>, done: set<Pos>, trace: seq<Pos>)
    requires Search(l, goal, position, v, marked, path, done, trace)
    requires path != [] && path[|path| - 1] != goal
    requires MovesSeen(l, path[|path| - 1], 4, v)
    ensures var rest := path[..|path| - 1];
      Search(l, goal, position, v, marked, rest, done + {path[|path| - 1]},
             if rest != [] then trace + [rest[|rest| - 1]] else trace)
  {
    var top, rest := path[|path| - 1], path[..|path| - 1];
    MovesSeenCloses(l, done, top, v, done + {top});
    assert forall i :: 0 <= i < |rest| ==> rest[i] == path[i];
    forall c | c in marked
      ensures c in done + {top} || c in rest
    {
      if c !in done && c != top {
        var i :| 0 <= i < |path| && path[i] == c;
        assert rest[i] == c;
      }
    }
    if rest != [] {
      var trace' := trace + [rest[|rest| - 1]];
      assert IsWalk(l, rest);
      assert Adjacent(trace'[|trace'| - 2], trace'[|trace'| - 1]);
    }
  }

  /** An emptied stack leaves every marked cell done, so the marked cells are closed and
      exclude the goal. */
  lemma SearchEnds(l: Layout, goal: Pos, position: Pos, v: set<Pos>, marked: set<Pos>,
                   done: set<Pos>, trace: seq<Pos>)
    requires Search(l, goal, position, v, marked, [], done, trace)
    ensures ClosedIn(l, marked, v) && goal !in marked
  {
    ClosedUnion(l, done, {}, v, v, marked);
  }

  /** `Search` together with the player's fields: `visited` is `v0` plus the marked cells,
      and `log`, the exploration order, is `e0` followed by the numbered trace, the last
      number given out being `order`. */
  ghost predicate State(l: Layout, goal: Pos, position: Pos, v0: set<Pos>, e0: seq<(int, Pos)>,
                        visited: set<Pos>, path: seq<Pos>, log: seq<(int, Pos)>, marked: set<Pos>,
                        done: set<Pos>, trace: seq<Pos>, order: int)
  {
    visited == v0 + marked && v0 !! marked &&
    Search(l, goal, position, visited, marked, path, done, trace) &&
    order == |trace| && log == e0 + Numbered(trace)
  }

  /** A push of a fresh passable neighbour `next` of the top, recorded under the next number. */
  lemma StatePush(l: Layout, goal: Pos, position: Pos, v0: set<Pos>, e0: seq<(int, Pos)>,
                  visited: set<Pos>, path: seq<Pos>, log: seq<(int, Pos)>, marked: set<Pos>,
                  done: set<Pos>, trace: seq<Pos>, order: int, next: Pos)
    requires State(l, goal, position, v0, e0, visited, path, log, marked, done, trace, order)
    requires path != [] && Adjacent(path[|path| - 1], next)
    requires Passable(l, next) && next !in visited
    ensures State(l, goal, position, v0, e0, visited + {next}, path + [next], log + [(order + 1, next)],
                  marked + {next}, done, trace + [next], order + 1)
  {
    SearchPush(l, goal, position, visited, marked, path, done, trace, next);
    NumberedAppend(e0, trace, next);
  }

  /** A pop of a top that is not the goal and whose moves were all seen; the new top, if
      any, is recorded under the next number. */
  lemma StatePop(l: Layout, goal: Pos, position: Pos, v0: set<Pos>, e0: seq<(int, Pos)>,
                 visited: set<Pos>, path: seq<Pos>, log: seq<(int, Pos)>, marked: set<Pos>,
                 done: set<Pos>, trace: seq<Pos>, order: int)
    requires State(l, goal, position, v0, e0, visited, path, log, marked, done, trace, order)
    requires path != [] && path[|path| - 1] != goal
    requires MovesSeen(l, path[|path| - 1], 4, visited)
    ensures var rest := path[..|path| - 1];
      if rest == [] then
        State(l, goal, position, v0, e0, visited, rest, log, marked, done + {path[|path| - 1]}, trace, order)
      else
        State(l, goal, position, v0, e0, visited, rest, log + [(order + 1, rest[|rest| - 1])], marked,
              done + {path[|path| - 1]}, trace + [rest[|rest| - 1]], order + 1)
  {
    SearchPop(l, goal, position, visited, marked, path, done, trace);
    var rest := path[..|path| - 1];
    if rest != [] {
      NumberedAppend(e0, trace, rest[|rest| - 1]);
    }
  }

  /** The second component of the search's termination measure: a push or a turn to backward
      mode lowers it, and so does a pop followed by a turn to forward mode. */
  function Weight(path: seq<Pos>, mode: Mode): nat {
    2 * |path| + (if mode == MoveForward then 1 else 0)
  }

  class Player {
    const maze: Maze
    var visited: set<Pos>
    var path: seq<Pos>
    var explorationOrder: seq<(int, Pos)>

    constructor(maze: Maze)
      ensures this.maze == maze && visited == {} && path == [] && explorationOrder == []
    {
      this.maze := maze;
      visited := {};
      path := [];
      explorationOrder := [];
    }

    /** The forward step's scan of the four moves from `p`, stopping at the first one that
        is in bounds, not a wall and not visited; 4 when there is none. */
    method FirstFreshMove(p: Pos) returns (k: int)
      requires maze.Valid()
      ensures 0 <= k <= 4
      ensures k < 4 ==> Passable(maze.Shape(), Neighbour(p, k)) && Neighbour(p, k) !in visited
      ensures MovesSeen(maze.Shape(), p, k, visited)
    {
      k := 0;
      while k < 4
        invariant 0 <= k <= 4
        invariant MovesSeen(maze.Shape(), p, k, visited)
      {
        var next := Neighbour(p, k);
        maze.CanStepIff(next);
        if maze.IsWithinBounds(next) && !maze.IsWall(next) && next !in visited {
          return;
        }
        k := k + 1;
      }
    }

    /** The state of the search from `position` at the head of each iteration, against the
        visited set `v0`, the trace `e0` and the grid contents `g0` it started from:
        `marked` is what it added to `visited`, `done` the cells it popped, `trace` the
        positions it recorded and `order` the last number it gave out. Only the pushed
        cells, never `position` itself, hold the marker. */
    ghost predicate Inv(l: Layout, position: Pos, v0: set<Pos>, e0: seq<(int, Pos)>, g0: map<Pos, Cell>,
                        marked: set<Pos>, done: set<Pos>, trace: seq<Pos>, order: int)
      reads this, maze.grid
    {
      maze.Valid() && maze.Shape() == l &&
      State(l, maze.goal, position, v0, e0, visited, path, explorationOrder, marked, done, trace, order) &&
      MarkedOver(maze.grid, g0, marked - {position})
    }

    /** The two-mode search from `position` on an empty stack. `marked` is what it adds to
        `visited`; `trace` lists the positions recorded in `explorationOrder`, in order. */
    method Dfs(position: Pos) returns (found: bool, ghost marked: set<Pos>, ghost trace: seq<Pos>)
      requires maze.Valid()
      requires path == [] && position !in visited
      modifies this, maze.grid
      ensures maze.Valid()
      ensures visited == old(visited) + marked && position in marked && old(visited) !! marked
      ensures forall c :: c in marked ==> c == position || Passable(maze.Shape(), c)
      // the numbered trace: it starts at `position` and moves one step at a time
      ensures explorationOrder == old(explorationOrder) + Numbered(trace)
      ensures IsStepSeq(trace) && trace[0] == position
      // success leaves the stack as a walk from `position` to the goal, the last recorded cell
      ensures found ==> IsWalk(maze.Shape(), path) && path[0] == position && path[|path| - 1] == maze.goal
      ensures found ==> trace[|trace| - 1] == maze.goal
      // failure empties the stack after every passable neighbour of every marked cell was seen
      ensures !found ==> path == [] && maze.goal !in marked && ClosedIn(maze.Shape(), marked, visited)
      // only pushed cells, never `position` itself, are overwritten with the marker
      ensures MarkedOver(maze.grid, old(Snapshot(maze.grid)), marked - {position})
    {
      ghost var l, v0, e0, g0 := maze.Shape(), visited, explorationOrder, Snapshot(maze.grid);
      marked, trace := {position}, [position];
      // the cells pushed and popped again
      ghost var done: set<Pos> := {};
      var order := Begin(position, l, v0, e0, g0, marked, done, trace);
      // the grid cells, a bound on what the search can still mark
      ghost var cells := CellsBound(l.height, l.width);
      found, order, marked, done, trace := Run(order, cells, l, position, v0, e0, g0, marked, done, trace);
      if !found {
        SearchEnds(l, maze.goal, position, visited, marked, done, trace);
      }
    }

    /** The loop of the search: it stops with the goal on top of the stack or with the stack
        empty. */
    method Run(order: int, ghost cells: set<Pos>, ghost l: Layout, ghost position: Pos,
               ghost v0: set<Pos>, ghost e0: seq<(int, Pos)>, ghost g0: map<Pos, Cell>,
               ghost marked: set<Pos>, ghost done: set<Pos>, ghost trace: seq<Pos>)
      returns (found: bool, order': int, ghost marked': set<Pos>, ghost done': set<Pos>, ghost trace': seq<Pos>)
      requires Inv(l, position, v0, e0, g0, marked, done, trace, order)
      requires forall p :: InRange(l.height, l.width, p) ==> p in cells
      modifies this, maze.grid
      ensures Inv(l, position, v0, e0, g0, marked', done', trace', order')
      ensures found ==> path != [] && path[|path| - 1] == maze.goal
      ensures !found ==> path == []
    {
      var mode := MoveForward;
      order', marked', done', trace' := order, marked, done, trace;
      while path != []
        invariant Inv(l, position, v0, e0, g0, marked', done', trace', order')
        invariant mode == MoveBackward && path != [] ==> MovesSeen(l, path[|path| - 1], 4, visited)
        decreases |cells - visited|, Weight(path, mode)
      {
        var top := path[|path| - 1];
        if maze.IsGoal(top) {
          return true, order', marked', done', trace';
        }
        ghost var move;
        mode, order', marked', done', trace', move := Step(mode, order', cells, l, position, v0, e0, g0, marked', done', trace');
      }
      found := false;
    }

    /** The set-up of the search: `position` is pushed, visited and recorded under number 1. */
    method Begin(position: Pos, ghost l: Layout, ghost v0: set<Pos>, ghost e0: seq<(int, Pos)>,
                 ghost g0: map<Pos, Cell>, ghost marked: set<Pos>, ghost done: set<Pos>, ghost trace: seq<Pos>)
      returns (order: int)
      requires maze.Valid() && l == maze.Shape() && g0 == Snapshot(maze.grid)
      requires path == [] && position !in visited && v0 == visited && e0 == explorationOrder
      requires marked == {position} && done == {} && trace == [position]
      modifies this
      ensures order == 1 && visited == old(visited) + {position}
      ensures Inv(l, position, v0, e0, g0, marked, done, trace, order)
    {
      SearchStarts(maze.Shape(), maze.goal, position, visited + {position});
      assert Numbered([position]) == [(1, position)];
      path := path + [position];
      visited := visited + {position};
      order := 1;
      explorationOrder := explorationOrder + [(order, position)];
    }

    /** One iteration on a stack whose top is not the goal: in forward mode the first fresh
        neighbour of the top is pushed, or, when there is none, the mode turns backward; in
        backward mode the top is popped and, while the stack is not empty, the mode turns
        forward again. Either more cells are visited or the stack shrinks or turns. `move`
        is the forward scan's result: the index of the move pushed, or 4. */
    method Step(mode: Mode, order: int, ghost cells: set<Pos>, ghost l: Layout, ghost position: Pos,
                ghost v0: set<Pos>, ghost e0: seq<(int, Pos)>, ghost g0: map<Pos, Cell>,
                ghost marked: set<Pos>, ghost done: set<Pos>, ghost trace: seq<Pos>)
      returns (mode': Mode, order': int, ghost marked': set<Pos>, ghost done': set<Pos>, ghost trace': seq<Pos>,
               ghost move: int)
      requires Inv(l, position, v0, e0, g0, marked, done, trace, order)
      requires forall p :: InRange(l.height, l.width, p) ==> p in cells
      requires path != [] && path[|path| - 1] != maze.goal
      requires mode == MoveBackward ==> MovesSeen(l, path[|path| - 1], 4, visited)
      modifies this, maze.grid
      ensures Inv(l, position, v0, e0, g0, marked', done', trace', order')
      ensures mode' == MoveBackward && path != [] ==> MovesSeen(l, path[|path| - 1], 4, visited)
      ensures |cells - visited| < old(|cells - visited|) ||
        (visited == old(visited) && Weight(path, mode') < Weight(old(path), mode))
      // forward: the scan stops at the first move, East, South, West, North, onto a
      // passable unvisited cell, and that cell is pushed exactly as `Advance` does
      ensures mode == MoveForward ==>
        0 <= move <= 4 && MovesSeen(l, old(path)[|old(path)| - 1], move, old(visited))
      ensures mode == MoveForward && move < 4 ==>
        var next := Neighbour(old(path)[|old(path)| - 1], move);
        Passable(l, next) && next !in old(visited) && mode' == MoveForward &&
        path == old(path) + [next] && visited == old(visited) + {next} && done' == done &&
        order' == order + 1 && marked' == marked + {next} && trace' == trace + [next] &&
        explorationOrder == old(explorationOrder) + [(order', next)]
      // forward with no such move: only the mode changes
      ensures mode == MoveForward && move == 4 ==>
        mode' == MoveBackward && path == old(path) && visited == old(visited) && done' == done &&
        order' == order && marked' == marked && trace' == trace &&
        explorationOrder == old(explorationOrder) && unchanged(maze.grid)
      // backward: the top is popped exactly as `Backtrack` does, and the mode turns forward
      // unless the stack ran empty
      ensures mode == MoveBackward ==>
        path == old(path)[..|old(path)| - 1] && visited == old(visited) && marked' == marked &&
        done' == done + {old(path)[|old(path)| - 1]} &&
        mode' == (if path != [] then MoveForward else MoveBackward) &&
        (path != [] ==>
          order' == order + 1 && trace' == trace + [path[|path| - 1]] &&
          explorationOrder == old(explorationOrder) + [(order', path[|path| - 1])]) &&
        (path == [] ==> order' == order && trace' == trace && explorationOrder == old(explorationOrder))
    {
      var top := path[|path| - 1];
      mode', order', marked', done', trace' := mode, order, marked, done, trace;
      move := 4;
      if mode == MoveForward {
        var k := FirstFreshMove(top);
        move := k;
        if k < 4 {
          NeighbourAdjacent(top, k);
          ghost var before := visited;
          order', marked', trace' := Advance(Neighbour(top, k), order, l, position, v0, e0, g0, marked, done, trace);
          UnvisitedShrinks(cells, before, visited, Neighbour(top, k));
        } else {
          mode' := MoveBackward;
        }
      } else {
        order', done', trace' := Backtrack(order, l, position, v0, e0, g0, marked, done, trace);
        if path != [] {
          mode' := MoveForward;
        }
      }
    }

    /** The forward step onto a fresh neighbour `next` of the top: it is pushed, added to
        `visited`, overwritten with the marker and recorded under the next number. */
    method Advance(next: Pos, order: int, ghost l: Layout, ghost position: Pos,
                   ghost v0: set<Pos>, ghost e0: seq<(int, Pos)>, ghost g0: map<Pos, Cell>, ghost marked: set<Pos>,
                   ghost done: set<Pos>, ghost trace: seq<Pos>)
      returns (order': int, ghost marked': set<Pos>, ghost trace': seq<Pos>)
      requires Inv(l, position, v0, e0, g0, marked, done, trace, order)
      requires path != [] && Adjacent(path[|path| - 1], next)
      requires Passable(l, next) && next !in visited
      modifies this, maze.grid
      ensures Inv(l, position, v0, e0, g0, marked', done, trace', order')
      ensures path == old(path) + [next] && visited == old(visited) + {next}
      ensures order' == order + 1 && marked' == marked + {next} && trace' == trace + [next]
      ensures explorationOrder == old(explorationOrder) + [(order', next)]
    {
      StatePush(l, maze.goal, position, v0, e0, visited, path, explorationOrder, marked, done, trace, order, next);
      path := path + [next];
      visited := visited + {next};
      maze.MarkVisited(next, g0, marked - {position});
      assert (marked - {position}) + {next} == (marked + {next}) - {position};
      order' := order + 1;
      explorationOrder := explorationOrder + [(order', next)];
      marked', trace' := marked + {next}, trace + [next];
    }

    /** The backward step: the top, whose moves are exhausted, is popped, and the new top,
        if there is one, is recorded under the next number. */
    method Backtrack(order: int, ghost l: Layout, ghost position: Pos, ghost v0: set<Pos>,
                     ghost e0: seq<(int, Pos)>, ghost g0: map<Pos, Cell>, ghost marked: set<Pos>,
                     ghost done: set<Pos>, ghost trace: seq<Pos>)
      returns (order': int, ghost done': set<Pos>, ghost trace': seq<Pos>)
      requires Inv(l, position, v0, e0, g0, marked, done, trace, order)
      requires path != [] && path[|path| - 1] != maze.goal
      requires MovesSeen(l, path[|path| - 1], 4, visited)
      modifies this
      ensures Inv(l, position, v0, e0, g0, marked, done', trace', order')
      ensures path == old(path)[..|old(path)| - 1] && visited == old(visited)
      // the popped cell is done; the new top, if any, is recorded under the next number
      ensures done' == done + {old(path)[|old(path)| - 1]}
      ensures path != [] ==>
        order' == order + 1 && trace' == trace + [path[|path| - 1]] &&
        explorationOrder == old(explorationOrder) + [(order', path[|path| - 1])]
      ensures path == [] ==> order' == order && trace' == trace && explorationOrder == old(explorationOrder)
    {
      StatePop(l, maze.goal, position, v0, e0, visited, path, explorationOrder, marked, done, trace, order);
      done' := done + {path[|path| - 1]};
      path := path[..|path| - 1];
      order', trace' := order, trace;
      if path != [] {
        order' := order + 1;
        explorationOrder := explorationOrder + [(order', path[|path| - 1])];
        trace' := trace + [path[|path| - 1]];
      }
    }

    /** Runs the search from the start on a fresh player. */
    method FindExit() returns (found: bool)
      requires maze.Valid()
      requires visited == {} && path == [] && explorationOrder == []
      modifies this, maze.grid
      ensures found <==> Reachable(maze.Shape(), maze.start, maze.goal)
      ensures found ==> IsWalk(maze.Shape(), path) && path[0] == maze.start && path[|path| - 1] == maze.goal
      ensures |explorationOrder| > 0 && explorationOrder[0] == (1, maze.start)
    {
      ghost var marked, trace;
      found, marked, trace := Dfs(maze.start);
      NumberedEntries(trace);
      if found {
        assert Reachable(maze.Shape(), maze.start, maze.goal) by {
          assert path[|path| - 1] == maze.goal;
        }
      } else {
        ClosedSetUnreachable(maze.Shape(), visited, maze.start, maze.goal);
      }
    }
  }
}
