/** The breadth-first explorer of maze6.py, repeated in maze7.py: a FIFO queue seeded with
    the start, a visited set that a cell joins when it is queued, a parent map recording who
    discovered each cell, and a path rebuilt from the parent map once the goal is dequeued. */
module Bfs {
  import opened Grid

  /** The parent map as a tree rooted at `start`: its keys are the visited cells, the start
      alone has no parent, and every other key is a passable cell one step from its parent
      and one level deeper. `depth` gives each key's distance from the start along the
      parent chain. */
  ghost predicate ParentTree(l: Layout, start: Pos, visited: set<Pos>,
                             parents: map<Pos, Option<Pos>>, depth: map<Pos, nat>)
  {
    start in visited && parents.Keys == visited && depth.Keys == visited &&
    parents[start] == None && depth[start] == 0 &&
    forall c {:trigger parents[c]} :: c in visited && c != start ==>
      Passable(l, c) && parents[c].Some? && parents[c].value in visited &&
      Adjacent(parents[c].value, c) && depth[c] == depth[parents[c].value] + 1
  }

  /** The first k moves from `p` lead to no passable cell that is undiscovered or more than
      one level deeper than `p`. */
  ghost predicate Expanded(l: Layout, p: Pos, k: int, depth: map<Pos, nat>)
    requires 0 <= k <= 4
  {
    forall j :: 0 <= j < k && Passable(l, Neighbour(p, j)) ==>
      Neighbour(p, j) in depth && p in depth && depth[Neighbour(p, j)] <= depth[p] + 1
  }

  /** The cells listed in `s`. */
  ghost function Elements(s: seq<Pos>): set<Pos> {
    if s == [] then {} else Elements(s[..|s| - 1]) + {s[|s| - 1]}
  }

  lemma {:induction false} ElementsIndex(s: seq<Pos>, c: Pos) returns (i: int)
    requires c in Elements(s)
    ensures 0 <= i < |s| && s[i] == c
  {
    if c == s[|s| - 1] {
      i := |s| - 1;
    } else {
      i := ElementsIndex(s[..|s| - 1], c);
    }
  }

  lemma {:induction false} ElementsHas(s: seq<Pos>, i: int)
    requires 0 <= i < |s|
    ensures s[i] in Elements(s)
  {
    if i < |s| - 1 {
      ElementsHas(s[..|s| - 1], i);
    }
  }

  lemma {:induction false} ElementsConcat(a: seq<Pos>, b: seq<Pos>)
    ensures Elements(a + b) == Elements(a) + Elements(b)
    decreases |b|
  {
    if b != [] {
      var b' := b[..|b| - 1];
      assert (a + b)[..|a + b| - 1] == a + b' && (a + b)[|a + b| - 1] == b[|b| - 1];
      assert Elements(a + b) == Elements(a + b') + {b[|b| - 1]};
      ElementsConcat(a, b');
      assert b[..|b| - 1] == b';
    } else {
      assert a + b == a;
    }
  }

  /** The cells moves `k` to 3 from `p` discover, in East, South, West, North order: the
      targets that are passable and not in `v`, which each discovery extends. */
  ghost function Fresh(l: Layout, p: Pos, k: int, v: set<Pos>): seq<Pos>
    requires 0 <= k <= 4
    decreases 4 - k
  {
    if k == 4 then []
    else if Passable(l, Neighbour(p, k)) && Neighbour(p, k) !in v then
      [Neighbour(p, k)] + Fresh(l, p, k + 1, v + {Neighbour(p, k)})
    else Fresh(l, p, k + 1, v)
  }

  /** The parent map once each cell of `s`, in order, has been given the parent `p`. */
  ghost function Adopted(parents: map<Pos, Option<Pos>>, s: seq<Pos>, p: Pos): map<Pos, Option<Pos>>
    decreases |s|
  {
    if s == [] then parents else Adopted(parents[s[0] := Some(p)], s[1..], p)
  }

  /** Part way through the four moves from `p`, at move `k`: the discovery order `d`, the
      queue `q` and the parent map, each followed by what moves `k` to 3 discover, are what
      all four moves make of them (`d0`, `q0`, `parents0`). */
  ghost predicate Remaining(l: Layout, p: Pos, k: int, v: set<Pos>, d: seq<Pos>, q: seq<Pos>,
                            parents: map<Pos, Option<Pos>>, d0: seq<Pos>, q0: seq<Pos>,
                            parents0: map<Pos, Option<Pos>>)
    requires 0 <= k <= 4
  {
    d + Fresh(l, p, k, v) == d0 && q + Fresh(l, p, k, v) == q0 && Adopted(parents, Fresh(l, p, k, v), p) == parents0
  }

  /** Move `k` discovers its target exactly when that is passable and not yet visited, and
      so keeps what remains to be discovered in step. */
  lemma RemainingStep(l: Layout, p: Pos, k: int, v: set<Pos>, d: seq<Pos>, q: seq<Pos>,
                      parents: map<Pos, Option<Pos>>, v': set<Pos>, d': seq<Pos>, q': seq<Pos>,
                      parents': map<Pos, Option<Pos>>, d0: seq<Pos>, q0: seq<Pos>,
                      parents0: map<Pos, Option<Pos>>)
    requires 0 <= k < 4 && Remaining(l, p, k, v, d, q, parents, d0, q0, parents0)
    requires var next := Neighbour(p, k);
      if Passable(l, next) && next !in v then
        d' == d + [next] && q' == q + [next] && v' == v + {next} && parents' == parents[next := Some(p)]
      else
        d' == d && q' == q && v' == v && parents' == parents
    ensures Remaining(l, p, k + 1, v', d', q', parents', d0, q0, parents0)
  {
    var next := Neighbour(p, k);
    if Passable(l, next) && next !in v {
      var rest := Fresh(l, p, k + 1, v + {next});
      AppendAssociates(d, [next], rest);
      AppendAssociates(q, [next], rest);
      assert ([next] + rest)[1..] == rest;
    }
  }

  /** Once the discovery order has grown by `s`, so have the visited set, the counter and
      the numbered trace. */
  lemma StateGrows(l: Layout, start: Pos, goal: Pos, f: Frontier, visited: set<Pos>,
                   parents: map<Pos, Option<Pos>>, order: int, e: seq<(int, Pos)>,
                   f': Frontier, visited': set<Pos>, parents': map<Pos, Option<Pos>>, order': int,
                   e': seq<(int, Pos)>, s: seq<Pos>)
    requires State(l, start, goal, f, visited, parents, order, e)
    requires State(l, start, goal, f', visited', parents', order', e') && f'.d == f.d + s
    ensures visited' == visited + Elements(s) && order' == order + |s| && e' == e + NumberedFrom(order, s)
  {
    ElementsConcat(f.d, s);
    NumberedConcat(f.d, s);
  }

  lemma ElementsAppend(s: seq<Pos>, x: Pos)
    ensures Elements(s + [x]) == Elements(s) + {x}
  {
    assert (s + [x])[..|s|] == s;
  }

  /** What a breadth-first search knows beyond its fields: `d` lists the cells in the order
      they were discovered and the queue is `d[head..]`; the queued cells before `split` are
      at depth `level` and the rest one level deeper. */
  datatype Frontier = Frontier(d: seq<Pos>, head: int, depth: map<Pos, nat>, level: nat, split: int)

  /** The state of a breadth-first search: `d` lists the visited cells without repetition,
      starting with the start; the queue spans at most two consecutive levels, the shallower
      first and never empty while the queue is not; every dequeued cell lies no deeper than
      the queue and has been expanded. */
  ghost predicate Layered(l: Layout, start: Pos, f: Frontier, visited: set<Pos>,
                          parents: map<Pos, Option<Pos>>)
  {
    ParentTree(l, start, visited, parents, f.depth) &&
    0 <= f.head <= f.split <= |f.d| && |f.d| > 0 && f.d[0] == start &&
    (f.head < |f.d| ==> f.head < f.split) &&
    (forall i, j :: 0 <= i < j < |f.d| ==> f.d[i] != f.d[j]) &&
    visited == Elements(f.d) &&
    (forall i :: 0 <= i < |f.d| ==> f.d[i] in f.depth) &&
    (forall i :: 0 <= i < f.head ==> f.depth[f.d[i]] <= f.level && Expanded(l, f.d[i], 4, f.depth)) &&
    (forall i :: f.head <= i < |f.d| ==> f.depth[f.d[i]] == if i < f.split then f.level else f.level + 1)
  }

  /** The frontier once the start alone is queued. */
  function Initial(start: Pos): (f: Frontier)
    ensures f.d == [start] && f.head == 0
  {
    Frontier([start], 0, map[start := 0], 0, 1)
  }

  /** The frontier after one more cell is dequeued: when the last cell of the shallower
      level leaves, the queue moves down one level. */
  function Popped(f: Frontier): (f': Frontier)
    ensures f'.d == f.d && f'.depth == f.depth && f'.head == f.head + 1
  {
    if f.head + 1 == f.split && f.split < |f.d| then
      f.(head := f.head + 1, level := f.level + 1, split := |f.d|)
    else
      f.(head := f.head + 1)
  }

  /** The frontier after `next` is discovered from the queue's head. */
  function Pushed(f: Frontier, next: Pos): (f': Frontier)
    ensures f'.d == f.d + [next] && f'.head == f.head
  {
    f.(d := f.d + [next], depth := f.depth[next := f.level + 1])
  }

  lemma LayeredStart(l: Layout, start: Pos)
    ensures Layered(l, start, Initial(start), {start}, map[start := None])
  {
  }

  /** Discovered cells keep their depths when another cell is discovered. */
  lemma ExpandedGrows(l: Layout, p: Pos, k: int, depth: map<Pos, nat>, depth': map<Pos, nat>)
    requires 0 <= k <= 4 && Expanded(l, p, k, depth)
    requires forall c :: c in depth ==> c in depth' && depth'[c] == depth[c]
    ensures Expanded(l, p, k, depth')
  {
  }

  /** A cell discovered from a key of the parent tree joins it as that key's child. */
  lemma TreeDiscover(l: Layout, start: Pos, visited: set<Pos>, parents: map<Pos, Option<Pos>>,
                     depth: map<Pos, nat>, p: Pos, next: Pos, n: nat)
    requires ParentTree(l, start, visited, parents, depth)
    requires p in visited && Adjacent(p, next) && Passable(l, next) && next !in visited
    requires n == depth[p] + 1
    ensures ParentTree(l, start, visited + {next}, parents[next := Some(p)], depth[next := n])
  {
  }

  /** Discovering an unvisited passable neighbour of the queue's head appends it to the
      queue, one level below the head. */
  lemma LayeredDiscover(l: Layout, start: Pos, f: Frontier, visited: set<Pos>,
                        parents: map<Pos, Option<Pos>>, next: Pos)
    requires Layered(l, start, f, visited, parents)
    requires f.head < |f.d| && Adjacent(f.d[f.head], next) && Passable(l, next) && next !in visited
    ensures f.depth[f.d[f.head]] == f.level
    ensures Layered(l, start, Pushed(f, next), visited + {next}, parents[next := Some(f.d[f.head])])
  {
    var f' := Pushed(f, next);
    assert f.depth[f.d[f.head]] == f.level;
    TreeDiscover(l, start, visited, parents, f.depth, f.d[f.head], next, f.level + 1);
    ListDiscover(f.d, visited, next);
    DepthsDiscover(l, f, next);
  }

  /** Appending a cell not yet listed keeps the list free of repetitions. */
  lemma ListDiscover(d: seq<Pos>, visited: set<Pos>, next: Pos)
    requires (forall i, j :: 0 <= i < j < |d| ==> d[i] != d[j]) && visited == Elements(d)
    requires next !in visited
    ensures forall i, j :: 0 <= i < j < |d + [next]| ==> (d + [next])[i] != (d + [next])[j]
    ensures visited + {next} == Elements(d + [next])
  {
    ElementsAppend(d, next);
    forall i | 0 <= i < |d|
      ensures d[i] != next
    {
      ElementsHas(d, i);
    }
  }

  /** A cell queued one level below the head leaves the depths of the dequeued and queued
      cells as they were. */
  lemma DepthsDiscover(l: Layout, f: Frontier, next: Pos)
    requires 0 <= f.head <= f.split <= |f.d| && f.head < |f.d|
    requires next !in f.depth
    requires forall i :: 0 <= i < |f.d| ==> f.d[i] in f.depth
    requires forall i :: 0 <= i < f.head ==> f.depth[f.d[i]] <= f.level && Expanded(l, f.d[i], 4, f.depth)
    requires forall i :: f.head <= i < |f.d| ==> f.depth[f.d[i]] == if i < f.split then f.level else f.level + 1
    ensures var f' := Pushed(f, next);
      (forall i :: 0 <= i < |f'.d| ==> f'.d[i] in f'.depth) &&
      (forall i :: 0 <= i < f'.head ==> f'.depth[f'.d[i]] <= f'.level && Expanded(l, f'.d[i], 4, f'.depth)) &&
      (forall i :: f'.head <= i < |f'.d| ==> f'.depth[f'.d[i]] == if i < f'.split then f'.level else f'.level + 1)
  {
    var f' := Pushed(f, next);
    forall i | 0 <= i < f.head
      ensures Expanded(l, f'.d[i], 4, f'.depth)
    {
      ExpandedGrows(l, f.d[i], 4, f.depth, f'.depth);
    }
  }

  /** The move `k` from a cell extends its expansion when its target is impassable or
      already discovered no deeper than one level below. */
  lemma ExpandedNext(l: Layout, p: Pos, k: int, depth: map<Pos, nat>)
    requires 0 <= k < 4 && Expanded(l, p, k, depth)
    requires Passable(l, Neighbour(p, k)) ==>
      Neighbour(p, k) in depth && p in depth && depth[Neighbour(p, k)] <= depth[p] + 1
    ensures Expanded(l, p, k + 1, depth)
  {
  }

  /** The move `k` from the queue's head onto a discovered or impassable cell. */
  lemma ExpandedKnown(l: Layout, start: Pos, f: Frontier, visited: set<Pos>,
                      parents: map<Pos, Option<Pos>>, k: int)
    requires Layered(l, start, f, visited, parents) && f.head < |f.d| && 0 <= k < 4
    requires Expanded(l, f.d[f.head], k, f.depth)
    requires Passable(l, Neighbour(f.d[f.head], k)) ==> Neighbour(f.d[f.head], k) in visited
    ensures Expanded(l, f.d[f.head], k + 1, f.depth)
  {
    var next := Neighbour(f.d[f.head], k);
    if Passable(l, next) {
      LayeredBound(l, start, f, visited, parents, next);
    }
    ExpandedNext(l, f.d[f.head], k, f.depth);
  }

  /** The move `k` from the queue's head onto a cell it discovers. */
  lemma ExpandedPush(l: Layout, start: Pos, f: Frontier, visited: set<Pos>,
                     parents: map<Pos, Option<Pos>>, k: int)
    requires Layered(l, start, f, visited, parents) && f.head < |f.d| && 0 <= k < 4
    requires Expanded(l, f.d[f.head], k, f.depth) && Neighbour(f.d[f.head], k) !in visited
    ensures Expanded(l, f.d[f.head], k + 1, Pushed(f, Neighbour(f.d[f.head], k)).depth)
  {
    var p, next := f.d[f.head], Neighbour(f.d[f.head], k);
    var depth' := Pushed(f, next).depth;
    assert f.depth[p] == f.level;
    ExpandedGrows(l, p, k, f.depth, depth');
    ExpandedNext(l, p, k, depth');
  }

  /** Dequeuing an expanded cell. */
  lemma LayeredPop(l: Layout, start: Pos, f: Frontier, visited: set<Pos>,
                   parents: map<Pos, Option<Pos>>)
    requires Layered(l, start, f, visited, parents)
    requires f.head < |f.d| && Expanded(l, f.d[f.head], 4, f.depth)
    ensures Layered(l, start, Popped(f), visited, parents)
  {
    assert f.depth[f.d[f.head]] == f.level;
    DequeuedPop(l, f);
    QueueDepthsPop(f);
  }

  /** The cell leaving the queue joins the dequeued cells, none of which lies deeper than
      the queue. */
  lemma DequeuedPop(l: Layout, f: Frontier)
    requires 0 <= f.head < |f.d| && forall i :: 0 <= i < |f.d| ==> f.d[i] in f.depth
    requires f.depth[f.d[f.head]] == f.level && Expanded(l, f.d[f.head], 4, f.depth)
    requires forall i :: 0 <= i < f.head ==> f.depth[f.d[i]] <= f.level && Expanded(l, f.d[i], 4, f.depth)
    ensures var f' := Popped(f);
      forall i :: 0 <= i < f'.head ==> f'.depth[f'.d[i]] <= f'.level && Expanded(l, f'.d[i], 4, f'.depth)
  {
  }

  /** Once the head leaves, the queue still holds the shallower level first: if the head was
      the last of its level, the deeper level becomes the shallower one. */
  lemma QueueDepthsPop(f: Frontier)
    requires 0 <= f.head < f.split <= |f.d|
    requires forall i :: f.head <= i < |f.d| ==> f.d[i] in f.depth
    requires forall i :: f.head <= i < |f.d| ==>
      f.depth[f.d[i]] == if i < f.split then f.level else f.level + 1
    ensures var f' := Popped(f);
      (f'.head < |f'.d| ==> f'.head < f'.split) &&
      forall i :: f'.head <= i < |f'.d| ==>
        f'.depth[f'.d[i]] == if i < f'.split then f'.level else f'.level + 1
  {
    if f.head + 1 == f.split && f.split < |f.d| {
      assert forall i :: f.head + 1 <= i < |f.d| ==> f.depth[f.d[i]] == f.level + 1;
    }
  }

  /** No discovered cell lies more than one level below the queue's head. */
  lemma LayeredBound(l: Layout, start: Pos, f: Frontier, visited: set<Pos>,
                     parents: map<Pos, Option<Pos>>, c: Pos)
    requires Layered(l, start, f, visited, parents)
    requires f.head < |f.d| && c in visited
    ensures f.depth[c] <= f.depth[f.d[f.head]] + 1
  {
    var i := ElementsIndex(f.d, c);
  }

  /** Every key of the parent tree is reachable from the root, along its parent chain. */
  lemma {:induction false} TreeReachable(l: Layout, start: Pos, visited: set<Pos>,
                                         parents: map<Pos, Option<Pos>>, depth: map<Pos, nat>, c: Pos)
    requires ParentTree(l, start, visited, parents, depth) && c in visited
    ensures Reachable(l, start, c)
    decreases depth[c]
  {
    if c == start {
      ReachableSelf(l, start);
    } else {
      var p := parents[c].value;
      TreeReachable(l, start, visited, parents, depth, p);
      ReachableStep(l, start, p, c);
    }
  }

  /** A walk from the start no longer than the depth of the queue's head ends on a
      discovered cell, no deeper than the walk is long. */
  lemma {:induction false} ShortWalksDiscovered(l: Layout, start: Pos, f: Frontier, visited: set<Pos>,
                                                parents: map<Pos, Option<Pos>>, w: seq<Pos>)
    requires Layered(l, start, f, visited, parents) && f.head < |f.d|
    requires IsWalk(l, w) && w[0] == start && |w| - 1 <= f.level
    ensures w[|w| - 1] in visited && f.depth[w[|w| - 1]] <= |w| - 1
  {
    if |w| > 1 {
      var u := w[..|w| - 1];
      assert IsWalk(l, u);
      ShortWalksDiscovered(l, start, f, visited, parents, u);
      var c := w[|w| - 2];
      assert c == u[|u| - 1];
      var i := ElementsIndex(f.d, c);
      assert i < f.head;
      var k := AdjacentMove(c, w[|w| - 1]);
      assert Expanded(l, f.d[i], 4, f.depth);
    }
  }

  /** With the goal at the head of the queue, a walk to it of one cell per level is a
      shortest walk, and the goal is reachable. */
  lemma Shortest(l: Layout, start: Pos, goal: Pos, f: Frontier, visited: set<Pos>,
                 parents: map<Pos, Option<Pos>>, route: seq<Pos>)
    requires Layered(l, start, f, visited, parents) && f.head < |f.d| && f.d[f.head] == goal
    requires IsWalk(l, route) && route[0] == start && route[|route| - 1] == goal
    requires |route| == f.depth[goal] + 1
    ensures Reachable(l, start, goal)
    ensures forall w :: IsWalk(l, w) && w[0] == start && w[|w| - 1] == goal ==> |route| <= |w|
  {
    assert f.depth[goal] == f.level;
    forall w | IsWalk(l, w) && w[0] == start && w[|w| - 1] == goal
      ensures |route| <= |w|
    {
      if |w| - 1 < f.level {
        ShortWalksDiscovered(l, start, f, visited, parents, w);
      }
    }
  }

  /** With the queue empty, the discovered cells are exactly the cells reachable from the
      start. */
  lemma Exhausted(l: Layout, start: Pos, f: Frontier, visited: set<Pos>,
                  parents: map<Pos, Option<Pos>>)
    requires Layered(l, start, f, visited, parents) && f.head == |f.d|
    ensures forall c :: c in visited <==> Reachable(l, start, c)
  {
    forall c, k | c in visited && 0 <= k < 4 && Passable(l, Neighbour(c, k))
      ensures Neighbour(c, k) in visited
    {
      var i := ElementsIndex(f.d, c);
      assert Expanded(l, f.d[i], 4, f.depth);
    }
    assert ClosedIn(l, visited, visited);
    forall c
      ensures c in visited <==> Reachable(l, start, c)
    {
      if c in visited {
        TreeReachable(l, start, visited, parents, f.depth, c);
      } else {
        ClosedSetUnreachable(l, visited, start, c);
      }
    }
  }

  /** A repetition-free sequence has as many entries as the set of its entries. */
  lemma {:induction false} DistinctCount(d: seq<Pos>)
    requires forall i, j :: 0 <= i < j < |d| ==> d[i] != d[j]
    ensures |Elements(d)| == |d|
  {
    if d != [] {
      var u, x := d[..|d| - 1], d[|d| - 1];
      assert forall i :: 0 <= i < |u| ==> u[i] == d[i];
      DistinctCount(u);
      assert x !in Elements(u) by {
        if x in Elements(u) {
          var i := ElementsIndex(u, x);
        }
      }
    }
  }

  /** An exploration trace of the cells `visited`: it numbers them 1, 2, 3, ... starting
      with the start cell, and names each of them exactly once. */
  ghost predicate Trace(e: seq<(int, Pos)>, start: Pos, visited: set<Pos>) {
    |e| == |visited| && |e| > 0 && e[0] == (1, start) &&
    (forall i :: 0 <= i < |e| ==> e[i].0 == i + 1 && e[i].1 in visited) &&
    (forall i, j :: 0 <= i < j < |e| ==> e[i].1 != e[j].1)
  }

  /** The trace numbers the discovered cells 1, 2, 3, ... in discovery order, each once. */
  lemma TraceFacts(l: Layout, start: Pos, f: Frontier, visited: set<Pos>,
                   parents: map<Pos, Option<Pos>>, e: seq<(int, Pos)>, order: int)
    requires Layered(l, start, f, visited, parents) && order == |f.d| && e == Numbered(f.d)
    ensures order == |e| && Trace(e, start, visited)
  {
    NumberedEntries(f.d);
    DistinctCount(f.d);
    forall i | 0 <= i < |e|
      ensures e[i].1 in visited
    {
      ElementsHas(f.d, i);
    }
  }

  /** Dequeuing a cell leaves the rest of the queue. */
  lemma PoppedQueue(f: Frontier)
    ensures Drop(Popped(f).d, Popped(f).head) == Drop(f.d, f.head + 1)
  {
  }

  /** The entries of `d` from index `h` on: the queue, when `d` is the discovery order and
      `h` the number of cells dequeued. */
  ghost function Drop(d: seq<Pos>, h: int): seq<Pos>
    decreases |d|
  {
    if h <= 0 || d == [] then d else Drop(d[1..], h - 1)
  }

  lemma {:induction false} DropIsSlice(d: seq<Pos>, h: int)
    requires 0 <= h <= |d|
    ensures Drop(d, h) == d[h..]
    decreases |d|
  {
    if h > 0 {
      DropIsSlice(d[1..], h - 1);
      assert d[1..][h - 1..] == d[h..];
    }
  }

  /** The queue is empty exactly when every discovered cell has been dequeued; otherwise
      its front is the next cell in discovery order. */
  lemma DropFront(d: seq<Pos>, h: int)
    requires 0 <= h <= |d|
    ensures Drop(d, h) == [] <==> h == |d|
    ensures h < |d| ==> Drop(d, h)[0] == d[h] && Drop(d, h)[1..] == Drop(d, h + 1)
  {
    DropIsSlice(d, h);
    if h < |d| {
      DropIsSlice(d, h + 1);
      assert d[h..][1..] == d[h + 1..];
    }
  }

  /** Discovering a cell appends it to the queue. */
  lemma DropAppend(d: seq<Pos>, h: int, x: Pos)
    requires 0 <= h <= |d|
    ensures Drop(d + [x], h) == Drop(d, h) + [x]
  {
    DropIsSlice(d, h);
    DropIsSlice(d + [x], h);
    assert (d + [x])[h..] == d[h..] + [x];
  }

  /** The search state apart from the grid: the frontier is layered, the goal has not been
      dequeued and the trace `e` numbers the discovered cells in order. */
  ghost predicate State(l: Layout, start: Pos, goal: Pos, f: Frontier, visited: set<Pos>,
                        parents: map<Pos, Option<Pos>>, order: int, e: seq<(int, Pos)>)
  {
    Layered(l, start, f, visited, parents) &&
    (forall i :: 0 <= i < f.head ==> f.d[i] != goal) &&
    order == |f.d| && e == Numbered(f.d)
  }

  /** Marking one more cell that is not the start extends the marked set by that cell. */
  lemma MarkedGrows(visited: set<Pos>, start: Pos, next: Pos)
    requires start in visited && next !in visited
    ensures (visited - {start}) + {next} == (visited + {next}) - {start}
  {
  }

  lemma StateStart(l: Layout, start: Pos, goal: Pos)
    ensures State(l, start, goal, Initial(start), {start}, map[start := None], 1, [(1, start)])
  {
    LayeredStart(l, start);
    assert Numbered([start]) == [(1, start)];
  }

  lemma StateDiscover(l: Layout, start: Pos, goal: Pos, f: Frontier, visited: set<Pos>,
                      parents: map<Pos, Option<Pos>>, order: int, e: seq<(int, Pos)>, p: Pos, next: Pos)
    requires State(l, start, goal, f, visited, parents, order, e)
    requires f.head < |f.d| && f.d[f.head] == p && Adjacent(p, next) && Passable(l, next) && next !in visited
    ensures State(l, start, goal, Pushed(f, next), visited + {next}, parents[next := Some(p)],
                  order + 1, e + [(order + 1, next)])
  {
    LayeredDiscover(l, start, f, visited, parents, next);
    NumberedAppend([], f.d, next);
  }

  lemma StatePop(l: Layout, start: Pos, goal: Pos, f: Frontier, visited: set<Pos>,
                 parents: map<Pos, Option<Pos>>, order: int, e: seq<(int, Pos)>)
    requires State(l, start, goal, f, visited, parents, order, e)
    requires f.head < |f.d| && f.d[f.head] != goal && Expanded(l, f.d[f.head], 4, f.depth)
    ensures State(l, start, goal, Popped(f), visited, parents, order, e)
  {
    var f' := Popped(f);
    LayeredPop(l, start, f, visited, parents);
    PassedOver(f.d, f.head, goal);
    StateIntro(l, start, goal, f', visited, parents, order, e);
  }

  /** The cells before `head`, and the one at `head`, all differ from the goal. */
  lemma PassedOver(d: seq<Pos>, head: int, goal: Pos)
    requires 0 <= head < |d| && d[head] != goal
    requires forall i :: 0 <= i < head ==> d[i] != goal
    ensures forall i :: 0 <= i < head + 1 ==> d[i] != goal
  {
  }

  lemma StateIntro(l: Layout, start: Pos, goal: Pos, f: Frontier, visited: set<Pos>,
                   parents: map<Pos, Option<Pos>>, order: int, e: seq<(int, Pos)>)
    requires Layered(l, start, f, visited, parents)
    requires forall i :: 0 <= i < f.head ==> f.d[i] != goal
    requires order == |f.d| && e == Numbered(f.d)
    ensures State(l, start, goal, f, visited, parents, order, e)
  {
  }

  /** What the search has established when it stops, either with the goal at the head of
      the queue and `route` rebuilt from the parents, or with the queue empty. */
  lemma Outcome(l: Layout, start: Pos, goal: Pos, f: Frontier, visited: set<Pos>,
                parents: map<Pos, Option<Pos>>, order: int, e: seq<(int, Pos)>,
                found: bool, route: seq<Pos>)
    requires State(l, start, goal, f, visited, parents, order, e)
    requires found ==> f.head < |f.d| && f.d[f.head] == goal
    requires found ==> IsWalk(l, route) && route[0] == start && route[|route| - 1] == goal
    requires found ==> |route| == f.depth[goal] + 1
    requires !found ==> f.head == |f.d| && route == []
    ensures found <==> Reachable(l, start, goal)
    ensures found ==> forall w :: IsWalk(l, w) && w[0] == start && w[|w| - 1] == goal ==> |route| <= |w|
    ensures !found ==> forall c :: c in visited <==> Reachable(l, start, c)
    ensures ParentTree(l, start, visited, parents, f.depth)
    ensures order == |e| && Trace(e, start, visited)
  {
    if found {
      Shortest(l, start, goal, f, visited, parents, route);
    } else {
      Exhausted(l, start, f, visited, parents);
      if goal in visited {
        var i := ElementsIndex(f.d, goal);
      }
    }
    TraceFacts(l, start, f, visited, parents, e, order);
  }

  /** `r` follows the parent map from a root: its first cell has no parent, and each later
      cell's parent is the cell before it. */
  ghost predicate ParentChain(parents: map<Pos, Option<Pos>>, r: seq<Pos>) {
    |r| > 0 && r[0] in parents && parents[r[0]] == None &&
    forall i :: 0 < i < |r| ==> r[i] in parents && parents[r[i]] == Some(r[i - 1])
  }

  /** `r`, read goal first, follows the parent map one link per step. */
  ghost predicate ChainBack(parents: map<Pos, Option<Pos>>, r: seq<Pos>) {
    (forall i :: 0 <= i < |r| ==> r[i] in parents) &&
    forall i :: 0 <= i < |r| - 1 ==> parents[r[i]] == Some(r[i + 1])
  }

  lemma ChainBackExtends(parents: map<Pos, Option<Pos>>, r: seq<Pos>, c: Pos)
    requires ChainBack(parents, r) && c in parents
    requires r != [] ==> parents[r[|r| - 1]] == Some(c)
    ensures ChainBack(parents, r + [c])
  {
  }

  /** A goal-first chain that ends at a root, read backwards, is a parent chain. */
  lemma ChainBackReversed(parents: map<Pos, Option<Pos>>, r: seq<Pos>)
    requires ChainBack(parents, r) && r != [] && parents[r[|r| - 1]] == None
    ensures ParentChain(parents, Reversed(r))
  {
  }

  /** A parent chain followed one more step stays a chain of passable steps. */
  lemma ChainExtends(l: Layout, r: seq<Pos>, c: Pos)
    requires forall i :: 0 <= i < |r| - 1 ==> Adjacent(r[i + 1], r[i]) && Passable(l, r[i])
    requires r != [] ==> Adjacent(c, r[|r| - 1]) && Passable(l, r[|r| - 1])
    ensures forall i :: 0 <= i < |r + [c]| - 1 ==>
      Adjacent((r + [c])[i + 1], (r + [c])[i]) && Passable(l, (r + [c])[i])
  {
  }

  class Player {
    const maze: Maze
    var visited: set<Pos>
    var explorationOrder: seq<(int, Pos)>
    var order: int
    var parents: map<Pos, Option<Pos>>

    constructor(maze: Maze)
      ensures this.maze == maze && visited == {} && explorationOrder == [] && order == 0
      ensures parents == map[]
    {
      this.maze := maze;
      visited := {};
      explorationOrder := [];
      order := 0;
      parents := map[];
    }

    /** The search state at the head of each iteration against the layout `l` and the grid
        contents `g0` it started from: the goal has not been dequeued, the trace numbers the
        discovered cells in order, and every discovered cell but the start is marked. */
    ghost predicate Inv(l: Layout, g0: map<Pos, Cell>, f: Frontier)
      reads this, maze.grid
    {
      maze.Valid() && maze.Shape() == l &&
      State(l, maze.start, maze.goal, f, visited, parents, order, explorationOrder) &&
      MarkedOver(maze.grid, g0, visited - {maze.start})
    }

    /** Lines 20-24 of maze6.py: the start is queued, visited, numbered 1 and given no
        parent; it is not marked. */
    method Begin(ghost l: Layout, ghost g0: map<Pos, Cell>)
      requires maze.Valid() && maze.Shape() == l && MarkedOver(maze.grid, g0, {})
      requires visited == {} && explorationOrder == [] && order == 0 && parents == map[]
      modifies this
      ensures Inv(l, g0, Initial(maze.start))
    {
      visited := visited + {maze.start};
      order := order + 1;
      explorationOrder := explorationOrder + [(order, maze.start)];
      parents := parents[maze.start := None];
      StateStart(l, maze.start, maze.goal);
      assert visited - {maze.start} == {};
    }

    /** Lines 38-45 of maze6.py: a fresh neighbour of the head `p` is queued, visited,
        marked, numbered and given `p` as its parent. */
    method Discover(next: Pos, p: Pos, queue: seq<Pos>, ghost l: Layout, ghost g0: map<Pos, Cell>,
                    ghost f: Frontier)
      returns (queue': seq<Pos>, ghost f': Frontier)
      requires Inv(l, g0, f) && f.head < |f.d| && f.d[f.head] == p && queue == Drop(f.d, f.head + 1)
      requires Adjacent(p, next) && Passable(l, next) && next !in visited
      modifies this, maze.grid
      ensures f' == Pushed(f, next)
      ensures Inv(l, g0, f') && queue' == Drop(f'.d, f'.head + 1)
      ensures visited == old(visited) + {next}
      ensures parents == old(parents)[next := Some(p)]
      ensures order == old(order) + 1 && explorationOrder == old(explorationOrder) + [(order, next)]
    {
      f' := Pushed(f, next);
      maze.MarkVisited(next, g0, visited - {maze.start});
      MarkedGrows(visited, maze.start, next);
      Enqueue(next, p, l, g0, f);
      queue' := queue + [next];
      DropAppend(f.d, f.head + 1, next);
    }

    /** The bookkeeping of a discovery: `next` is visited, numbered with the next number and
        given the head of the queue as its parent. */
    method Enqueue(next: Pos, p: Pos, ghost l: Layout, ghost g0: map<Pos, Cell>, ghost f: Frontier)
      requires maze.Valid() && maze.Shape() == l
      requires State(l, maze.start, maze.goal, f, visited, parents, order, explorationOrder)
      requires f.head < |f.d| && f.d[f.head] == p && Adjacent(p, next) && Passable(l, next) && next !in visited
      requires MarkedOver(maze.grid, g0, (visited + {next}) - {maze.start})
      modifies this
      ensures Inv(l, g0, Pushed(f, next))
      ensures visited == old(visited) + {next}
      ensures parents == old(parents)[next := Some(p)]
      ensures order == old(order) + 1 && explorationOrder == old(explorationOrder) + [(order, next)]
    {
      StateDiscover(l, maze.start, maze.goal, f, visited, parents, order, explorationOrder, p, next);
      visited := visited + {next};
      order := order + 1;
      explorationOrder := explorationOrder + [(order, next)];
      parents := parents[next := Some(p)];
    }

    /** Lines 37-45 of maze6.py for the move `k` from the head `p`: its target is
        discovered when it is in bounds, not a wall and not yet visited. */
    method TryMove(p: Pos, k: int, queue: seq<Pos>, ghost l: Layout, ghost g0: map<Pos, Cell>, ghost f: Frontier)
      returns (queue': seq<Pos>, ghost f': Frontier)
      requires 0 <= k < 4
      requires Inv(l, g0, f) && f.head < |f.d| && f.d[f.head] == p && queue == Drop(f.d, f.head + 1)
      requires Expanded(l, p, k, f.depth)
      modifies this, maze.grid
      ensures Inv(l, g0, f') && queue' == Drop(f'.d, f.head + 1)
      ensures Expanded(l, p, k + 1, f'.depth)
      // a target in bounds, not a wall and not yet visited is discovered with `p` as its
      // parent; any other move changes nothing
      ensures var next := Neighbour(p, k);
        if Passable(l, next) && next !in old(visited) then
          f' == Pushed(f, next) && queue' == queue + [next] && visited == old(visited) + {next} &&
          parents == old(parents)[next := Some(p)] &&
          order == old(order) + 1 && explorationOrder == old(explorationOrder) + [(order, next)]
        else
          f' == f && queue' == queue && visited == old(visited) && parents == old(parents) &&
          order == old(order) && explorationOrder == old(explorationOrder)
    {
      queue', f' := queue, f;
      var next := Neighbour(p, k);
      maze.CanStepIff(next);
      if maze.IsWithinBounds(next) && !maze.IsWall(next) && next !in visited {
        NeighbourAdjacent(p, k);
        ExpandedPush(l, maze.start, f, visited, parents, k);
        queue', f' := Discover(next, p, queue, l, g0, f);
        DropAppend(f.d, f.head + 1, next);
      } else {
        ExpandedKnown(l, maze.start, f, visited, parents, k);
      }
    }

    /** Lines 36-45 of maze6.py: the head `p`, just dequeued, has each of its four moves
        tried in order. Either nothing was discovered or the unvisited
        part of `cells` shrank. */
    method ExpandCell(p: Pos, queue: seq<Pos>, ghost cells: set<Pos>, ghost l: Layout,
                      ghost g0: map<Pos, Cell>, ghost f: Frontier)
      returns (queue': seq<Pos>, ghost f': Frontier)
      requires Inv(l, g0, f) && f.head < |f.d| && f.d[f.head] == p && queue == Drop(f.d, f.head + 1)
      requires p != maze.goal
      requires forall q :: InRange(l.height, l.width, q) ==> q in cells
      modifies this, maze.grid
      ensures Inv(l, g0, f') && queue' == Drop(f'.d, f'.head)
      ensures (visited == old(visited) && queue' == queue) || |cells - visited| < |cells - old(visited)|
      // the head leaves the queue, whose tail gains the head's fresh neighbours, each
      // visited, parented by the head and recorded under the next number
      ensures f'.head == f.head + 1 && f'.d == f.d + Fresh(l, p, 0, old(visited))
      ensures queue' == queue + Fresh(l, p, 0, old(visited))
      ensures visited == old(visited) + Elements(Fresh(l, p, 0, old(visited)))
      ensures parents == Adopted(old(parents), Fresh(l, p, 0, old(visited)), p)
      ensures order == old(order) + |Fresh(l, p, 0, old(visited))|
      ensures explorationOrder == old(explorationOrder) + NumberedFrom(old(order), Fresh(l, p, 0, old(visited)))
    {
      ghost var g;
      queue', g := TryMoves(p, queue, cells, l, g0, f);
      StatePop(l, maze.start, maze.goal, g, visited, parents, order, explorationOrder);
      PoppedQueue(g);
      f' := Popped(g);
    }

    /** Lines 37-45 of maze6.py for all four moves from the head `p`. */
    method TryMoves(p: Pos, queue: seq<Pos>, ghost cells: set<Pos>, ghost l: Layout,
                    ghost g0: map<Pos, Cell>, ghost f: Frontier)
      returns (queue': seq<Pos>, ghost f': Frontier)
      requires Inv(l, g0, f) && f.head < |f.d| && f.d[f.head] == p && queue == Drop(f.d, f.head + 1)
      requires forall q :: InRange(l.height, l.width, q) ==> q in cells
      modifies this, maze.grid
      ensures Inv(l, g0, f') && f'.head == f.head && f'.head < |f'.d| && f'.d[f'.head] == p
      ensures queue' == Drop(f'.d, f'.head + 1) && Expanded(l, p, 4, f'.depth)
      ensures (visited == old(visited) && queue' == queue) || |cells - visited| < |cells - old(visited)|
      // the discoveries are the fresh neighbours of `p`, in East, South, West, North order:
      // appended to the discovery order and the queue, visited, given `p` as parent and
      // recorded under the next numbers
      ensures f'.d == f.d + Fresh(l, p, 0, old(visited))
      ensures queue' == queue + Fresh(l, p, 0, old(visited))
      ensures visited == old(visited) + Elements(Fresh(l, p, 0, old(visited)))
      ensures parents == Adopted(old(parents), Fresh(l, p, 0, old(visited)), p)
      ensures order == old(order) + |Fresh(l, p, 0, old(visited))|
      ensures explorationOrder == old(explorationOrder) + NumberedFrom(old(order), Fresh(l, p, 0, old(visited)))
    {
      queue', f' := queue, f;
      ghost var discovered := Fresh(l, p, 0, old(visited));
      var k := 0;
      while k < 4
        invariant 0 <= k <= 4
        invariant Inv(l, g0, f') && f'.head == f.head && |f.d| <= |f'.d| && f'.d[f.head] == p
        invariant queue' == Drop(f'.d, f.head + 1)
        invariant Expanded(l, p, k, f'.depth)
        invariant old(visited) <= visited
        invariant (visited == old(visited) && queue' == queue) || |cells - visited| < |cells - old(visited)|
        // what is discovered so far, followed by what the remaining moves discover, is
        // what the four moves discover
        invariant Remaining(l, p, k, visited, f'.d, queue', parents, f.d + discovered, queue + discovered,
                            Adopted(old(parents), discovered, p))
      {
        ghost var before, d, q, parents0 := visited, f'.d, queue', parents;
        queue', f' := TryMove(p, k, queue', l, g0, f');
        if Passable(l, Neighbour(p, k)) && Neighbour(p, k) !in before {
          UnvisitedShrinks(cells, old(visited), visited, Neighbour(p, k));
        }
        RemainingStep(l, p, k, before, d, q, parents0, visited, f'.d, queue', parents,
                      f.d + discovered, queue + discovered, Adopted(old(parents), discovered, p));
        k := k + 1;
      }
      StateGrows(l, maze.start, maze.goal, f, old(visited), old(parents), old(order), old(explorationOrder),
                 f', visited, parents, order, explorationOrder, discovered);
    }

    /** maze6.py:79-84: the parent chain from `goal` back to the start, read backwards. It
        is a walk from the start to `goal` with one cell per level of `goal`. */
    method ComputeShortestPath(goal: Pos, ghost depth: map<Pos, nat>) returns (route: seq<Pos>)
      requires ParentTree(maze.Shape(), maze.start, visited, parents, depth) && goal in visited
      ensures IsWalk(maze.Shape(), route) && route[0] == maze.start && route[|route| - 1] == goal
      ensures |route| == depth[goal] + 1
      // the route is the parent chain: the start has no parent, and each later cell's
      // parent is the cell before it
      ensures ParentChain(parents, route)
    {
      ghost var l := maze.Shape();
      var path: seq<Pos> := [];
      var current: Option<Pos> := Some(goal);
      while current != None
        invariant current.Some? ==> current.value in parents && |path| + depth[current.value] == depth[goal]
        invariant current.None? ==> |path| == depth[goal] + 1 && path[|path| - 1] == maze.start
        invariant path == [] ==> current == Some(goal)
        invariant path != [] ==> path[0] == goal
        invariant forall i :: 0 <= i < |path| - 1 ==> Adjacent(path[i + 1], path[i]) && Passable(l, path[i])
        invariant path != [] && current.Some? ==>
          Adjacent(current.value, path[|path| - 1]) && Passable(l, path[|path| - 1])
        invariant ChainBack(parents, path)
        invariant path != [] ==> current == parents[path[|path| - 1]]
        decreases if current.Some? then depth[current.value] + 1 else 0
      {
        ChainExtends(l, path, current.value);
        ChainBackExtends(parents, path, current.value);
        path := path + [current.value];
        current := parents[current.value];
      }
      ChainBackReversed(parents, path);
      ReversedReturnWalk(l, path, maze.start, goal);
      route := Reversed(path);
    }

    /** maze6.py:16-50. True exactly when the goal is reachable from the start, with the
        route rebuilt from the parents being a shortest walk to it; when the queue runs
        empty the visited cells are exactly the cells reachable from the start. The trace
        numbers every discovered cell once, from 1, and the parent map is a tree of
        passable steps rooted at the start. */
    method Bfs() returns (found: bool, route: seq<Pos>, ghost depth: map<Pos, nat>)
      requires maze.Valid()
      requires visited == {} && explorationOrder == [] && order == 0 && parents == map[]
      modifies this, maze.grid
      ensures maze.Valid()
      ensures found <==> Reachable(maze.Shape(), maze.start, maze.goal)
      ensures found ==> IsWalk(maze.Shape(), route) && route[0] == maze.start && route[|route| - 1] == maze.goal
      ensures found ==> forall w :: IsWalk(maze.Shape(), w) && w[0] == maze.start && w[|w| - 1] == maze.goal ==>
        |route| <= |w|
      ensures found ==> ParentChain(parents, route)
      ensures !found ==> route == [] && forall c :: c in visited <==> Reachable(maze.Shape(), maze.start, c)
      ensures ParentTree(maze.Shape(), maze.start, visited, parents, depth)
      ensures order == |explorationOrder| && Trace(explorationOrder, maze.start, visited)
      ensures MarkedOver(maze.grid, old(Snapshot(maze.grid)), visited - {maze.start})
    {
      ghost var l, g0 := maze.Shape(), old(Snapshot(maze.grid));
      Begin(l, g0);
      ghost var f;
      found, f := Search(l, g0);
      depth := f.depth;
      if found {
        route := ComputeShortestPath(maze.goal, depth);
      } else {
        route := [];
      }
      Outcome(maze.Shape(), maze.start, maze.goal, f, visited, parents, order, explorationOrder, found, route);
    }

    /** maze6.py:26-45: the queue loop. It stops with the goal at the head of the queue, or
        with the queue empty and the goal never discovered. */
    method Search(ghost l: Layout, ghost g0: map<Pos, Cell>) returns (found: bool, ghost f: Frontier)
      requires Inv(l, g0, Initial(maze.start))
      modifies this, maze.grid
      ensures Inv(l, g0, f)
      ensures found ==> f.head < |f.d| && f.d[f.head] == maze.goal
      ensures !found ==> f.head == |f.d|
    {
      var queue := [maze.start];
      f := Initial(maze.start);
      ghost var cells := CellsBound(l.height, l.width);
      while queue != []
        invariant Inv(l, g0, f) && queue == Drop(f.d, f.head)
        decreases |cells - visited|, |queue|
      {
        DropFront(f.d, f.head);
        var p := queue[0];
        queue := queue[1..];
        if maze.IsGoal(p) {
          return true, f;
        }
        queue, f := ExpandCell(p, queue, cells, l, g0, f);
      }
      DropFront(f.d, f.head);
      return false, f;
    }
  }
}
