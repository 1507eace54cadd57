# Grid maze explorers and generator, modelled in Dafny

This project models the six scripts of the `algo_labyrinthe` repository. They all work on
one kind of object: a rectangular grid maze with a start cell and a goal cell.

- **`Grid`** (`grid.dfy`) holds what the scripts share.
  - The cell states: open, wall, `'S'`, `'G'` and the visited marker `'x'`.
  - The two source encodings of a wall: the integer `1` in the hand-written grids, `'#'` in generated ones.
  - The four moves, tried in the order East, South, West, North.
  - The `Maze` object with its bounds, wall and goal queries, and the marker write.
  - The reachability notions every search is specified against: walks over passable cells, `Reachable`, and sets closed under steps.
- **`ReturnPathDfs`** (`return_path_dfs.dfy`) is the recursive depth-first search of `maze.py`. It records the path goal first, as the successful calls return.
- **`StackDfs`** (`stack_dfs.dfy`) is the depth-first search of `maze3.py`. It runs over an explicit stack with a forward and a backward mode, and keeps a numbered exploration trace.
- **`TraceDfs`** (`trace_dfs.dfy`) is the recursive depth-first search of `maze4.py`, copied unchanged into `maze8.py`. It keeps a stack of the current branch and records each cell on entry and again when it is abandoned.
- **`Bfs`** (`bfs.dfy`) is the breadth-first search of `maze6.py`, repeated in `maze7.py`. It has a FIFO queue, a visited set, a parent map and path reconstruction from the parents.
- **`Generation`** (`generation.dfy`) is the maze generator of `maze7.py` and `maze8.py`.
  - Frontier-wall carving and the breadth-first solvability test.
  - The bounded attempt loop of `maze7.py` and the retry counter of `maze8.py`.
  - The random-wall fallback grid.
- **`Fixture`** (`fixture.dfy`) is the hand-written 6×6 grid the scripts hand to their explorers. It proves that the goal is reachable there and that every walk to it has at least ten cells. So the route the breadth-first search rebuilds has exactly ten cells.

Each explorer is a class with the source's fields (`visited`, `path`, `exploration_order`,
`order`, `parents`). Its loops and recursion are methods whose contracts tie the outcome to
reachability:

- every explorer returns true exactly when the goal is reachable from the start;
- the depth-first explorers leave a walk from the start toward the goal on success;
- the breadth-first explorer rebuilds a walk no longer than any other walk to the goal, and on failure its visited set is exactly the reachable component of the start;
- the traces are numbered 1, 2, 3, … without gaps;
- only visited cells are overwritten with the marker, and walls never are.

Properties of the code that the proofs make explicit:

- **Carving never opens a cell.** `_can_be_path` counts only neighbours holding `'0'`, and a fresh grid holds none: only `'#'`, `'S'` and `'G'`. So `_generate_paths` leaves the grid as it was. A carved grid is therefore solvable exactly when the goal is the start or next to it.
  - `Generation.MazeGenerator.GenerateMaze` proves what follows for `maze7.py`: the first attempt succeeds or all 100 fail and the fallback grid is returned.
  - `Generation.MazeGenerator.GenerateMazeWithRetries` proves the same for `maze8.py`: any grid kept without the fallback has its goal on or next to the start.
- **`maze8.py` falls back even after a successful last retry.** It falls back whenever its retry counter reaches 100, even when the hundredth retry produced a solvable grid. `GenerateMazeWithRetries` states the fallback for `attempts == MaxAttempts` without asking whether that grid was solvable.

Where the scripts' evident intent and their code differ, the model follows the code:

- the generated maze is not solvable by construction; only the attempt loop and the fallback stand between the carving and an unsolvable grid;
- a goal equal to the start is accepted, and the goal, written last, overwrites `'S'`.

Nondeterministic choice (`:|`) stands for the random picks. `int(width * height * 0.3)` is the
generator's `budget`, an opaque natural number.

## Model

| member | source | states |
|---|---|---|
| Grid.NeighbourAdjacent | maze.py:59 | each of the four moves leads to a cell one horizontal or vertical step away |
| Grid.AdjacentMove | maze.py:78-82 | every cell one step away is the target of exactly one of the four moves, so a move loop looks at each neighbour once |
| Grid.FromFixture | maze.py:16-20 | in a hand-written grid a cell is a wall exactly when it holds the integer 1 |
| Grid.FromGenerated | maze7.py:87-88 | in a generated grid a cell is a wall exactly when it holds `'#'` |
| Grid.MarkersArePassable | maze3.py:84-87 | `'S'`, `'G'` and the marker `'x'` are passable under both encodings, and both read them alike |
| Grid.ReachableStep | maze.py:82-84 | a step onto a passable neighbour of a reachable cell reaches that neighbour |
| Grid.ClosedSetUnreachable | maze.py:78-88 | a cell outside a set that contains the start and holds every passable neighbour of its cells is unreachable; this is why an exhausted search proves there is no path |
| Grid.Reversed | maze.py:97 | `path[::-1]`: same length, entry i is entry n-1-i of the input |
| Grid.ReversedReturnWalk | maze.py:97 | a path recorded goal first, read backwards, is a walk from the start to the goal |
| Grid.NumberedEntries | maze3.py:68-69 | the numbered trace gives entry i the number i+1 and the i-th recorded position |
| Grid.NumberedAppend | maze3.py:89-90 | recording one more position appends the next number |
| Grid.Maze.constructor | maze.py:2-8 | the maze keeps the grid, start and goal it is given, and its wall layout is that of the grid |
| Grid.Maze.IsWithinBounds | maze.py:10-14 | a position is in bounds only in a grid with at least one row and one column |
| Grid.Maze.IsWall | maze.py:16-20 | on a valid maze, the wall test of an in-range cell agrees with the wall layout |
| Grid.Maze.IsGoal | maze.py:22-26 | true exactly at the goal's coordinates; the test reads no cell, so a marked goal cell still counts |
| Grid.Maze.CanStepIff | maze.py:82 | "in bounds and not a wall" holds exactly for the passable cells of the layout |
| Grid.Maze.MarkVisited | maze3.py:87 | writing `'x'` on a passable cell keeps the walls and adds that cell to the marked ones |
| ReturnPathDfs.ReturnWalkExtends | maze.py:84-86 | appending the caller's position to a return walk ending at its neighbour gives a return walk ending at the caller |
| ReturnPathDfs.Player.constructor | maze.py:52-59 | a new player has an empty visited set and an empty path |
| ReturnPathDfs.Player.Dfs | maze.py:61-88 | the goal is tested before marking and never visited; every other cell entered is visited and passable; on failure the path is untouched and the visited cells are closed; on success the path grew by a walk from the goal back to the position, all of whose cells but the goal were visited by the call, and which comes back through the first move, in East, South, West, North order, whose call succeeded; every earlier move was seen in the visited set as it stood when that move began, and the cells that set gained since the position was entered are closed, so those earlier calls failed; the walk's other cells were all visited after that moment, and no cell repeats |
| ReturnPathDfs.Player.TryMove | maze.py:78-86 | a neighbour out of bounds, on a wall or already visited gives false and changes nothing; otherwise it is searched, and on failure it has been visited; on success the walk found from it is followed by the position |
| ReturnPathDfs.DetourRoute | maze.py:78-98 | on the 3×3 grid with walls at (1, 2) and (2, 1), from (0, 0) to (0, 2), any outcome the search's contract admits is the route (0, 0), (0, 1), (0, 2): East is tried first and succeeds, so the detour through (1, 0) and (1, 1) is excluded |
| ReturnPathDfs.Player.FindExit | maze.py:90-98 | true exactly when the goal is reachable; the reversed path is then a walk from the start to the goal whose cells before the goal were visited, leaving the start by its first successful move in East, South, West, North order, every earlier move having failed before that move began; its cells between the start and the goal were visited by that move's call; no cell repeats; the goal is never visited |
| StackDfs.SearchPush | maze3.py:84-92 | pushing a fresh passable neighbour of the top keeps the stack a walk from the start and extends the trace by one step |
| StackDfs.SearchPop | maze3.py:95-101 | popping a top whose moves are exhausted makes it done, keeps the done cells closed, and records the new top |
| StackDfs.SearchEnds | maze3.py:102-106 | once the stack is empty every marked cell is done, so the marked cells are closed and exclude the goal |
| StackDfs.StatePush | maze3.py:84-92 | a push adds the cell to `visited` and appends it to the trace under the next number |
| StackDfs.StatePop | maze3.py:95-101 | a pop records the new top under the next number, or nothing when the stack runs empty |
| StackDfs.Player.constructor | maze3.py:51-59 | a new player has empty visited set, path and trace |
| StackDfs.Player.FirstFreshMove | maze3.py:82-94 | the first move, East, South, West, North, to a passable unvisited cell, or 4 when there is none, after seeing all earlier moves |
| StackDfs.Player.Begin | maze3.py:65-69 | the start is pushed, visited and recorded as (1, start) |
| StackDfs.Player.Step | maze3.py:80-101 | one loop iteration keeps the search state and lowers the termination measure; forward, it finds the first fresh move in East, South, West, North order and either pushes, visits, marks and records that cell or, with no fresh move, turns backward changing nothing else; backward, it pops the top, which becomes done, records the new top, and turns forward again unless the stack ran empty |
| StackDfs.Player.Advance | maze3.py:84-92 | a forward step pushes, visits, marks and records the next cell under the next number |
| StackDfs.Player.Backtrack | maze3.py:95-101 | a backward step pops the top, which becomes done, leaves `visited` alone, and records the new top under the next number, or nothing when the stack runs empty |
| StackDfs.Player.Run | maze3.py:71-106 | the loop stops with the goal on top of the stack or with the stack empty |
| StackDfs.Player.Dfs | maze3.py:61-106 | the trace is the numbered sequence of recorded steps from the start; success leaves a walk to the goal on the stack; failure empties the stack after closing the marked cells; only pushed cells get the marker |
| StackDfs.Player.FindExit | maze3.py:124-129 | true exactly when the goal is reachable, with the stack a walk from the start to the goal; the first trace entry is (1, start) |
| TraceDfs.TowardGoalExtends | maze4.py:92-95 | a caller sits below a successful call's cells on the stack, which stays a walk toward the goal |
| TraceDfs.TowardGoalReaches | maze4.py:94-95 | whatever a successful call leaves on the stack, the goal is reachable from its position |
| TraceDfs.NumberedEnds | maze4.py:72-73 | numbered records run 1, 2, 3, …, the first record is the first position and the last the last |
| TraceDfs.Player.constructor | maze4.py:53-62 | a new player has empty visited set, stack and trace, and counter 0 |
| TraceDfs.Player.Record | maze4.py:72-73 | one record raises the counter and logs the position under the new number |
| TraceDfs.Player.Enter | maze4.py:79-84 | entering a cell visits, pushes, marks and records it |
| TraceDfs.Player.TryMove | maze4.py:88-95 | a neighbour out of bounds, on a wall or already visited gives false and changes nothing, not even the trace or the grid; otherwise it is searched, and on failure it has been visited; on success the cells it left on the stack were visited by the call |
| TraceDfs.Player.Explore | maze4.py:87-95 | the move loop stops at the first move, in East, South, West, North order, whose call succeeds, every earlier move having been seen, and failed, in the visited set as it stood when that move began; the stack then continues through that move's neighbour with cells visited after that moment, none repeated; otherwise all four moves have been seen |
| TraceDfs.Player.Expand | maze4.py:79-101 | a non-goal cell is entered; on success the stack holds it and then the cells of its first successful move, every earlier move having failed before that move began, and no cell repeats; on failure it is popped and recorded a second time |
| TraceDfs.Player.Dfs | maze4.py:64-101 | the goal gets a single record and is neither visited nor pushed; a failed call leaves the stack as it found it and ends its records with its own cell; success leaves a walk toward the goal of distinct cells the call visited, going through the first move, in East, South, West, North order, whose call succeeded, every earlier move having failed before that move began |
| TraceDfs.SearchOutcome | maze4.py:123 | the top-level call's results, on an empty visited set, give the whole search's outcome: found exactly when reachable, the first move taken with every earlier move failed before it began, and no cell repeated on the stack |
| TraceDfs.Player.Launch | maze4.py:123 | the top-level call from the start records the start first and the goal or the start last, and has the search's outcome |
| TraceDfs.DetourStack | maze4.py:88-124 | on the same grid any outcome the search's contract admits leaves the stack (0, 0), (0, 1) |
| TraceDfs.Player.FindExit | maze4.py:119-124 | true exactly when the goal is reachable, the stack then leaving the start by its first successful move in East, South, West, North order, every earlier move having failed before that move began, with no cell repeated; the goal is never visited; the counter equals the number of records, numbered 1, 2, 3, … from (1, start), the last being the goal on success and the start on failure |
| Bfs.TreeDiscover | maze6.py:38-45 | a cell discovered from a visited cell joins the parent tree one level deeper |
| Bfs.TreeReachable | maze6.py:24 | every key of the parent map is reachable from the start along its parent chain |
| Bfs.ShortWalksDiscovered | maze6.py:26-45 | a walk from the start no longer than the queue's level ends on a discovered cell no deeper than the walk |
| Bfs.Shortest | maze6.py:29-34 | with the goal dequeued, a walk with one cell per level is a shortest walk |
| Bfs.Exhausted | maze6.py:47-50 | with the queue empty the visited cells are exactly the reachable ones |
| Bfs.DistinctCount | maze6.py:38-40 | a cell is queued at most once, so the discovery list is as long as the visited set |
| Bfs.TraceFacts | maze6.py:43-44 | the trace numbers the discovered cells 1, 2, 3, … from the start, each once |
| Bfs.DropFront | maze6.py:26-27 | the queue is empty exactly when every discovered cell is dequeued; otherwise its front is the next in discovery order |
| Bfs.DropAppend | maze6.py:39 | discovering a cell appends it to the queue |
| Bfs.StateDiscover | maze6.py:38-45 | a discovery keeps the search state, with the parent set to the dequeued cell and the next number recorded |
| Bfs.StatePop | maze6.py:27-45 | dequeuing an expanded non-goal cell keeps the search state |
| Bfs.Outcome | maze6.py:26-50 | the result is true exactly when the goal is reachable; the route is then shortest; otherwise the visited set is the reachable component; the parents form a tree; the trace numbers each visited cell once |
| Bfs.Player.constructor | maze6.py:5-14 | a new player has empty visited set, trace and parent map, and counter 0 |
| Bfs.Player.Begin | maze6.py:20-24 | the start is queued, visited, numbered 1 and given no parent |
| Bfs.Player.Enqueue | maze6.py:40-45 | a discovery visits the cell, numbers it and gives it the dequeued cell as parent |
| Bfs.Player.Discover | maze6.py:38-45 | a discovery appends the cell to the queue, marks it, numbers it and gives it the dequeued cell as parent |
| Bfs.Player.TryMove | maze6.py:37-45 | a target in bounds, not a wall and unvisited is discovered with the dequeued cell as parent; any other move changes nothing |
| Bfs.Player.TryMoves | maze6.py:36-45 | the discovery order and the queue grow by exactly the dequeued cell's fresh passable neighbours, once each, in East, South, West, North order; those cells are added to the visited set, given the dequeued cell as parent and numbered next, the earlier state kept; so every passable neighbour is then discovered |
| Bfs.Player.ExpandCell | maze6.py:27-45 | the head advances by one and the queue loses the dequeued non-goal cell and gains its fresh passable neighbours in East, South, West, North order, each visited, parented by that cell and numbered next, the earlier state kept |
| Bfs.Player.Search | maze6.py:26-45 | the loop stops with the goal at the head of the queue or with the queue empty |
| Bfs.Player.ComputeShortestPath | maze6.py:75-89 | the route is the parent chain read backwards: the start has no parent, each later cell's parent is the cell before it, and it is a walk from the start to the goal with one cell per level |
| Bfs.Player.Bfs | maze6.py:16-50 | true exactly when the goal is reachable, the route then being a shortest walk that follows the parent chain; on failure the visited cells are the reachable ones; the parents form a tree; the trace numbers each visited cell once; only visited cells other than the start are marked |
| Generation.AcrossBeyond | maze7.py:40-43 | the candidate's far side, as seen from the carved cell, is the cell two steps away |
| Generation.LayoutOf | maze7.py:59 | a cell is passable for the solvability test exactly when in range and not `'#'` |
| Generation.FirstIndex | maze7.py:32 | the index of the first occurrence of the candidate |
| Generation.RemoveFirst | maze7.py:31-32 | `list.remove` drops one copy of the candidate and keeps everything else |
| Generation.WallsAtForm | maze7.py:68-71 | walls placed only off start and goal, at most `budget` of them, give the fallback's form |
| Generation.FreshReachable | maze7.py:15-20 | in a freshly built grid the goal is reachable exactly when it is the start or next to it |
| Generation.FreshFirstStep | maze8.py:16-17 | on a fresh grid the only cell a walk from the start can step onto is the goal |
| Generation.SearchingPush | maze7.py:59-61 | queueing a fresh passable neighbour keeps the solvability test's state |
| Generation.SearchingPop | maze7.py:54-61 | a dequeued cell whose four moves were seen becomes done |
| Generation.MazeGenerator.FixedGoal | maze7.py:5-10 | the start is (0, 0), the goal (height-1, width-1) and no grid exists yet |
| Generation.MazeGenerator.RandomGoal | maze8.py:5-10 | an all-wall grid and a goal anywhere in it, the start included |
| Generation.MazeGenerator.RandomPosition | maze8.py:12-13 | a position inside the grid |
| Generation.MazeGenerator.CanBePath | maze7.py:45-48 | true exactly when one and only one of the four neighbours is in the grid and holds `'0'` |
| Generation.MazeGenerator.NothingToCarve | maze8.py:62-65 | without any `'0'` cell no candidate can be carved |
| Generation.MazeGenerator.CandidatesAround | maze7.py:40-43 | the candidates of the remaining moves are at most one per move, each a neighbour of the cell whose far side is an in-range wall, and include every such move's neighbour |
| Generation.MazeGenerator.AddWalls | maze7.py:38-43 | appends, for exactly the moves whose cell two steps away is inside and a wall, the cell one step away, once per move in East, South, West, North order, keeping the earlier candidates |
| Generation.MazeGenerator.IsSolvable | maze7.py:50-62 | true exactly when the goal is reachable over non-wall cells; each cell is queued once; on failure the queued cells are the reachable ones |
| Generation.MazeGenerator.Expand | maze7.py:57-61 | the four moves queue every passable unvisited neighbour |
| Generation.MazeGenerator.GeneratePaths | maze7.py:27-36 | only `'0'` is written; from a grid without `'0'` nothing changes and the candidate list runs empty |
| Generation.MazeGenerator.PlaceRandomWalls | maze7.py:68-71 | at most `budget` walls, none on the start or the goal |
| Generation.MazeGenerator.GenerateFallbackMaze | maze7.py:64-71 | the fallback grid: open cells, `'G'` at the goal, `'S'` at the start unless the goal is there, at most `budget` walls |
| Generation.MazeGenerator.BuildAndCarve | maze7.py:15-18 | a freshly built and carved grid is all walls but `'S'` and `'G'` |
| Generation.MazeGenerator.GenerateMaze | maze7.py:12-25 | one attempt when the goal is the start or next to it, the grid then solvable; otherwise 100 failed attempts and the fallback grid |
| Generation.MazeGenerator.Retry | maze8.py:23-27 | a fresh all-wall grid with a new random goal, carved without change |
| Generation.MazeGenerator.GenerateMazeWithRetries | maze8.py:15-32 | at most 100 retries; a grid kept with fewer is solvable and, when fresh, has its goal on or next to the start; at 100 the fallback grid |
| Fixture.PassableAt | maze6.py:143-150 | a fixture cell is passable exactly when it is inside the 6×6 grid and does not hold 1 |
| Fixture.TenCellWalk | maze6.py:143-154 | the walk down column 1 and along row 4 leads from (0, 0) to (2, 3) in ten cells |
| Fixture.FixtureMaze | maze6.py:157 | the maze built over the fixture has start (0, 0), goal (2, 3) and the fixture's layout |
| Fixture.WalkDistance | maze6.py:143-150 | the n-th cell of a walk from the start is at most n moves from it |
| Fixture.ShortestWalk | maze6.py:143-154 | the goal is reachable, and every walk from the start to it has at least ten cells |
| Fixture.FixtureRoute | maze6.py:157-161 | the route the breadth-first search rebuilds on the fixture has ten cells |
| Fixture.SolveFixture | maze6.py:157-161 | the breadth-first search run on the fixture finds the goal, with a ten-cell route from (0, 0) to (2, 3) |

## Left out

- Console output is not modelled: every `display`, `display_exploration_order` and `total_length_exploration`, every `print`, and the module-level driver code. The two trace methods only print `exploration_order` and its length. The model keeps `exploration_order` and proves what its length is.
- `display` in `maze.py` reads `self.visited`, which `Maze` never defines (maze.py:43), so that script stops at its first display. `ReturnPathDfs.Player.Dfs` models the search without the display.
- Random picks are nondeterministic choices. The model makes no claim about their distribution or seeding.
- The fallback's wall count `int(width * height * 0.3)` is the opaque natural number `budget`; no floating point is modelled.
- Python's recursion-depth limit for the recursive searches is a runtime artefact, not logic.
- Of each pair of duplicated classes, one copy is modelled: maze3.py:1 and 132, maze4.py:2 and 127, maze8.py:96 and 221. In `maze8.py` the second `Maze` class shadows the first, so its wall test is `'#'`; `Grid.FromGenerated` reads the generated grids that way.
- `_generate_simple_maze` (maze8.py:34-42) has the same body as `_generate_fallback_maze`. Both are modelled by `GenerateFallbackMaze`.
- Generation.MazeGenerator.GeneratePaths: the loop takes a `fuel` bound. The source loop has no evident termination measure, because a carved cell can be re-added as a candidate and carved again. Callers pass `CarveFuel`, which is enough from a grid without `'0'`. The source's callers only hand it such a grid: a fresh all-`'#'` grid with `'S'` and `'G'` written (maze7.py:15-18, maze8.py:8 and 15-17, maze8.py:23-27). The model's `GenerateMazeWithRetries` also accepts a grid that already holds `'0'` cells, since it does not require `AllWalls()`. For such a grid the contract does not say what happens to the candidates left after `CarveFuel` iterations.
- ReturnPathDfs.Player.FindExit, StackDfs.Player.FindExit, TraceDfs.Player.FindExit, Bfs.Player.Bfs: each requires a freshly constructed player. Every script calls the search once, on a new `Player`.
- TraceDfs.Player.FindExit requires the start to be the goal or a passable cell. The source writes the marker into the start cell whatever it holds: on a wall start it would erase that wall and search from there, and an out-of-range start raises or, with negative indices, writes into another cell. The model keeps the wall layout fixed, so it does not cover a start placed on a wall or outside the grid.
- The depth-first runs on the hand-written grid are not worked out: the 14-cell path of `maze.py`, the 26 trace entries of `maze3.py` and `maze4.py`. The contracts fix the order in which each cell's moves are tried, but no lemma follows that order through the fixture.
- Generation.MazeGenerator.RandomGoal: requires at least one row and one column. On an empty grid the source fails instead, because `randint(0, -1)` raises `ValueError` (maze8.py:13); the model has no exceptions, so that error path is not represented.
- Generation.MazeGenerator.RandomPosition: requires at least one row and one column. On an empty grid the source fails instead, because `randint(0, -1)` raises `ValueError` (maze8.py:13); the model has no exceptions, so that error path is not represented.
- Generation.MazeGenerator.GenerateFallbackMaze: requires at least one row and one column. On an empty grid the source fails instead, because writing `'S'` into the grid raises `IndexError` (maze7.py:66); the model has no exceptions, so that error path is not represented.
- Generation.MazeGenerator.BuildAndCarve: requires at least one row and one column. On an empty grid the source fails instead, because writing `'S'` into the grid raises `IndexError` (maze7.py:15-16); the model has no exceptions, so that error path is not represented.
- Generation.MazeGenerator.GenerateMaze: requires at least one row and one column. On an empty grid the source fails instead, because writing `'S'` into the grid raises `IndexError` (maze7.py:15-16); the model has no exceptions, so that error path is not represented.
- Generation.MazeGenerator.Retry: requires at least one row and one column. On an empty grid the source fails instead, because writing `'S'` into the new grid raises `IndexError` (maze8.py:24); the model has no exceptions, so that error path is not represented.
- Generation.MazeGenerator.GenerateMazeWithRetries: requires at least one row and one column. On an empty grid the source fails instead, because writing `'S'` into the grid raises `IndexError` (maze8.py:16); the model has no exceptions, so that error path is not represented.
- Fixture.FixtureRoute: states that the rebuilt route has ten cells, not which ten.
- `compute_shortest_path` in `maze7.py` loops on `while current:` where `maze6.py` tests `is not None`. Every coordinate pair is truthy in Python, so both stop at the start's `None` parent, and one model serves both.
