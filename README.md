# Jump-maze pathfinder

A model of the `Maze` package: a rectangular maze whose cells hold either
a jump distance or the goal marker `G`. From a cell with jump distance `j`
a move goes exactly `j` cells west, north, east or south, and must land
inside the grid. Two searches start at the start cell (always `(0, 0)`):

- `depth_first` is a recursive backtracking search. It shares one path
  buffer across its recursive calls. It tries every path that does not
  revisit a cell and keeps the last one that reaches a `G`.
- `a_star` is a best-first search. It keeps a best-cost map `visited`, a
  predecessor map `parents` and a heap of `(f, (y, x))` entries. `f` is
  the cost so far plus the Manhattan distance to the cached goal. The
  search stops at the first popped `G` cell and rebuilds the path with
  `retrace_path`.

The `Maze` object stores the rows and caches the last `G` it saw as its
goal. It records the height and the width, and `solve_maze` picks the
search by name.

Modules, one per file:

- `Grid` (`grid.dfy`): cells, positions, the grid, and the moves out of a cell (`get_adjacent`).
- `Paths` (`paths.dfy`): paths, their cost (the sum of the jumps taken), the Manhattan heuristic, and lemmas about them.
- `DepthFirst` (`depth_first.dfy`): `depth_first` and its nested `recurse`, as a class whose fields are the shared buffer and the result.
- `Frontier` (`frontier.dfy`): the heap as a multiset of entries in Python's tuple order, and `heappop`.
- `AStar` (`a_star.dfy`): `retrace_path`, the relaxation loop, `a_star`, and the invariant that makes its result cost-optimal.
- `Maze` (`maze.dfy`): the `Maze` class, the goal scan of `load_maze`, and the `solve_maze` dispatch.

Errors the code raises become `Err` results: `AssertionError`,
`ValueError`, `IndexError`, `AttributeError` and `UnboundLocalError`.

Behaviour of the code that is easy to misread:

- `depth_first` returns the LAST goal path of its enumeration (moves are tried west, north, east, south), not the first.
- `a_star` breaks ties in `f` by the cell's row and then its column, which is Python's tuple order. It does not use insertion order.
- When `a_star` runs out of queue it returns the unassigned local `path`. That raises `UnboundLocalError`; it does not return an empty path.
- The goal is the last `G` in row-major order. Several `G` cells are allowed. A load that finds no `G` keeps the goal of an earlier load.
- When no `G` was ever loaded, the first heuristic computation reads the missing `maze.goal`. That raises `AttributeError`.

## Model

| member | source | states |
|---|---|---|
| Grid.Grid.Adjacent | Maze/maze.py:53-70 | The result is the in-bounds subset of the four jump targets, in the order west, north, east, south. It has at most four cells. |
| Grid.Grid.AdjacentIsFiltered | Maze/maze.py:62-69 | Each one-sided test (`x - jump >= 0`, `y - jump >= 0`, `x + jump < width`, `y + jump < height`) keeps its candidate exactly when that candidate lies inside the grid. |
| Grid.Grid.AdjacentAreMoves | Maze/maze.py:59-70 | A cell is in the result of `get_adjacent` exactly when it is one legal move away. |
| Grid.Grid.AdjacentInBounds | Maze/maze.py:62-69 | Every returned cell lies inside the grid and is one legal move away. |
| Grid.Grid.MovesAreAdjacent | Maze/maze.py:59-70 | Every legal move is among the returned cells, so the searches miss no neighbour. |
| Paths.Admissible | Maze/searches.py:100-102 | The Manhattan distance between the ends of a path never exceeds the path's cost, so the heuristic is admissible. |
| Paths.CostSplit | Maze/searches.py:89 | Cutting a path at one of its cells splits its accumulated jump cost into the cost of the two parts. |
| Paths.ShortenToSimple | Maze/searches.py:29-31 | Any path can be shortened to one with no repeated cell and the same ends. This is why skipping cells already on the buffer loses no goal. |
| Paths.ReachableIffSimple | Maze/searches.py:29-31 | A goal is reachable exactly when it is reachable without revisiting a cell. |
| DepthFirst.Found | Maze/searches.py:14-34 | The goal paths `recurse(node, path)` copies into `path_found`, in the order it finds them: the buffer plus `node` when `node` is a `G`, otherwise what the loop over the adjacent cells records. |
| DepthFirst.FoundFrom | Maze/searches.py:29-34 | What the loop of `recurse` records as it tries the adjacent cells in order: for each cell not already on the buffer, what the recursive call on it records. |
| DepthFirst.FoundSound | Maze/searches.py:14-34 | Every path that `recurse` records is a legal path that repeats no cell. It ends on a `G` and extends the buffer contents through `node`. |
| DepthFirst.FoundComplete | Maze/searches.py:14-34 | Every goal path that extends the buffer through `node` and repeats no cell gets recorded. |
| DepthFirst.FoundFromStep | Maze/searches.py:29-32 | Trying one more adjacent cell appends what the recursive call on it records, or nothing when the cell is already on the buffer. |
| DepthFirst.LeavesJumpCell | Maze/searches.py:23-25 | A path of more than one cell starts on a jump cell, so a goal path that reaches a `G` cell stops there, as `recurse` does. |
| DepthFirst.DfsResultSound | Maze/searches.py:12-38 | A non-empty result is a goal path from the start that repeats no cell. |
| DepthFirst.DfsResultComplete | Maze/searches.py:12-38 | When a `G` is reachable from the start, the result is not empty. |
| DepthFirst.LastRecorded | Maze/searches.py:24 | The path kept in `path_found` is the last one recorded. It is present exactly when something was recorded, and it is one of the recorded goal paths. |
| DepthFirst.DfsResult | Maze/searches.py:12-38 | The value `depth_first` returns: the last goal path `recurse(start, [])` records, or the initial empty list when it records none. |
| DepthFirst.DfsResultCorrect | Maze/searches.py:5-38 | The last recorded path starts at the start cell, ends on a `G` and repeats no cell. It is empty exactly when no `G` is reachable, and it is `[start]` when the start cell is a `G`. |
| DepthFirst.Backtracker.constructor | Maze/searches.py:12 | The buffer and the result start empty. |
| DepthFirst.Backtracker.Recurse | Maze/searches.py:14-34 | After the call the buffer is the old buffer plus `node`, so the caller's pop restores it. The result is the last of the goal paths found from `node`, or the previous result if none was found. |
| DepthFirst.DepthFirstSearch | Maze/searches.py:5-38 | Returns the last goal path of the enumeration. It is a simple goal path from the start, and it is empty exactly when no goal is reachable. |
| Frontier.LeTotalOrder | Maze/searches.py:71-73 | Python's `(f, (y, x))` tuple order is a total order. |
| Frontier.MinExists | Maze/searches.py:75 | A non-empty heap has a least entry. |
| Frontier.Pop | Maze/searches.py:75 | `heappop` returns the unique least entry in tuple order and removes exactly one copy of it. |
| AStar.Reverse | Maze/searches.py:54 | Each element moves to the mirrored index and the length is unchanged. |
| AStar.RetracePath | Maze/searches.py:40-55 | The path ends at `end`. Its first cell has parent None. Every cell is the recorded parent of the next. This requires a parent chain that cannot loop. |
| AStar.RelaxMove | Maze/searches.py:89-104 | One pass of the inner loop: when the adjacent cell is new or the cost `g` is strictly lower, it records `g` and the parent `node` and pushes `(g + h, adj)`. It fails when `h` needs the missing goal. Otherwise the state is unchanged. |
| AStar.RelaxUpto | Maze/searches.py:85-104 | The state after the first `i` passes of the inner loop, applied in order to the adjacent cells, or a failure when one of them raised. |
| AStar.Relax | Maze/searches.py:84-104 | The inner loop over `get_adjacent(node)` ends in the state that one `RelaxMove` per adjacent cell, applied in order, produces. It fails exactly when one of those steps needs the missing goal. |
| AStar.RelaxStuck | Maze/searches.py:100-101 | Once a pass raises AttributeError, the whole loop does. |
| AStar.UptoLowers | Maze/searches.py:93-97 | The passes never raise a recorded cost and never drop a recorded cell. |
| AStar.UptoCosts | Maze/searches.py:89-97 | The passes keep the cost of `node` itself, add only cells one legal move away, and leave every tried cell no dearer than `visited[node] + jump`. |
| AStar.UptoParents | Maze/searches.py:93-97 | A cell whose cost drops gets `node` as its parent and the cost `visited[node] + jump`, which exceeds the cost of `node`. Every other cell keeps its parent. |
| AStar.ParentsStep | Maze/searches.py:93-97 | One pass keeps the parent property of `UptoParents`. |
| AStar.UptoQueued | Maze/searches.py:99-104 | Every cell whose cost dropped is queued at its new cost plus its Manhattan distance to the goal. |
| AStar.QueuedStep | Maze/searches.py:99-104 | One pass keeps every improved cell queued. |
| AStar.UptoGrown | Maze/searches.py:104 | The queue only grows. Each added entry has an `f` no lower than its cell's cost. |
| AStar.GrownStep | Maze/searches.py:104 | One pass keeps the queue grown: nothing is removed, and the entry it may add has an `f` no lower than its cell's new cost. |
| AStar.UptoOnlyImproved | Maze/searches.py:93-104 | Every entry the passes add to the queue belongs to a cell whose cost strictly dropped. It sits at the cell's new cost `visited[node] + jump` plus its Manhattan distance to the goal, and it is added once. Cells whose cost did not drop are never pushed. |
| AStar.OnlyImprovedStep | Maze/searches.py:93-104 | One pass pushes at most one entry, that of the cell whose cost it lowers, and never pushes a cell again. |
| AStar.UptoCounted | Maze/searches.py:93-104 | The queue grows only when some cost dropped. A pass fails only when no goal was cached. |
| AStar.RelaxedOver | Maze/searches.py:84-104 | Relaxing the moves out of `node` fails only without a cached goal. Otherwise it keeps the cost of `node`, only lowers costs, bounds every tried cell by `visited[node] + jump`, re-parents and queues exactly the improved cells (each once, at its new cost plus its Manhattan distance to the goal, and nothing else is pushed), and grows the queue only when a cost dropped. |
| AStar.Progress | Maze/searches.py:74-104 | Each expansion adds a cell, strictly lowers some cost, or shrinks the queue, so the loop terminates. |
| AStar.ChainIsPath | Maze/searches.py:40-55 | Following parents back from a recorded cell gives a legal path from the start. Its cost is at most the cell's recorded cost. |
| AStar.FrontierCovers | Maze/searches.py:74-104 | While the goal has not been popped, every path from the start to it has a queued entry whose `f` is at most the path's cost. |
| AStar.GoalPopped | Maze/searches.py:78-81 | When a `G` cell is popped, the retraced path is a goal path from the start. It costs no more than any path to the cached goal. |
| AStar.ExhaustedReach | Maze/searches.py:74 | With an empty queue, every cell of a path from the start is recorded and fully expanded. |
| AStar.Exhausted | Maze/searches.py:74-105 | An empty queue means no `G` is reachable from the start. |
| AStar.ExpandKeepsInv | Maze/searches.py:84-104 | Expanding a popped non-goal cell fails only without a cached goal. Otherwise it keeps the loop invariant and lowers the termination measure. |
| AStar.RelaxKeepsInv | Maze/searches.py:84-104 | Expanding a popped non-goal cell keeps the loop invariant. |
| AStar.LinksKept | Maze/searches.py:97-98 | Every recorded cell other than the start keeps a parent one legal move away. That parent's cost plus its jump is at most the cell's cost. |
| AStar.BoundedKept | Maze/searches.py:98-104 | No queue entry's `f` is below its cell's recorded cost. |
| AStar.CoveredKept | Maze/searches.py:84-104 | Every recorded cell is either fully expanded or waiting in the queue with an entry no higher than its `f`. |
| AStar.ExpandedIsSettled | Maze/searches.py:84-91 | After its expansion, every legal move out of a cell costs at most the cell's cost plus its jump. |
| AStar.AStar | Maze/searches.py:57-105 | Either returns a goal path from the start that costs no more than any path to the cached goal when that is a `G` cell, or raises. `UnboundLocalError` is raised only when no `G` is reachable, and `AttributeError` only when no goal was cached. With a cached goal it succeeds exactly when a `G` is reachable. |
| Maze.LastGoalInRow | Maze/maze.py:46-48 | The position the scan of one row leaves in `self.goal`: the last `G` in the row, or nothing when the row has none. |
| Maze.LastGoal | Maze/maze.py:41-48 | The goal the scan of all rows leaves: the last `G` of the last row that holds one, or nothing. |
| Maze.LastGoalInRowSpec | Maze/maze.py:46-48 | The row scan finds a `G` exactly when the row holds one. The `G` it finds is the rightmost. |
| Maze.LastGoalSpec | Maze/maze.py:41-48 | The cached goal is set exactly when some row holds a `G`. It is a `G`, and every `G` comes no later than it in row-major order. |
| Maze.ScanStep | Maze/maze.py:46-48 | One more cell of the scan: a `G` replaces the result, any other cell leaves it unchanged. |
| Maze.LoadedGoalIsGoalCell | Maze/maze.py:44-51 | The goal a load caches is a `G` cell of the loaded grid, which is the condition under which `AStar.AStar` is optimal. |
| Maze.Maze.constructor | Maze/maze.py:11-14 | No maze is loaded, the start is `(0, 0)` and no goal is cached. |
| Maze.Maze.LoadRows | Maze/maze.py:32-51 | Stores the rows and sets the goal to the last `G` (it keeps the previous goal when there is none). Sets `height` to the number of rows and `width` to the length of the first row. With no rows it raises IndexError after setting the height. |
| Maze.Maze.SolveMaze | Maze/maze.py:72-85 | `AssertionError` when nothing is loaded. `ValueError` for a method other than `DFS` and `A*`. `IndexError` when the start is outside the grid. Otherwise the chosen search's result with its guarantees. |

## Left out

- Reading the CSV file, `main()`, `__str__` and all printing (including the `verbose` expansion trace) are I/O and are not part of this model. `load_maze` is modelled on already parsed rows.
- Cell parsing: a cell is either `G` or a non-negative jump. `int()` of a non-numeric string and negative jumps are not modelled.
- The search operations require rectangular rows with the recorded height and width. Ragged CSV rows, which could raise IndexError inside `get_adjacent` or the searches, are not modelled.
- Maze.Maze.SolveMaze: Python's wrap-around for negative indices does not arise, because the start is always `(0, 0)`. A start outside the grid is reported as the IndexError the first cell read raises.
- Maze.Maze.constructor: `height`, `width` and `goal` do not exist in Python before the first load. The model gives them the values 0, 0 and None, and `goal == None` stands for the missing attribute.
- `heapq`'s binary-heap layout is not modelled; the heap is the multiset of its entries, and `heappop` returns its least element.
- Recursion depth limits of the Python interpreter are not modelled.
- The BKT and Retrieval packages are not part of this model.
- AStar.AStar: optimality is stated against paths to the cached goal cell. When the maze holds several `G` cells, the search may stop at a different `G`, and no optimality over all `G` cells is claimed.
