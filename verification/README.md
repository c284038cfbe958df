# Grid pathfinding searches, modelled in Dafny

This project models the pathfinding engine of a grid visualiser. It covers
six searches over a 4-connected grid of cells: `bfs`, `dfs`, `dls` with
`ids`, `dijkstra` with `ucs`, and `astar` with the Manhattan heuristic. It
also covers the path reconstruction that every search repeats when it
reaches the end cell: follow `came_from` back from the end, mark each cell
reached as path with one redraw per step, then show the end and start
markers again.

Each search is a Dafny method on values:
- the grid's neighbour lists are an `Adjacency` map;
- the cell states are a `Colors` map;
- `start` and `end` are `Option<Cell>`, because the searches accept `None`.

A search returns four things:
- the boolean verdict;
- the grid as the run left it;
- the `came_from` map it built;
- the number of `draw()` calls it made.

The proved outcomes are:
- Every search, on a grid whose neighbour lists are fresh, returns True exactly when the end can be reached. For `dls` the bound is the depth limit; for `ids` it is 99 steps.
- On success, the predecessor chain leads back from the end to the start by neighbour steps.
- On success, the grid shows that chain as the route. End and start carry their markers, the cells strictly between are Path, and every other cell is as before, Open or Closed.
- `bfs`, `dijkstra`, `ucs` and `ids` show a shortest route.
- `dijkstra` also leaves every reachable cell with its fewest-step distance, and no other cell with a distance.
- On failure, the searches only opened or closed cells and never touched the start.
- With a missing start or end, every search except `astar` returns False and changes nothing. `astar` has no such guard: it raises `AttributeError` when it computes the heuristic of the start.

Modules:
- `Grid` (grid.dfy): cells, states, neighbour steps, walks, reachability and distance.
- `Heuristic` (heuristic.dfy): `h_manhattan_distance`.
- `MinQueue` (minqueue.dfy): the priority queues, as a sequence of (key, tie-break, cell) entries from which a least entry is taken.
- `Backtrack` (backtrack.dfy): the predecessor chain and the reconstruction.
- `Costs` (costs.dfy): the `dist`, `g_score` and `best_depth` maps. A cell missing from the map has infinite cost.
- `BreadthFirst`, `DepthFirst`, `DepthLimited`, `UniformCost` and `AStar`: the searches.

Termination of the priority-queue and depth-limited loops is measured by
`Costs.Potential`: the number of (cell, cost) pairs a cost map could still be
lowered to. Every strict improvement removes at least one such pair.

## Model

| member | source | states |
|---|---|---|
| BreadthFirst.Bfs | searching_algorithms.py:12-44 | No start or end: False with the grid untouched. Otherwise True exactly when the end is reachable. No cell is enqueued twice and no barrier is enqueued. `came_from` has entries for exactly the enqueued cells, so never for the start. On success the chain from the end is a shortest route and the grid shows it. On failure cells were only opened or closed, and the start kept its state. On success the redraw count is at least the route's number of steps. |
| BreadthFirst.Visit | searching_algorithms.py:20-42 | One pass of the main loop for a cell other than the end keeps the loop invariant. It either discovers a new cell or shortens the queue, so the loop terminates. |
| BreadthFirst.Dequeue | searching_algorithms.py:20-21 | The dequeued cell is the next one in discovery order. It is at the current level or the next one, and everything within that many steps has been discovered. |
| BreadthFirst.NextLevel | searching_algorithms.py:20-21 | When the first cell of level d + 1 is dequeued, every cell within d + 1 steps of the start has been discovered. |
| BreadthFirst.Expand | searching_algorithms.py:32-38 | After the inner loop every neighbour of the current cell is discovered. The queue grows only when a new cell is discovered. |
| BreadthFirst.Discover | searching_algorithms.py:33-38 | A visited neighbour is skipped. An unvisited one is discovered at one level deeper, recorded with the current cell as predecessor, enqueued and shown Open. The invariant is kept either way. |
| BreadthFirst.EnqueueKeepsInvariants | searching_algorithms.py:35-38 | Discovering an unvisited neighbour keeps the discovery log, the levels, the distances, the predecessor tree and the painting. |
| BreadthFirst.EnqueueKeepsLevels | searching_algorithms.py:37 | Appending a cell of level d + 1 keeps the queue holding levels d and d + 1, in non-decreasing order. |
| BreadthFirst.EnqueueKeepsDistances | searching_algorithms.py:35-37 | A cell discovered from level d cannot be reached in fewer than d + 1 steps. Coverage of level d is kept. |
| BreadthFirst.EnqueueKeepsPainting | searching_algorithms.py:33-38 | Opening a newly discovered cell never repaints the start. A newly discovered cell is never a barrier. |
| BreadthFirst.EnqueueKeepsLog | searching_algorithms.py:35-37 | The queue stays the undequeued suffix of the discovery log, and the visited set stays the cells of that log. |
| BreadthFirst.EnqueueKeepsTree | searching_algorithms.py:35-36 | The new predecessor is a neighbour step one level up. |
| BreadthFirst.PredecessorKeys | searching_algorithms.py:35-36 | The cells with a `came_from` entry are exactly the cells enqueued after the start. |
| BreadthFirst.Closing | searching_algorithms.py:41-42 | Closing a dequeued cell other than the start keeps the painting. |
| BreadthFirst.Found | searching_algorithms.py:23-27 | When the end is dequeued, its chain is duplicate-free, ends at the start, and has exactly the fewest possible steps. |
| BreadthFirst.Exhausted | searching_algorithms.py:44 | An empty queue, with every dequeued cell expanded and none of them the end, means the end is unreachable. |
| DepthFirst.Dfs | searching_algorithms.py:47-79 | No start or end: False with the grid untouched. Otherwise True exactly when the end is reachable. The start never gets a predecessor. Every cell with a predecessor is a non-barrier neighbour of it. On success the grid shows a route back to the start. On failure cells were only opened or closed. On success the redraw count is at least the route's number of steps. |
| DepthFirst.Visit | searching_algorithms.py:57-77 | Popping a cell other than the end, expanding it and closing it keeps the invariant. It either discovers a cell or shortens the stack. |
| DepthFirst.Pop | searching_algorithms.py:58 | The popped cell becomes the one being expanded, and no discovered cell is lost track of. |
| DepthFirst.Expand | searching_algorithms.py:68-73 | After the inner loop every neighbour is discovered. The stack grows only with new cells. |
| DepthFirst.Discover | searching_algorithms.py:69-73 | An undiscovered neighbour is pushed, recorded with the current cell as predecessor and shown Open. A discovered one leaves the stack, the visited set, the predecessors and the colours unchanged. The neighbour is discovered afterwards either way. |
| DepthFirst.Push | searching_algorithms.py:70-73 | Pushing a new neighbour keeps the predecessor tree ranked by discovery order and keeps the painting. |
| DepthFirst.PoppedExpanded | searching_algorithms.py:68-77 | Expanded cells stay expanded as more cells are discovered. |
| DepthFirst.Exhausted | searching_algorithms.py:79 | An empty stack with every popped cell expanded means the end is unreachable. |
| Heuristic.ManhattanDistance | searching_algorithms.py:82-91 | The distance is non-negative, zero exactly for equal points, and at least the row gap and at least the column gap. |
| Heuristic.ManhattanSymmetric | searching_algorithms.py:91 | The distance is symmetric. |
| Heuristic.ManhattanUnitStep | searching_algorithms.py:91 | One orthogonal step changes the distance to a target by exactly one, so the heuristic is consistent. |
| Heuristic.ManhattanTriangle | searching_algorithms.py:91 | The triangle inequality holds. |
| Heuristic.ManhattanAdmissible | searching_algorithms.py:91 | No walk through fresh neighbour lists is shorter than the Manhattan distance between its ends. |
| Heuristic.ManhattanBelowDistance | searching_algorithms.py:91 | The estimate never exceeds the true number of steps, so it is admissible. |
| MinQueue.ExtractMin | searching_algorithms.py:128 | `get` returns an entry no other entry precedes, by key and then tie-break number, together with its position. It returns the queue without exactly that entry. |
| MinQueue.Remove | searching_algorithms.py:128 | Taking out entry i keeps every other entry, in order. |
| MinQueue.RemoveMultiset | searching_algorithms.py:128 | Taking out an entry leaves the same bag minus that entry. |
| MinQueue.RemoveKeeps | searching_algorithms.py:128 | Every other entry is still present. |
| MinQueue.RemoveIncreasing | searching_algorithms.py:128-129 | Taking out an entry keeps the insertion numbers strictly increasing. |
| MinQueue.CellsRemove | searching_algorithms.py:128-129 | Removing an entry removes its cell from the same position. |
| MinQueue.CellsAppend | searching_algorithms.py:148-149 | Putting an entry appends its cell. |
| MinQueue.UniqueMin | searching_algorithms.py:147-148 | With distinct insertion numbers, the least entry is unique, so `get` is deterministic. |
| Backtrack.Trace | searching_algorithms.py:24-25 | The chain starts at the given cell, and each next cell is the `came_from` entry of the one before. |
| Backtrack.TraceRanked | searching_algorithms.py:24-25 | If predecessors always have a smaller rank, the walk back stops. Ranks strictly fall along it, no cell repeats, and its length is bounded by the rank drop. It equals the drop when each link drops the rank by one. |
| Backtrack.TreeRoute | searching_algorithms.py:23-27 | A ranked predecessor map of neighbour steps over the discovered cells leads back from any discovered cell to the start, without repeats. The cell is then reachable within the chain's length. |
| Backtrack.ChainWithin | searching_algorithms.py:24-27 | A chain of reverse neighbour steps back to the start is a forward walk of the same length. |
| Backtrack.MarkPath | searching_algorithms.py:24-27 | Each cell reached on the walk back is marked Path, every other cell is unchanged, and there is one redraw per step. |
| Backtrack.Reconstruct | searching_algorithms.py:23-30 | After the walk back and the two marker writes, the grid shows the route from the start to the end, over a grid that was only explored. There is one redraw per step. |
| Backtrack.ReconstructShowsRoute | searching_algorithms.py:28-29 | `make_end` then `make_start` leave start and end with their markers, even when they are the same cell. Interior route cells stay Path, and other cells stay as explored. |
| Backtrack.RouteInterior | searching_algorithms.py:28-29 | Restoring the markers leaves the cells strictly inside the route as Path. |
| Backtrack.RouteElsewhere | searching_algorithms.py:28-29 | Off the route, the grid shows only the original, Open or Closed states. |
| Backtrack.RouteShownAfter | searching_algorithms.py:196-198 | A route shown over a grid that earlier failed runs had only explored is also a route shown over the grid before them. |
| Grid.ExploredTransitive | searching_algorithms.py:196-197 | Two rounds of only opening and closing cells are together one such round. |
| Grid.ExploredWellFormed | searching_algorithms.py:196-197 | Neighbour lists computed before a run stay free of barriers after runs that only opened or closed cells. |
| Costs.Lowering | searching_algorithms.py:142-144 | A strict improvement to a cost below the bound strictly lowers the amount of improving left. This is what makes the relaxation loops terminate. |
| Costs.WalkBound | searching_algorithms.py:213-219 | If every cell cheaper than K is relaxed, the i-th cell of any walk from the start, for i ≤ K, has a cost of at most i. |
| Costs.Shortest | searching_algorithms.py:224-232 | A cell whose cost is within the relaxed range has that cost equal to its fewest steps from the start. Its predecessor chain has exactly that length. |
| Costs.AllRelaxed | searching_algorithms.py:210-224 | Once every costed cell is relaxed, the costed cells are exactly the reachable ones, and each cost is the fewest steps. |
| Costs.ImproveTree | searching_algorithms.py:214-217 | Lowering a neighbour to one more than the current cell, with the current cell as its predecessor, keeps the predecessor tree acyclic. The neighbour is not the start, and the new cost stays below the number of grid cells. |
| Costs.ImproveBound | searching_algorithms.py:214-216 | A new cost one more than the current cell's stays below the number of costed cells and below the number of grid cells. This keeps every cost bounded. |
| Costs.Opened | searching_algorithms.py:218 | Opening a cell other than the start keeps the painting. |
| Costs.Closing | searching_algorithms.py:221-222 | Closing a cell other than the start keeps the painting. |
| Costs.StillBelow | searching_algorithms.py:181-183 | Neighbours already given a cost of at most the bound keep it while later neighbours are lowered. |
| Costs.NeighborsRelaxed | searching_algorithms.py:213-219 | Having lowered every listed neighbour to at most one step more, the current cell is relaxed. |
| UniformCost.Dijkstra | searching_algorithms.py:202-234 | No start or end: False with the grid untouched. Otherwise the final distances are exactly the reachable cells, each with its fewest steps. The verdict is True exactly when the end has a finite distance, that is, is reachable. On success the grid shows a shortest route. On success the redraw count is at least the route's number of steps. |
| UniformCost.Ucs | searching_algorithms.py:236-266 | Same verdict rule as Dijkstra, with the return taken as soon as the end leaves the queue. On success the grid shows a shortest route. On success the redraw count is at least the route's number of steps. |
| UniformCost.Settle | searching_algorithms.py:205-234 | With start and end set, the final distances are exactly the reachable cells with their fewest steps. True exactly when the end is reachable; then the grid shows a shortest route, otherwise cells were only opened or closed. On success the redraw count is at least the route's number of steps. |
| UniformCost.Drain | searching_algorithms.py:205-222 | Draining the queue leaves every costed cell relaxed, with an acyclic predecessor tree and only opened or closed cells. |
| UniformCost.Backtrace | searching_algorithms.py:224-232 | Once every costed cell is relaxed and the end has a cost, the predecessors lead back to the start along a shortest route, which the reconstruction shows. It makes one redraw per route step. |
| UniformCost.Search | searching_algorithms.py:239-266 | With start and end set, True exactly when the end is reachable; then the grid shows a shortest route, otherwise cells were only opened or closed. On success the redraw count is at least the route's number of steps. |
| UniformCost.Arrive | searching_algorithms.py:247-254 | When the end leaves the queue, the predecessors lead back to the start along a shortest route, and the reconstruction shows it. It makes one redraw per route step. |
| UniformCost.SameVerdict | searching_algorithms.py:202-266 | `dijkstra` and `ucs` return the same boolean on the same grid. |
| UniformCost.Pop | searching_algorithms.py:211 | Taking out a least entry keeps every other costed cell queued or relaxed. |
| UniformCost.Reached | searching_algorithms.py:245-254 | When the end leaves the queue as a least entry, its cost is at most the key. Every cell cheaper than the key is relaxed, so the end's cost is its distance. |
| UniformCost.Drained | searching_algorithms.py:210 | With the queue empty, every costed cell is relaxed. |
| UniformCost.Visit | searching_algorithms.py:211-222 | Expanding and closing a popped cell keeps the tree, the painting and the queue invariant. Costs only fall, and either the improving left falls or nothing changes. |
| UniformCost.Expand | searching_algorithms.py:213-219 | After the inner loop the expanded cell is relaxed, costs have only fallen, and the invariants hold. |
| UniformCost.Relax | searching_algorithms.py:214-219 | Afterwards the neighbour's cost is at most one more than the current cell's. Costs only fall, the current cell keeps its cost, and a strict improvement reduces the improving left. |
| UniformCost.Improve | searching_algorithms.py:215-219 | A strict improvement keeps the queue invariant and leaves less improving to do. |
| UniformCost.ImproveFrontier | searching_algorithms.py:216-219 | Lowering a cell and queueing it at its new cost keeps every other cell queued or relaxed. |
| AStar.Astar | searching_algorithms.py:105-156 | No start or end: it raises, with the grid untouched. Otherwise it returns True exactly when the end is reachable. On success the grid shows a route back to the start, and on failure cells were only opened or closed. On success the redraw count is at least the route's number of steps. |
| AStar.FScore | searching_algorithms.py:145 | The f score is at least the g score, and equals it exactly at the end cell. |
| AStar.Pop | searching_algorithms.py:128-129 | The cell taken from the heap is in the open set, and removing it keeps the heap, the open set and the other cells' invariants. |
| AStar.HeapPop | searching_algorithms.py:128-129 | `open_set.remove` never fails, because the popped cell is always in the open set. The heap without the entry still matches the open set without the cell. |
| AStar.FrontierPop | searching_algorithms.py:128-129 | Every other scored cell stays open or relaxed. |
| AStar.Drained | searching_algorithms.py:127 | With the heap empty, every scored cell is relaxed and the end was never scored, so it is unreachable. |
| AStar.Visit | searching_algorithms.py:140-154 | Relaxing the neighbours of a cell other than the end, then closing it, keeps the invariant: tree, painting, heap matching the open set with increasing insertion numbers, frontier. Either the improving left falls or nothing changes. |
| AStar.Expand | searching_algorithms.py:140-150 | After the inner loop the current cell is relaxed and the invariant holds again. |
| AStar.Relax | searching_algorithms.py:141-150 | g scores only fall, and the neighbour ends at most one above the current cell. The heap only grows at its end, and the counter never decreases. |
| AStar.Lower | searching_algorithms.py:142-150 | A strict improvement sets the neighbour's g to the current cell's plus one and raises no other g score. It reduces the improving left and keeps the invariant. A neighbour not yet open is opened and pushed under the next insertion number; an open one keeps its existing heap entry, which is never re-keyed. |
| AStar.Record | searching_algorithms.py:142-145 | Recording an improvement sets the neighbour's predecessor to the current cell and its g score to one more than the current cell's. Heap, open set, counter and colours are untouched; g scores only fall, and less improving is left. |
| AStar.Admit | searching_algorithms.py:146-150 | A neighbour not yet open is pushed with its f score under the next insertion number, added to the open set and shown Open. An open neighbour leaves the search exactly as it was, so its queued entry keeps its old key. |
| AStar.RecordLowers | searching_algorithms.py:143-144 | Recording the improvement lowers only the neighbour's g score, strictly. |
| AStar.RecordValid | searching_algorithms.py:143-145 | After recording, the search is valid with the neighbour set aside until it is open. |
| AStar.RecordTree | searching_algorithms.py:143-144 | The new predecessor keeps the g-ranked tree. |
| AStar.RecordRest | searching_algorithms.py:143-145 | The heap, open set and painting are not disturbed by recording. |
| AStar.AlreadyOpen | searching_algorithms.py:146 | A neighbour already open keeps its old heap entry and key, and the invariant holds without pushing. |
| AStar.Enqueue | searching_algorithms.py:146-150 | The counter goes up by one. The heap gains one entry at its end, keyed g + h under the new counter. The open set gains the neighbour, which is shown Open. The scores are untouched. |
| AStar.HeapLowered | searching_algorithms.py:144 | Lowering a g score leaves the heap matching the open set. |
| AStar.FrontierLowered | searching_algorithms.py:144 | Lowering a g score keeps every other cell open or relaxed. |
| AStar.FrontierOpened | searching_algorithms.py:149 | Once the neighbour is open, it no longer needs to be set aside. |
| AStar.HeapPush | searching_algorithms.py:147-149 | Pushing under the incremented counter keeps insertion numbers strictly increasing and the open set equal to the heap's cells. |
| DepthLimited.Dls | searching_algorithms.py:158-191 | No start or end: False with the grid untouched. Otherwise True exactly when the end is within the limit's number of steps; a negative limit allows 0. On success the chain back is duplicate-free, has at most the limit's number of steps, and is shown on the grid. On success the redraw count is at least the route's number of steps. |
| DepthLimited.Search | searching_algorithms.py:161-191 | With start and end set, True exactly when the end is within the limit's number of steps; then the grid shows a duplicate-free route of at most that many steps, otherwise cells were only opened or closed. On success the redraw count is at least the route's number of steps. |
| DepthLimited.Arrive | searching_algorithms.py:166-173 | When the end is popped, the predecessors lead back to the start without repeats in at most the limit's number of steps, and the reconstruction shows that route. It makes one redraw per route step. |
| DepthLimited.Arrived | searching_algorithms.py:166-170 | When the end is popped, its chain leads back to the start, without repeats, in at most the limit's number of steps. |
| DepthLimited.Pop | searching_algorithms.py:165 | Popping the top frame keeps every other cell settled. The popped cell is settled or is at its best depth. |
| DepthLimited.Stop | searching_algorithms.py:175-179 | A frame at the depth limit is closed without expansion, and the invariant still holds. |
| DepthLimited.Unreached | searching_algorithms.py:164 | With the stack empty, the end is not within the limit's number of steps. |
| DepthLimited.Visit | searching_algorithms.py:181-190 | Expanding a frame below the limit keeps the depth tree, the painting and the stack invariant. Either the improving left falls or nothing changes. |
| DepthLimited.Expand | searching_algorithms.py:181-186 | After the inner loop the popped cell is settled, and every frame stays within the limit. |
| DepthLimited.Expanded | searching_algorithms.py:181-190 | Whether its frame is still on the stack, is stale but relaxed, or has just been expanded, the popped cell is settled. |
| DepthLimited.Relax | searching_algorithms.py:182-186 | Depths only fall. A neighbour within the limit ends at most one deeper than the frame. |
| DepthLimited.Improve | searching_algorithms.py:182-185 | A strict improvement within the limit keeps the tree and the stack invariant, and leaves less improving to do. |
| DepthLimited.ImproveDepthTree | searching_algorithms.py:183-184 | The new best depth and predecessor keep the depth tree: start at 0, no depth past the limit, predecessors strictly shallower. |
| DepthLimited.ImproveFrontier | searching_algorithms.py:183-185 | Pushing the improved neighbour's frame keeps every other cell settled and a reached end on the stack. |
| DepthLimited.Ids | searching_algorithms.py:193-200 | No start or end: False with the grid untouched. Otherwise True exactly when the end is within 99 steps. The limit that succeeds is the first one that reaches the end, and the route shown is a shortest one. On success the redraw count is at least the route's number of steps. |
| DepthLimited.FirstDepth | searching_algorithms.py:196-198 | When no smaller limit reached the end, a chain of at most the limit's number of steps has exactly the fewest steps. |

## Left out

- `main.py`: the window, buttons, mouse painting and grid clearing are user interface with no search logic. It is not part of this model.
- The `pygame.event.get()` / `pygame.quit()` loop in `dfs` (searching_algorithms.py:54-55) is host event handling.
- `h_euclidian_distance` (searching_algorithms.py:93-102) uses floating-point `sqrt`, and no search calls it.
- `Spot`, `Grid` and `update_neighbors` are not part of this model. The neighbour lists are a given map. Their freshness is the precondition `WellFormed`: listed neighbours are grid cells, orthogonally adjacent, and not barriers. `make_open`, `make_closed`, `make_path`, `make_end` and `make_start` are writes to the colour map, and `draw()` is a counter.
- Order among equal keys in the `dijkstra` and `ucs` queues depends on how `Spot` objects compare, and that code is not part of this model. Entries carry tie-break 0 there, and `MinQueue.ExtractMin` may return any least entry. Every result about those searches holds for every such choice.
- `PriorityQueue` and `float("inf")` are a sequence of entries and absence from the cost map.
- AStar.Astar: claims reachability and a route, but not a shortest one. A cell that is already open keeps its old, larger key when its g score falls (searching_algorithms.py:146). There is also no closed set, so the order of expansion is not the textbook one.
- AStar.FScore: `f_score` is computed as g + h rather than stored. Every write to it (searching_algorithms.py:124, 145) stores exactly that sum next to the matching `g_score` write. The heap keys are taken from it at the moment of the push (searching_algorithms.py:148). The start's entry has key 0 (searching_algorithms.py:118), as in the code.
- AStar.Astar: with a missing start or end the code raises `AttributeError` (searching_algorithms.py:124). The model returns the `AttributeError` outcome and leaves the grid as it was.
- Heuristic.ManhattanDistance: `Spot.get_position()` is taken to return the cell's (row, col), as `Cell` holds it. `Spot` is not part of this model. If the position were in pixels, h would be this distance scaled by the cell width. `ManhattanUnitStep`, `ManhattanAdmissible` and `ManhattanBelowDistance` hold for (row, col) positions only.
- DepthFirst.Dfs: "each cell is pushed at most once" is not an output. It is the loop's termination measure: every push adds a cell to the visited set, and no cell is pushed twice.
- The `came_from` map, the enqueued sequence of `bfs`, the distance map of `dijkstra` and the depth that succeeded in `ids` are returned as extra results, so that the contracts can describe them. The code keeps them local.
