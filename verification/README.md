# Stepwise BFS / DFS maze search, modelled in Dafny

The maze visualiser animates breadth-first and depth-first search over a
grid of cells. It advances the search one frontier removal per frame.
`BFSAnimator` and `DFSAnimator` (`algorithms.py`) are small resumable state
machines:

- `start_search` clears the grid's search flags and seeds the search with
  the start cell.
- `step` removes one coordinate from the frontier and marks it visited. If
  that coordinate is the end, `step` walks the parent map back to the start,
  setting `in_path`. Otherwise it discovers the unvisited neighbours.

The grid (`grid.py`) builds the cell matrix and gives each cell its pixel
rectangle.

The model is a functional state machine:

- `Engine.State` holds the frontier (`seq`), the visited set, the parent
  map to `Option<Coord>`, the `finished` flag and the grid's three search
  flags. Each flag is a set of coordinates: a cell's flag is true iff its
  coordinate is in the set.
- `Engine.Step` takes a `Discipline`. `FIFO` is `popleft`, the BFS class.
  `LIFO` is `pop`, the DFS class. These are the only lines where the two
  classes differ.
- The engine reads the grid through `Engine.GridView`: the size, `start`,
  `end` and the `neighbors` query. These are inputs because `grid.py`
  does not define them. `Engine.Valid` is the stated
  assumption: start, end and every neighbour of a cell are in bounds.
- `reset_search_state` is modelled inside `Engine.StartSearch` as clearing
  all three flag sets. Walls are not part of the search flags.
- `Engine.Step` requires only that, when the step removes the end, the
  parent walk from the end stops (`ParentChain.WalkEnds` with the size of
  the map as fuel). This is exactly the condition under which
  `_reconstruct_path`, the only loop that could fail to return, returns.
  `EngineInvariants.Inv` guarantees it for every state the engine reaches.
- The animators have no `found` field. Whether a concluded search found the
  end is read off the state: the end has been removed from the frontier
  (equivalently, once finished, it is in `visited`). `Completeness`
  proves that this holds iff a route through the neighbour query leads
  from the start to the end.

## Model

| member | source | states |
|---|---|---|
| Grids.NewGrid | grid.py:24-35 | The constructor builds max(rows,0) row lists of max(cols,0) cells. The cell at [r][c] carries row r and column c. No fresh cell is a wall. |
| Grids.EveryCoordinateOnce | grid.py:30-35 | The coordinates carried by a constructed matrix are exactly the in-bounds coordinates. There are as many distinct ones as cells, so each occurs exactly once. |
| Grids.UniverseSize | grid.py:31-34 | A rows x cols grid has max(rows,0) * max(cols,0) in-bounds coordinates. |
| Grids.CellRect | grid.py:11-15 | The rectangle has the configured cell size. For a positive size its origin is the multiple of the cell width whose quotient is the cell's column, and the multiple of the cell height whose quotient is the cell's row. |
| Grids.CellRectContains | grid.py:11-15 | For positive cell sizes, the rectangle has the cell's size, and a pixel is inside it iff floor division by the cell size gives the cell's column and row. |
| Grids.CellRectsDisjoint | grid.py:11-15 | For positive cell sizes, no pixel lies in the rectangles of two cells with different coordinates. |
| SeqUtil.FirstUnseen | algorithms.py:70-75 | The coordinates the neighbour loop discovers are the neighbours not already visited, each listed once, in the order of their first occurrence in the neighbour list. |
| ParentChain.WalkShape | algorithms.py:81-87 | The walk starts at the given coordinate and takes at most `fuel` links. Each link is `parent.get` of the previous coordinate, and the walk stops where `parent.get` is None. |
| ParentChain.WalkNoDups | algorithms.py:81-87 | A walk that stops never repeats a coordinate, so the parent chain is acyclic. |
| ParentChain.WalkExtend | algorithms.py:72-74 | Adding parent entries to a closed map leaves existing walks, and their termination, unchanged. |
| ParentChain.ReconstructPath | algorithms.py:81-87 | The `while cur is not None` loop terminates whenever the walk stops. It marks exactly the walk's coordinates, end first. |
| Engine.Take | algorithms.py:57 | BFS `popleft` returns the first entry and leaves the rest in order. DFS `pop` (line 138) returns the last entry and leaves the rest in order. |
| Engine.Init | algorithms.py:11-25 | The constructor holds an empty frontier, no visited coordinate and no parent entry, is not finished, and leaves the grid's flags as they are. |
| Engine.StartSearch | algorithms.py:29-45 | Whatever state it starts from, the result has frontier [start], visited {start}, parent {start: None}, finished false. Only the start has `in_frontier`, and no cell has `is_visited` or `in_path`. |
| Engine.Expand | algorithms.py:70-78 | The neighbour loop never changes `finished`, `is_visited` or `in_path`. It only grows `visited`, only appends to the frontier, and never changes an existing parent entry, given that `visited` equals the parent keys. |
| Engine.Step | algorithms.py:49-78 | A finished engine is unchanged. An empty frontier only sets `finished`. Otherwise the step finishes iff the removed coordinate is the end. The rest of the frontier stays in order at its front, the removed coordinate gets `is_visited`, and no existing parent entry changes, given that `visited` equals the parent keys. |
| EngineInvariants.InitInv | algorithms.py:11-25 | The constructor's state satisfies the invariant, whatever the grid's flags are. |
| EngineInvariants.InitStep | algorithms.py:49-55 | Stepping an engine that was never started only sets `finished`. |
| EngineInvariants.StartSearchConsistent | algorithms.py:29-45 | On a valid grid, the state after `start_search` satisfies the invariant, its flags agree with it, and nothing has been removed yet. |
| EngineInvariants.StartSearchForgets | algorithms.py:29-40 | `start_search` gives the same state whatever state it is called from. |
| EngineInvariants.ExpandEffect | algorithms.py:70-78 | The loop appends the first-seen unvisited neighbours to the frontier, makes every neighbour visited, keeps `visited` equal to the parent keys, gives each new coordinate the current coordinate as parent, and sets `in_frontier` on exactly the new ones. |
| EngineInvariants.ExpandStep | algorithms.py:57-78 | A step that does not reach the end keeps the invariant. It removes exactly one coordinate, which was not removed before. The frontier becomes the remaining entries followed by the newly seen neighbours, and the flags move accordingly. |
| EngineInvariants.GoalStep | algorithms.py:57-67 | A step that removes the end keeps the invariant, finishes, leaves the parent map unchanged, and adds the walk from the end to `in_path`. |
| EngineInvariants.StepInv | algorithms.py:49-78 | Every step keeps the invariant. The frontier is visited and has no duplicates. `visited` equals the parent keys. Only the start lacks a parent. Every parent was removed before its child was found and lists the child as a neighbour. Every parent walk stops. The end is never removed without finishing. |
| EngineInvariants.StepConsistent | algorithms.py:49-87 | Every step keeps the flags in agreement with the engine. `in_frontier` is on the frontier, `is_visited` on the removed coordinates, and `in_path` on the walk from the end once the end is removed, nowhere before. |
| EngineInvariants.PathShape | algorithms.py:72-87 | Under the invariant, the parent walk from a discovered end stops. It stays among the visited coordinates, has no repeated coordinate and ends at the start. Read backwards, it goes from start to end: each link is the parent that discovered its child, and the child is in that parent's neighbour list. |
| EngineInvariants.StepFindsPath | algorithms.py:64-87 | Removing the end finishes the search and sets `in_path` on exactly the parent walk, which runs from the end to the start. |
| EngineInvariants.CellAccessesInRange | algorithms.py:42-87 | On a constructed grid of the engine's size, every `cells[r][c]` access the engine makes is in range and hits the cell that carries (r, c). This covers the start and every visited coordinate, and the path walk stays among the visited ones. |
| EngineInvariants.StartIsEnd | algorithms.py:38-67 | If start equals end, the first step after `start_search` finishes with only the start on the path. |
| Termination.RemovedBound | algorithms.py:57-62 | Removed coordinates are grid cells, so at most rows * cols are ever removed. |
| Termination.StepDecreases | algorithms.py:53-75 | A step from an unfinished state strictly lowers the measure: 0 when finished, otherwise 1 plus the number of cells not yet removed. |
| Termination.Run | main.py:107-108 | The driver's repeated `step` calls keep the invariant. |
| Termination.RunConsistent | main.py:107-108 | The driver's repeated `step` calls keep `in_frontier`, `is_visited` and `in_path` in agreement with the engine. |
| Termination.RunFinishes | algorithms.py:49-75 | As many steps as the measure are enough to reach `finished`. |
| Termination.SearchFinishes | algorithms.py:29-75 | After `start_search`, at most rows * cols + 1 steps finish the search, for either discipline. |
| Completeness.GoalStepExplored | algorithms.py:64-67 | A step that removes the end keeps every removed coordinate other than the end fully expanded, and a finished search has removed the end. |
| Completeness.ExpandStepExplored | algorithms.py:57-78 | A step that removes a coordinate other than the end discovers all of that coordinate's neighbours, so every removed coordinate other than the end stays fully expanded. |
| Completeness.StepExplored | algorithms.py:49-78 | Every step keeps the start discovered and every removed coordinate other than the end fully expanded. A search that finishes without removing the end has an empty frontier. |
| Completeness.RunExplored | main.py:107-108 | The driver's repeated steps keep that coverage property. |
| Completeness.DiscoveredIsReachable | algorithms.py:72-87 | Once the end is discovered, the parent walk from it, read backwards, is a route from the start to the end through neighbour lists. |
| Completeness.ExhaustionCoversRoutes | algorithms.py:53-55 | When the frontier is empty, every route from the start through neighbour lists has been discovered to its last coordinate, so the end has been discovered. |
| Completeness.ConcludedIffReachable | algorithms.py:49-78 | Under the invariant and that coverage property, a finished search has removed the end, and has it in `visited`, iff a route leads from the start to the end. |
| Completeness.RunConcludes | main.py:107-108 | If the driver's steps finish the search, it has found the end iff a route from the start to the end exists. |
| Completeness.SearchFindsIffReachable | algorithms.py:29-78 | After `start_search`, rows * cols + 1 steps finish the search, BFS or DFS. The end is found iff a route leads from the start to the end, So a walled-off end is exactly the case that finishes without removing the end, and that search ends with an empty frontier and no `in_path` cell. |
| Animators.DisciplineOf | algorithms.py:138 | The DFS class removes the newest entry (`pop`). The BFS class is the only one that removes the oldest (`popleft`, line 57). |
| Animators.BfsTakesOldest | algorithms.py:57-75 | A BFS step that does not reach the end removes the first frontier entry. The unseen neighbours are queued behind the remaining entries. |
| Animators.DfsTakesNewest | algorithms.py:138-156 | A DFS step that does not reach the end removes the last frontier entry. The unseen neighbours are pushed after the remaining entries. |
| Animators.SameStepOnSingleEntry | algorithms.py:130-159 | With a single frontier entry, the BFS and DFS steps give the same state: the classes differ only in which entry they remove. |

## Left out

- `Grid.neighbors`, `start`, `end`, `reset_search_state`, `transform_to_wall`, `clear_walls` and `generate_walls` are called by `algorithms.py` and `main.py` but are not defined in `grid.py`. The neighbour query, start and end are inputs (`Engine.GridView`), with in-bounds as an assumption. Flag clearing is part of `Engine.StartSearch`. Wall editing and random wall generation are not modelled.
- `Cell.draw`, `Grid.draw` and all of `ui.py`: pygame rendering and hover handling.
- `main.py` event loop, button hit-testing, frame clock and `stop_animation`: UI plumbing. Only the one-step-per-frame driving is reflected, in `Termination.Run`.
- `config.py` (grid size, cell size, colours) is not part of this model. The grid size and cell size are parameters.
- Grid cells are not indexed: flags are sets of coordinates. So the IndexError or negative-index wrap that an out-of-bounds coordinate would cause in Python is not modelled. `Engine.Valid` rules such coordinates out.
- Diagnostic counters (cells visited, path length) and elapsed-time measurement are not modelled: `algorithms.py` has none.
- The shortest-path property of BFS is deliberately out of scope: that the parent walk a FIFO search marks is a shortest route, over the directed graph the neighbour query defines, and hence no longer than a LIFO search's, is not proved. It would need a layering invariant over frontier distances on top of the invariants here.
- The 3 x 3 example runs (open grid, walled middle row) are not modelled: they need a concrete orthogonal neighbour function, and `grid.py` defines none.
