# A* pathfinding on a 14 x 14 grid, modelled in Dafny

This project models the core of a small Python/tkinter program (`main.py`, `node.py`)
that runs an A* search over a grid of 14 x 14 cells with eight-way movement, one
expansion per timer tick, and then walks the parent links back from the end cell.
The user edits the grid with the mouse in one of five click modes, which are chosen
with the keys 1 to 5.

The model keeps the program's own shape:

- `Nodes.Node` (`node.dfy`) is a class. Its coordinates and cell size are constants.
  Its `parent`, `g`, `h`, `f` and `obstacle` fields are updated in place.
- `Pathfinding.App` (`app.dfy`) is a class. It owns the grid (`nodes`), the `open`,
  `closed` and `path` lists (fields of type `seq`), the start and end designations,
  and the five mode flags, which are an `array<bool>`.
- The integer octile distance is a pure function (`octile.dfy`).
- Python's `list.index` and `list.remove` are pure functions (`lists.dfy`).

The search state is tied to ghost specifications:

- `Snapshot()` maps each node of the grid to its search fields.
- `Walls()` is the set of obstacles.
- `Tree(open, closed, start, fields)` is the invariant of a search started from a reset.
  - The closed list has no duplicates and is rooted at the start: g = f = 0, no parent.
  - Every other closed or open node has f = g + h.
  - Each such node has a parent that is closed before it and adjacent to it, and the parent's g plus the step gives the node's g.
  - Open and closed are disjoint.
- `Extended` and `Relax` state, as functions of the state before the tick, what the
  neighbour scan of `find_path` appends to `open` and writes into the nodes.
- `Ancestry` is the chain of parents that `backtrack` walks.
- `Walk` and `Reachable` say which cells a search could ever get to. A walk moves one
  cell in any of the eight directions at a time. Every cell after the first is on the grid,
  is not an obstacle and is not the cell (0, 0), which the scan never examines (see below).
  - `Complete()` says the search has passed nothing over: the end is not closed, and every
    enterable neighbour of a closed node is open or closed.
  - `Unobstructed()` says no open or closed node other than the start is an obstacle or (0, 0).
  - Both hold when nothing is closed yet, and every tick that does not close the end keeps them.

Four behaviours of the code are modelled as written:

- The test that is meant to skip the current node compares the neighbour's absolute coordinates with (0, 0).
  - The current node is still skipped, because it is already closed.
  - The cell (0, 0) is never examined as a neighbour. It never gets a parent, so it can never be reached unless it is the start.
  - `Pathfinding.App.CornerNeverReached` proves this. So does the postcondition `end == nodes[0][0] && start != end ==> !found` of `Pathfinding.App.FindPath`: an end at (0, 0) is never found from any other start.
- The relaxation test `neighbour.f != None and temp_f < neighbour.f or neighbour not in self.open` groups as `(… and …) or …`.
  - A node is rewritten when it is not open, or when it has an f and the new f is strictly smaller.
  - `Improves` and `Pathfinding.App.Visit` state exactly that.
- Neither the clear-all click nor `set_start` clears `parent`, `g`, `h` or `f` on ordinary nodes.
  - Only the old start loses its g and f, and the new start gets g = f = 0.
  - The model keeps these stale fields: `Pathfinding.App.SetStart`, `Pathfinding.App.ClearAll` and `Pathfinding.App.Click` state that every other search field stays as it was.
  - A stale parent on the start is harmful; see `Pathfinding.App.FindPath` under "## Left out".
- The backtracked path ends with `None`, the start's parent, after the start.

## Model

| member | source | states |
|---|---|---|
| Octile.Distance | main.py:117-124 | the distance is 14 per diagonal step along the shorter axis plus 10 per remaining straight step. It lies between 10 and 14 times the larger coordinate difference and is 0 exactly for the same cell |
| Octile.DistanceSymmetric | main.py:117-124 | the distance from a to b equals the distance from b to a |
| Octile.StepCost | main.py:94-97 | between neighbouring cells the distance is 10 for a straight move and 14 for a diagonal one (0 for the cell itself) |
| Octile.TriangleInequality | main.py:117-124 | going through an intermediate cell is never cheaper than the direct distance, so the heuristic is consistent |
| Lists.IndexOf | main.py:175 | `list.index` returns the position of the first occurrence |
| Lists.RemoveFirst | main.py:64 | `list.remove` drops exactly the first occurrence: length minus one, multiset minus the element, and the other elements keep their order |
| Nodes.Node.constructor | node.py:2-20 | a new node stores the given x and y, has no parent, no g, h or f, and is not an obstacle |
| Nodes.Node.PixelLookup | node.py:8-13 | a pixel lies in the node's drawn square exactly when floor division by the cell size gives the node's coordinates |
| Nodes.Node.Repr | node.py:22-24 | `repr` is the decimal x, a space, then the decimal y; parsing it back gives (x, y) |
| Pathfinding.CreateGrid | main.py:38-47 | Cols columns of Rows fresh, pristine nodes; nodes[x][y] has coordinates (x, y), and every node of the grid sits at its own place |
| Pathfinding.PyIndex | main.py:138 | a Python subscript on a list of length len succeeds exactly for -len <= i < len and selects i mod len |
| Pathfinding.CellAt | main.py:138 | the click lookup succeeds exactly when both cell indices are valid Python subscripts; on the canvas it selects (px // 50, py // 50) |
| Pathfinding.App.ClickHitsSquare | main.py:138 | a click on any canvas pixel picks the node whose square covers that pixel |
| Pathfinding.LowestIndex | main.py:59-62 | the chosen open node has the lowest f, and every node before it has a strictly greater f: the first of the lowest |
| Pathfinding.App.SelectCurrent | main.py:59-62 | the selection loop returns the open node at `LowestIndex(open)` |
| Pathfinding.App.Close | main.py:64-66 | current leaves open (one occurrence removed) and is appended to closed; the search fields and obstacles are unchanged, and the search invariant is kept |
| Pathfinding.CloseKeepsTree | main.py:64-66 | moving an open node to the end of the closed list keeps the search invariant |
| Pathfinding.App.TakeLowest | main.py:55-66 | the first open node of lowest f moves from open to the end of closed, the path is emptied, validity and the search invariant are kept |
| Pathfinding.RelaxedFields | main.py:95-106 | a rewritten node gets g through the current node, h towards the end, f = g + h, and the current node as parent |
| Pathfinding.App.Visit | main.py:95-109 | the rewrite happens exactly when the node is not open or the new f is strictly below its f; the node joins open only when it was not open |
| Pathfinding.App.ScanCell | main.py:85-92 | an on-grid offset of the scan: the absolute cell (0, 0), closed nodes and obstacles are skipped, any other node is visited; the scan's bookkeeping advances by one position |
| Pathfinding.App.ScanVisit | main.py:87-109 | an examined neighbour is relaxed as `Relax` says and appended to open as `Extended` says; the scan's bookkeeping advances by one position |
| Pathfinding.App.ScanAt | main.py:76-92 | one offset of the scan: off-grid offsets, the absolute cell (0, 0), closed nodes and obstacles are skipped, and any other node is visited; the scan's bookkeeping advances by one position |
| Pathfinding.App.ScanRow | main.py:75-109 | the inner loop of the scan covers the three offsets of one column |
| Pathfinding.App.ExtendedBounds | main.py:74-109 | the scan only appends to open: old entries stay, appended nodes are examined neighbours scanned so far, and no node is appended twice |
| Pathfinding.App.ExtendedComplete | main.py:74-109 | the converse of `ExtendedBounds`: every grid node the scan has passed and examined (not (0, 0), not closed, not an obstacle) is in open afterwards |
| Pathfinding.App.ExpandNeighbours | main.py:74-110 | after the scan, open is `Extended(...)` of the old open and the search fields are `Relax(...)` of the old ones; closed, start, end, path and obstacles are unchanged |
| Pathfinding.RelaxKeepsTree | main.py:95-109 | relaxing around a closed node and appending examined nodes to open keeps the search invariant |
| Pathfinding.App.ExpandKeepsTree | main.py:74-109 | a full neighbour scan around a closed node keeps the search invariant |
| Pathfinding.App.ExpandKeepsCovered | main.py:64-109 | closing a non-end open node and scanning its neighbours keeps `Complete`: every enterable neighbour of the node just closed is open or closed afterwards |
| Pathfinding.App.CloseKeepsUnblocked | main.py:64-109 | closing an open node, and the scan after it, put no obstacle and not (0, 0) into open or closed |
| Pathfinding.App.Expand | main.py:73-110 | the expansion of a non-end node keeps validity and the search invariant |
| Pathfinding.App.Step | main.py:53-115 | one tick. With nothing open the result is Exhausted and nothing but the path changes. Otherwise the lowest node is closed: if it is the end, the result is GoalReached and the path is [end]; if not, its neighbours are relaxed as `Extended`/`Relax` say. Closed grows by one unless exhausted; validity, the search invariant, `Unobstructed()` and (unless the end was closed) `Complete()` are kept |
| Pathfinding.App.Advance | main.py:57-112 | the branch taken while something is open: the lowest node is closed, and either it is the end (GoalReached, path [end]) or its neighbours are scanned as `Extended`/`Relax` say; validity, the search invariant, `Unobstructed()` and (unless the end was closed) `Complete()` are kept |
| Pathfinding.App.ClearPath | main.py:55 | `self.path = []` changes nothing the search reads |
| Pathfinding.App.AppendPath | main.py:70 | appending to the path changes nothing the search reads |
| Pathfinding.App.InvScoreable | main.py:59-62 | under the search invariant every open node has a g and an f, so the comparison of f values never meets `None` |
| Pathfinding.App.GridBound | main.py:14-15 | a duplicate-free list of grid nodes has at most 14 x 14 entries |
| Pathfinding.App.Tick | main.py:53-115 | a tick keeps the search invariant, the obstacles and `Unobstructed()`, and keeps `Complete()` unless it closes the end; closed grows by exactly one unless the search is exhausted, and never exceeds 196 nodes; GoalReached leaves the path [end] with the end closed last, Exhausted leaves open and path empty |
| Pathfinding.App.Search | main.py:49-134 | the timer loop stops after at most 196 - old closed + 1 ticks, keeping the invariant. Either the end is closed last and `backtrack` leaves its parent walk plus `None` as the path, with g the walk's cost and at least the distance, or open and path are empty. Started with nothing passed over and nothing blocked open, it closes the end exactly when a walk leads from the start to it |
| Pathfinding.App.CornerNeverReached | main.py:85-86 | because of the absolute (0, 0) test, the node (0, 0) is neither open nor closed unless it is the start |
| Pathfinding.WalkClosed | main.py:74-115 | once nothing is open and nothing was passed over, a walk that starts at a closed node ends at a closed node |
| Pathfinding.NoRoute | main.py:114-115 | a search that runs out of open nodes with nothing passed over and the end not closed has shown that no walk leads from the start to the end |
| Pathfinding.WalkExtend | main.py:74-92 | a walk followed by an enterable neighbour of its last cell is a walk |
| Pathfinding.RouteFound | main.py:101-106 | when no closed node other than the start is blocked, the parent links give a walk from the start to every closed node |
| Pathfinding.App.FreshSearch | main.py:21-27 | a search that has closed nothing, such as the one the constructor and a reset leave, has passed nothing over and holds nothing blocked |
| Pathfinding.Ancestry | main.py:126-134 | the parent walk from a closed node starts at it, ends at the start (which has no parent), stays in closed, and links each node to its parent |
| Pathfinding.ParentEarlier | main.py:101-106 | a closed node other than the start has a closed parent, which sits earlier in the closed list and gives it its g |
| Pathfinding.StaleParentCycle | main.py:126-134 | when the start and a node p are each other's parent, no chain of parents that reaches the start ends in `None`, so `backtrack` never stops |
| Pathfinding.AncestryChain | main.py:126-134 | the parent walk followed by `None` is a chain of parents |
| Pathfinding.AncestryDistinct | main.py:126-134 | the parent walk visits no node twice |
| Pathfinding.AncestryCost | main.py:95-106 | a closed node's g is the sum of the step distances along its parent walk |
| Pathfinding.CostAtLeastDistance | main.py:95-106 | a closed node's g is never below its octile distance from the start |
| Pathfinding.App.Backtrack | main.py:126-134 | one tick of backtrack: done exactly when the last path entry is `None`; otherwise that node's parent is appended; nothing else changes |
| Pathfinding.App.BacktrackAll | main.py:126-134 | repeating backtrack from [t[0]] over a chain of parents t ending in `None` builds exactly t |
| Pathfinding.App.ShowPath | main.py:68-72 | from path [end] with the end closed last, backtracking yields the end's parent walk followed by `None`; end's g is that walk's cost and at least the distance from the start; closed and the obstacles stay |
| Pathfinding.App.FindPath | main.py:49-134 | pressing Enter either finds the end, with the path as its parent walk plus `None` and g equal to the walk's cost, or exhausts open with an empty path. From a state with nothing closed it finds the end exactly when a walk leads from the start to it, so "not found" means no route exists. The obstacles are unchanged, so the walk is one around the obstacles the user drew. An end at (0, 0) is never found from another start |
| Pathfinding.App.constructor | main.py:6-35 | the application starts with no mode selected, no obstacles, open = [nodes[0][0]] with g = f = 0, nothing closed, end = nodes[-1][-1], and the search invariant; every other node is still pristine |
| Pathfinding.App.InitialSearchInv | main.py:21-27 | the state after a reset (only the start open, nothing closed) satisfies the search invariant |
| Pathfinding.App.Restart | main.py:146-149 | open and closed emptied, start = nodes[0][0] with g = f = 0, end = nodes[-1][-1], so `Initial()` holds (only the start open, nothing closed); obstacles untouched; the old start loses g and f and every other search field stays |
| Pathfinding.App.SetStart | main.py:177-192 | the old start loses g and f and leaves open; the new start gets g = f = 0, keeps its parent and h, and is appended to open; every other search field, closed, end and the obstacles stay; when `Initial()` held before (only the start open, nothing closed), a new start without a parent keeps `Initial()` |
| Pathfinding.App.PlaceStart | main.py:188-191 | the node becomes the start with g = f = 0 and is appended to open; nothing else changes |
| Pathfinding.App.DropStart | main.py:179-186 | the current start, if any, loses g and f and one occurrence of it leaves open |
| Pathfinding.App.SetEnd | main.py:194-199 | only the end designation moves: open, closed, start, the search fields and the obstacles stay |
| Pathfinding.App.ClearObstacles | main.py:142-145 | the loop over all nodes leaves no obstacle and no changed search field |
| Pathfinding.App.ClearAll | main.py:140-149 | the clear-all click leaves no obstacles and the reset state; only the old start loses g and f and (0, 0) gets g = f = 0, every other search field (stale parents included) stays; applied to the reset state it changes no search field, so it is idempotent |
| Pathfinding.App.SetObstacle | main.py:151-159 | only the clicked node's obstacle flag changes: the obstacles gain or lose exactly that node, with no guard for start or end |
| Pathfinding.App.Click | main.py:136-167 | a click whose cell index is out of range, or with no mode selected, changes nothing; otherwise the selected mode acts on the clicked node: a reset (as `ClearAll`), adding or removing that obstacle or moving the end (open, closed, start and search fields unchanged), or moving the start (as `SetStart`); validity is kept |
| Pathfinding.App.OnKey | main.py:169-175 | a key '1' to '5' leaves exactly the flag at its index set; any other key leaves the flags unchanged |

## Left out

- The tkinter window is not modelled: `Tk`, the canvas, rectangles, `bind`, `mainloop` and `change_color`. Colours are display only.
  - The square of a node is kept as `Nodes.Node.Square`, computed from its coordinates and the cell size.
  - The node's reference back to the application is dropped.
- The `root.after` and `after_cancel` timers become calls repeated until a terminal result: recursion in `Pathfinding.App.Search` and a loop in `Pathfinding.App.BacktrackAll`. The delays between ticks are not modelled.
  - Clicks and keys that the user could deliver between two ticks of a running search are not modelled.
  - `Pathfinding.App.FindPath` runs the search to its end.
- Event objects are replaced by integer pixel coordinates (click) and a character (key).
- `import math` is unused by the program and has no counterpart.
- Pathfinding.App.Step: requires every open node to have a g and an f. With a `None` f, Python's `<` raises TypeError, and that path is not modelled.
  - Under the search invariant the requirement always holds (`Pathfinding.App.InvScoreable`).
  - Only a `set_start` issued in the middle of a search could break it. Search behaviour after such an edit is not modelled.
- Pathfinding.App.Step: empties `path` when it closes the node rather than first thing in the tick. No statement in between reads `path`, so the outcome is the same.
- Pathfinding.App.Click: tests the five mode flags as an if/else chain rather than five separate ifs.
  - At most one flag is ever set (`OneModeAtMost`, kept by `Pathfinding.App.OnKey`), so both forms behave the same.
  - A Python IndexError on a click outside the grid is modelled as `ok == false` with no change.
- Pathfinding.App.constructor: sets the mode flags and the empty `path` before placing the start and end.
  - Python creates `events` only after calling `set_start`/`set_end`, and creates `path` only in `find_path`.
  - Neither of those calls reads them.
- Pathfinding.App.FindPath: requires the search invariant, which asks the start to have no parent. The program does not guarantee that.
  - Input: finish a search; press 1 and click (reset); press 4 and click a cell n that got a parent p in that search, p neither (0, 0) nor an obstacle; press Enter.
  - `set_start` and the reset leave n's parent p (`Pathfinding.App.SetStart`, `Pathfinding.App.ClearAll`). The first expansion closes n and gives p the parent n (main.py:101-106).
  - Once the end is closed, `backtrack` appends n, p, n, p, ... without end (unless the end is n) (`Pathfinding.StaleParentCycle`). If p is (0, 0), which the scan never rewrites, the path instead runs on past the start to (0, 0).
  - A search from such a state is not modelled. From the state the constructor leaves, every node other than the start has no parent, so moving the start there keeps the search invariant (`Pathfinding.App.constructor`, `Pathfinding.App.SetStart`).
- Pathfinding.App.Restart: stands for the two calls `set_start(nodes[0][0])` and `set_end(nodes[-1][-1])` shared by the constructor and the clear-all click.
- Python's integers are unbounded, as Dafny's `int` is, so no wrap-around is modelled.
