# Maze game: generator, wall layout and key handler

A Dafny model of the maze game in `maze-game/index.js`. The script builds a rectangular maze and lays it out as wall
rectangles. It also nudges the ball's velocity on key presses.

- **Shuffle** (`shuffle.dfy`): the `shuffle` helper. While the input array is not empty, it splices out the element at
  `Math.floor(Math.random() * arr.length)` and pushes it onto the result. `Shuffle.Shuffle` is the loop. It is proved to
  produce `Shuffle.Shuffled`, a recursive definition of the same order, and a permutation of the input. It also leaves the
  input empty.
- **Grid** (`grid.dfy`): the flag tables as values. A table is a `seq<seq<bool>>`. The module covers cells, the four
  directions, counting raised flags, "every neighbour visited" and reachability across a full grid.
- **Passages** (`passages.dfy`): the two passage tables.
  - `verticals[r][c]` opens the passage between (r, c) and (r, c + 1).
  - `horizontals[r][c]` opens the passage between (r, c) and (r + 1, c).
  - The invariant of the generator is `GrowingTree`. A ghost tree, with a root, parent links and depths, explains every
    open passage. Each visited cell other than the root hangs from a visited parent through an open passage. The number of
    open passages is one less than the number of visited cells.
  - The module's lemmas show that this invariant, once every cell is visited, means the passages form a spanning tree.
    Every cell is joined to the start, and there is no cycle.
- **Generator** (`generator.dfy`): the imperative core. Class `Maze` holds `grid`, `verticals` and `horizontals` as
  `array2<bool>`.
  - `StepThroughCell` is the recursive backtracker. It is split along the source's own structure:
    - the early return;
    - `VisitCell`: mark, then shuffle the four neighbours;
    - `TryNeighbours`: the `for … of` loop;
    - `VisitNeighbour`: one turn of the loop, with its two `continue`s and the recursive call;
    - `RemoveWall`: the `if`/`else if` chain of edge writes.
  - `Generate` draws the start cell; `GenerateFrom` makes the one top-level call. `Generate` ends with the following
    proved:
    - exactly 2 + 4·rows·cols random values were drawn;
    - every cell is visited;
    - `rows * cols - 1` passages are open;
    - the passages span the grid without a cycle;
    - there are `(rows - 1) * (cols - 1)` interior walls.
- **Layout** (`layout.dfy`): the arena constants and the four boundary walls. It also covers the two `forEach` passes that
  add one rectangle per closed slot: horizontal slots first, then vertical slots, each in row-major order. Coordinates are
  exact reals.
- **Controls** (`controls.dfy`): the keydown rule on the ball's velocity.
- **Wrappers** (`wrappers.dfy`): an `Option` type.

`Math.random()` is the function `random: nat -> UnitReal`. `UnitReal` is a real in [0, 1). The n-th call of the run
returns `random(n)`:

- `random(0)` and `random(1)` pick the start row and column.
- Each visited cell then uses the next four values for its shuffle.

The generator methods take the number of values drawn so far and return the new count.

The source fixes the grid at 8 × 8 (`Layout.GridRows`, `Layout.GridCols`). The model takes any `rows, cols >= 1`. The
arena geometry divides the 600 × 600 arena by those counts, and `Layout.SourceGeometry` gives the source's 75-unit cells.

Facts about the source that the model keeps:

- The start cell is random (lines 63-64).
- The key handler has no speed clamp.
- There is no playing/won state: the collision handler only logs.
- Sizes below 1 make the script throw a `RangeError` at its array allocation (lines 51, 57, 59), because one of the
  lengths is negative. The model excludes them with `requires rows >= 1 && cols >= 1`.

## Model

| member | source | states |
|---|---|---|
| Shuffle.Pick | maze-game/index.js:43 | `Math.floor(r * n)` with r in [0, 1) is a valid index: below n |
| Shuffle.Shuffled | maze-game/index.js:39-49 | the order of the random-removal shuffle has the input's length and is a permutation (same multiset) of it |
| Shuffle.Shuffle | maze-game/index.js:39-49 | the splice-and-push loop produces exactly `Shuffled(arr, draws)`, a permutation of the input, and leaves the input empty |
| Generator.SetFlag | maze-game/index.js:71 | writing `true` into one in-bounds entry raises exactly that flag; every other entry keeps its value |
| Generator.Neighbours | maze-game/index.js:73-78 | the neighbour list has four entries. Each entry is the cell one step away in its stated direction, and every direction appears |
| Generator.ShuffledNeighbour | maze-game/index.js:73-81 | every entry of a shuffled neighbour list is still one step from the cell in its direction |
| Generator.ReachedSurrounds | maze-game/index.js:80-107 | when every entry of the shuffled list is outside the grid or visited, every in-grid neighbour of the cell is visited |
| Generator.Maze.constructor | maze-game/index.js:51-61 | `grid` is rows × cols, `verticals` is rows × (cols − 1) and `horizontals` is (rows − 1) × cols, all three freshly allocated and all `false` |
| Generator.Maze.StepThroughCell | maze-game/index.js:66-108 | on a visited cell, nothing changes and no random value is drawn. Otherwise exactly four random values are drawn per newly visited cell, the cell ends visited, and flags are only ever raised. Every cell this call newly visits ends with all its in-grid neighbours visited. The open passages remain a tree over the visited cells rooted at the start, one fewer than the visited cells |
| Generator.Maze.VisitCell | maze-game/index.js:71-78 | for a cell not yet visited: it ends visited, and exactly four random values are drawn for each newly visited cell, this one included. The rest of StepThroughCell's results hold too |
| Generator.Maze.TryNeighbours | maze-game/index.js:80-107 | after the loop over the shuffled neighbours, every in-grid neighbour of the cell is visited. Exactly four random values are drawn per newly visited cell. Flags only grow and the tree invariant is kept |
| Generator.Maze.VisitNeighbour | maze-game/index.js:81-106 | for a neighbour outside the grid or already visited, the three arrays and the draw count are unchanged. Otherwise the passage from the cell to it ends open, and four random values are drawn per newly visited cell. Either way the neighbour ends outside the grid or visited |
| Generator.Maze.RemoveWall | maze-game/index.js:96-104 | the edge write for `direction` is within the bounds of `verticals` or `horizontals`. The passage tables become `Opened` of their old contents |
| Generator.Maze.Generate | maze-game/index.js:63-110 | the start cell is `Pick(random(0), rows)`, `Pick(random(1), cols)`. Starting from all-false tables, 2 + 4·rows·cols random values are drawn, every cell ends visited and exactly rows·cols − 1 passages are open. The passages join every cell to the start with no cycle, and (rows − 1)·(cols − 1) interior walls remain |
| Generator.Maze.GenerateFrom | maze-game/index.js:110 | the top-level call from an in-grid start cell on all-false tables draws 4·rows·cols values after the first two. Every cell ends visited, and the rows·cols − 1 open passages form a spanning tree rooted at the start |
| Generator.Maze.InteriorWalls | maze-game/index.js:112-144 | the walls laid out from the maze's passages number all slots minus the open passages |
| Passages.Opened | maze-game/index.js:96-104 | opening the slot for direction d at c links c with its neighbour in d. Every earlier link is kept, and no other link is added |
| Passages.OpenedGrows | maze-game/index.js:96-104 | opening a slot never lowers a passage flag |
| Passages.LinkedGrows | maze-game/index.js:106 | a passage once open stays open while flags are only raised |
| Passages.FirstCell | maze-game/index.js:51-61 | from all-false tables, nothing is counted, and the one-node tree at the start cell satisfies the generator invariant |
| Passages.MarkVisited | maze-game/index.js:71 | marking the cell just entered (or the start cell) keeps the invariant: passages = visited cells − 1 |
| Passages.SlotClosed | maze-game/index.js:92-94 | no open passage leads from a visited cell to an unvisited neighbour |
| Passages.CountOpened | maze-game/index.js:96-104 | opening a slot that was closed adds exactly one open passage |
| Passages.OpenPassage | maze-game/index.js:92-106 | opening the passage from a visited cell to an unvisited in-grid neighbour is within bounds and adds one passage. The neighbour becomes the pending child of the cell in the tree |
| Passages.LinkedIsTreeEdge | maze-game/index.js:96-106 | every open passage joins a cell to its tree parent |
| Passages.AdoptKeepsParents | maze-game/index.js:96-106 | adding the new child keeps every visited cell's parent edge |
| Passages.AdoptedVerticals | maze-game/index.js:96-99 | after opening a passage, every open vertical slot is a tree edge |
| Passages.AdoptedHorizontals | maze-game/index.js:100-103 | after opening a passage, every open horizontal slot is a tree edge |
| Passages.JoinedToRoot | maze-game/index.js:96-106 | open passages lead from the start cell to every visited cell |
| Passages.ClosedWalkRepeats | maze-game/index.js:96-106 | every closed walk of open passages repeats a cell, so there is no cycle |
| Passages.GrowingTreeSpans | maze-game/index.js:96-110 | once every cell is visited, the passages form a spanning tree rooted at the start |
| Passages.GeneratorFinished | maze-game/index.js:110 | when the top-level call returns from blank tables, every cell is visited (rows·cols flags raised) and rows·cols − 1 passages are open. They form a spanning tree |
| Grid.Step | maze-game/index.js:73-78 | the neighbour in a direction is adjacent: one row or one column away |
| Grid.Mark | maze-game/index.js:71 | raises exactly one flag and keeps the table's shape |
| Grid.CountMark | maze-game/index.js:71 | raising an unraised flag adds one to the count |
| Grid.CountFull | maze-game/index.js:110 | a rows × cols table with every flag raised counts rows·cols |
| Grid.CountBlank | maze-game/index.js:51-61 | an all-false table counts zero |
| Grid.AllReached | maze-game/index.js:110 | if the start is visited and every visited cell has all its neighbours visited, every cell of the grid is visited |
| Grid.NewlySurroundedTrans | maze-game/index.js:80-107 | across successive turns of the neighbour loop, every cell visited since the loop began stays with all its in-grid neighbours visited |
| Grid.NewlySurroundedMark | maze-game/index.js:71-107 | if a cell is marked, its loop then leaves it with all neighbours visited, and everything visited after the mark is so too, then every cell visited since before the mark is so |
| Grid.UnvisitedMark | maze-game/index.js:67-71 | marking an unvisited cell strictly shrinks the set of unvisited cells, so the recursion terminates |
| Layout.ArenaGeometry | maze-game/index.js:3-10 | cells tile the 600 × 600 arena exactly, and the wall width is `border / 2 = 10` |
| Layout.SourceGeometry | maze-game/index.js:3-10 | in the 8 × 8 arena, cells are 75 × 75 and the border is 20 |
| Layout.BoundaryWalls | maze-game/index.js:29-34 | four walls, each centred on the arena's outline, `border` thick and as long as its side |
| Layout.BoundaryEnclosesArena | maze-game/index.js:29-34 | every point on the arena's outline lies inside one of the four boundary rectangles |
| Layout.ClosedSlotsExact | maze-game/index.js:112-116 | the nested `forEach` passes visit exactly the closed slots, in row-major order. Closed plus open equals all slots |
| Layout.HorizontalWall | maze-game/index.js:118-124 | the wall for slot (r, c) lies on the line between rows r and r + 1. It spans column c with half a wall width of overlap at each end, and is one wall width thick |
| Layout.VerticalWall | maze-game/index.js:135-141 | the wall for slot (r, c) lies on the line between columns c and c + 1. It spans row r with half a wall width of overlap at each end, and is one wall width thick |
| Layout.HorizontalWalls | maze-game/index.js:112-127 | one wall per closed horizontal slot, the k-th wall closing the k-th closed slot |
| Layout.VerticalWalls | maze-game/index.js:129-144 | one wall per closed vertical slot, the k-th wall closing the k-th closed slot |
| Layout.InteriorWalls | maze-game/index.js:112-144 | all horizontal walls first, then all vertical walls, each closing its slot in slot order |
| Layout.HorizontalWallsExact | maze-game/index.js:112-127 | one wall per closed horizontal slot, at centre (c·cw + cw/2, r·ch + ch) with size (cw + ww, ww). No other wall is emitted, and the walls come in row-major order |
| Layout.VerticalWallsExact | maze-game/index.js:129-144 | one wall per closed vertical slot, at centre (c·cw + cw, r·ch + ch/2) with size (ww, ch + ww). No other wall is emitted, and the walls come in row-major order |
| Layout.InteriorWallsCount | maze-game/index.js:112-144 | the interior wall count is (rows − 1)·cols + rows·(cols − 1) minus the open passages |
| Layout.PerfectMazeWalls | maze-game/index.js:112-144 | with rows·cols − 1 open passages, (rows − 1)·(cols − 1) interior walls remain |
| Layout.TwoByTwoLayout | maze-game/index.js:112-144 | a 2 × 2 maze with 100-unit cells and only the top-left vertical passage open. The layout is: two horizontal walls at (50, 100) and (150, 100), then one vertical wall at (100, 150) |
| Controls.KeyDown | maze-game/index.js:170-188 | W/↑ subtracts 2 from y, D/→ adds 2 to x, S/↓ adds 2 to y, A/← subtracts 2 from x. Any other key leaves the velocity unchanged |
| Controls.KeyDownChanges | maze-game/index.js:170-188 | a key changes the velocity if and only if it is one of the eight steering keys |
| Controls.OppositeKeysCancel | maze-game/index.js:170-188 | a key followed by a key for the opposite direction restores the velocity |
| Controls.NoSpeedLimit | maze-game/index.js:177-179 | n presses of a rightward key add exactly 2n to x: the speed is not clamped |

## Left out

- Matter.js bodies, the renderer and the engine (lines 1, 12-25, 35, 118-125, 135-142) are left out. Walls are
  `Layout.WallSpec` records in a sequence, not bodies added to a world.
- The placement of the goal and the ball (lines 148-168) is left out. It is constant geometry with no logic.
- The collision handler (lines 192-196) is left out because it only logs.
- The DOM `keydown` listener and the reads and writes of `ball.velocity` (lines 170-171) are left out. Only the velocity
  rule is modelled, and velocities are exact reals rather than floating point.
- `Math.random()` is a caller-supplied function into [0, 1). Nothing is claimed about its distribution or about how
  likely any maze is.
- Shuffle.Shuffle: the input is a sequence, and the emptied array is returned as `rest`. The array object itself is not
  mutated in place. The only caller passes a fresh literal, so no alias can observe the difference.
- Generator.Maze.StepThroughCell: the JavaScript call stack is not modelled. The recursion depth is bounded only by the
  number of cells, as in the source.
- Generator.Maze.Generate: the grid dimensions are parameters `rows, cols >= 1` rather than the constants 8 and 8.
