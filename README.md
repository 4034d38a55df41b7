# Lightning maze engine

A model of the maze engine in `Sketch.java` of the Lightning Maze generative-art sketch.

A `Maze` owns a `width` by `height` array of `Cell`s. Each slot is null until the generator instantiates it. The constructor works in three steps:

- It picks a start position on the top row and an end position on the bottom row, each in a random column.
- It runs `generate` from the start. This is a randomized recursive backtracker. It instantiates the slot at the current position and draws the four directions in random order without replacement. For each direction that stays inside the grid and leads to a null slot, it calls `addConnection` on the current cell and recurses there.
- It runs `solve` from the start cell. This is a depth-first search over the recorded connections. It skips cells already visited and stops at the first connection that reaches the end cell. It repaints the lightning path yellow on the way back.

`setup()` builds a 32 by 45 maze and then calls `generate(startCell)` a second time.

The Dafny project has five modules:

- `Geometry` (`geometry.dfy`): directions, positions, the edge test `validateDirection`, the offset `directionToCoords`, and the draw-without-replacement bookkeeping. It also proves that the grid is connected.
- `Trees` (`trees.dfy`): the generator's `addConnection` calls as a log of parent-to-child edges. It defines what it means for such a log to be a spanning tree rooted at the start.
- `Cells` (`cells.dfy`): the `Cell` class. It also states what `addConnection` appends, including the fall-through of its LEFT case, and the connection list a cell ends up with for a given log.
- `Search` (`search.dfy`): chains of connections through unvisited cells, what a failed search leaves behind, and the cells a successful search repaints.
- `Mazes` (`maze.dfy`): the `Maze` class, with the array of cells and the generator and solver as methods that update it in place, plus `setup()`.

The class's ghost state ties the array to the proofs:

- `slots` maps each instantiated position to its cell.
- `edges` logs every `addConnection` call the generator made.
- `Links()` maps each position to its cell's connection list.
- `Visited()` and `Lit()` are the positions the solver entered and the positions it repainted.
- `Sky()` is the positions whose cell still has a blue channel of 255.

The `while` loop over the directions stays a `while` loop, and the `for` loop over the connections becomes one. Each loop body is its own method (`Turn`, `Extend`, `Descend`, `Follow`, `Pursue`), so each proof stays small. The methods call one another recursively in the same order as the Java code.

## Model

| member | source | states |
|---|---|---|
| Geometry.AllDirs | src/main/java/com/processing/sketch/Sketch.java:439-444 | `Dir.values()` lists four directions that include each of Up, Down, Left and Right. |
| Geometry.RemoveAt | src/main/java/com/processing/sketch/Sketch.java:100 | `remove(i)` returns the element at `i`. The list left behind is one shorter and keeps every other element in its original order. |
| Geometry.DrawKeeps | src/main/java/com/processing/sketch/Sketch.java:98-100 | Drawing one direction out of the pool keeps every direction either in the pool or among those drawn, and keeps the total at four. |
| Geometry.EachOnce | src/main/java/com/processing/sketch/Sketch.java:95-100 | Once the pool is empty, the four directions drawn are pairwise distinct, so each direction is tried exactly once. |
| Geometry.Step | src/main/java/com/processing/sketch/Sketch.java:315-330 | `directionToCoords` gives a position adjacent to the input. Up and Down keep the column. Up and Left decrease a coordinate. |
| Geometry.ValidDirection | src/main/java/com/processing/sketch/Sketch.java:273-305 | From a position inside the grid, `validateDirection` holds exactly when the step stays inside the grid. So it is false exactly on the matching edge. |
| Geometry.StepInjective | src/main/java/com/processing/sketch/Sketch.java:315-326 | Different directions lead to different neighbours. |
| Geometry.AllCoords | src/main/java/com/processing/sketch/Sketch.java:70 | Every position it lists lies inside the `width` by `height` array. |
| Geometry.AllCoordsMembers | src/main/java/com/processing/sketch/Sketch.java:70 | The array's positions are exactly the in-bounds coordinates. |
| Geometry.GridSize | src/main/java/com/processing/sketch/Sketch.java:70 | The array has `width * height` positions. |
| Geometry.ClosedRegionCoversGrid | src/main/java/com/processing/sketch/Sketch.java:103-111 | Suppose a set of positions contains one grid position and has no valid step leading out of it. Then it contains the whole grid, which is why the generator fills every slot. |
| Trees.TreeSize | src/main/java/com/processing/sketch/Sketch.java:108-110 | A spanning tree of `n` positions has exactly `n - 1` calls. |
| Trees.FromsAreNodes | src/main/java/com/processing/sketch/Sketch.java:109 | Every call of a tree is made from a position of that tree. |
| Trees.Graft | src/main/java/com/processing/sketch/Sketch.java:108-110 | A tree, then a call from one of its nodes to a position outside it, then a tree rooted at that position over fresh nodes, together form one tree over the union. |
| Trees.PathFromRoot | src/main/java/com/processing/sketch/Sketch.java:108-110 | Following parent calls back from any call of a tree reaches a call made from the root. |
| Cells.AddedEntries | src/main/java/com/processing/sketch/Sketch.java:399-430 | `addConnection(d)` appends only copies of `d`, at most two, and two only for LEFT. For UP, DOWN and RIGHT it appends exactly when the direction is valid. For LEFT it appends when either LEFT or RIGHT is valid. |
| Cells.LeftAppendedOffGrid | src/main/java/com/processing/sketch/Sketch.java:416-427 | On column 0 of a maze wider than one column, LEFT is invalid yet is appended once. |
| Cells.LeftAppendedOnceAtLastColumn | src/main/java/com/processing/sketch/Sketch.java:416-427 | On the last column of a maze wider than one column, LEFT is valid and is appended once, because the RIGHT test it falls into fails. |
| Cells.LeftAppendedTwice | src/main/java/com/processing/sketch/Sketch.java:416-427 | On an interior column, LEFT is appended twice. |
| Cells.Cell.constructor | src/main/java/com/processing/sketch/Sketch.java:373-392 | A new cell stores its visited flag, the maze size and its position. It has no connections and is not repainted. |
| Cells.Cell.SkyBlue | src/main/java/com/processing/sketch/Sketch.java:147 | The test `cell.rgb[2] == 255` fails on a cell the solver repainted (blue channel 0) and on a grey cloud cell. `Mazes.Maze.SkyBlueIsSky` gives the exact set it holds on. |
| Cells.Cell.AddConnection | src/main/java/com/processing/sketch/Sketch.java:399-430 | The connection list grows by exactly the entries `AddedEntries` describes, and nothing else changes. |
| Cells.ConnectionsAreCalls | src/main/java/com/processing/sketch/Sketch.java:109 | Every entry of a cell's connection list comes from some `addConnection` call made on that cell with that direction. |
| Cells.ConnectionsFromHas | src/main/java/com/processing/sketch/Sketch.java:109 | A valid call leaves its direction in the caller's connection list. |
| Cells.ConnectionsAfterGraft | src/main/java/com/processing/sketch/Sketch.java:109-110 | Grafting a subtree adds the call's entries to the parent's list. It leaves the lists of the other tree nodes unchanged. |
| Cells.RootIsConnected | src/main/java/com/processing/sketch/Sketch.java:108-110 | In a tree with at least one call, the root's connection list is not empty. |
| Search.ValidCallsAreLinked | src/main/java/com/processing/sketch/Sketch.java:127-128 | Once every slot is filled, each connection left by the generator leads to a cell. So `getViaCoords` in `solve` never yields null. |
| Search.ExhaustedMeansUnreachable | src/main/java/com/processing/sketch/Sketch.java:157-158 | Suppose a search returned false after visiting every cell it reached. Then no chain of connections through cells unvisited at its start leads to the end. |
| Search.ChainPrepend | src/main/java/com/processing/sketch/Sketch.java:140-151 | A chain found from a neighbour extends to a chain from the current cell. The neighbour is repainted exactly when the current cell is still sky blue. |
| Search.AbsorbFailedSearch | src/main/java/com/processing/sketch/Sketch.java:141-153 | After a recursive call that fails, the caller's failure bookkeeping still holds. |
| Search.NeverReachesItself | src/main/java/com/processing/sketch/Sketch.java:131-134 | `solve` compares only targets with the end cell, so no search succeeds on its own position. |
| Search.MarksOnPath | src/main/java/com/processing/sketch/Sketch.java:133-151 | The repainted cells lie on the found chain after its first position, and include the end cell. |
| Search.TreeReachesEveryNode | src/main/java/com/processing/sketch/Sketch.java:122-159 | In the generated tree, a chain of connections leads from the start to every other cell without re-entering the start. |
| Mazes.Maze.SkyBlueIsSky | src/main/java/com/processing/sketch/Sketch.java:147 | On an instantiated cell, `cell.rgb[2] == 255` holds exactly when its position is in `Sky()`, the set the lightning marks are computed from. |
| Mazes.Maze.CellAt | src/main/java/com/processing/sketch/Sketch.java:260-262 | `getViaCoords` returns a cell exactly when the slot is instantiated. That cell is the one `slots` lists, and it knows its own position. |
| Mazes.Maze.constructor | src/main/java/com/processing/sketch/Sketch.java:63-80 | The start is on the top row and the end on the bottom row. Every slot is filled. The calls form a spanning tree rooted at the start, with `width * height - 1` edges. Each cell holds the connections made from it. Every connection leads to a cell. The start is visited and never repainted. The end is repainted exactly when it differs from the start. In that case some chain of connections from the start to the end, never re-entering the start, is the lightning path: the repainted cells are exactly the ones it marks. Otherwise nothing is repainted. |
| Mazes.Maze.GenerateFromStart | src/main/java/com/processing/sketch/Sketch.java:78 | `generate(startCell)` on an all-null array fills every slot with a fresh, unvisited cell. Its calls form a spanning tree rooted at the start, and each cell holds the connections those calls made from it. |
| Mazes.Maze.SolveFromStart | src/main/java/com/processing/sketch/Sketch.java:79 | `solve(getViaCoords(startCell))` on the generated maze enters the start and never repaints it. It repaints the end exactly when the end is not the start. Then the ghost `path` is a chain of connections from the start to the end, and the repainted cells are exactly the ones it marks given the sky-blue cells `sky` at the start of the search. Otherwise nothing is repainted. |
| Mazes.Maze.Untouched | src/main/java/com/processing/sketch/Sketch.java:78-79 | Between the constructor's `generate` and `solve`, each cell holds the connections the log made from it, every connection leads to a cell, and no cell is visited or repainted. |
| Mazes.Maze.Generate | src/main/java/com/processing/sketch/Sketch.java:90-114 | Instantiates a fresh cell at `c` and tries each direction exactly once. Only null slots are instantiated, each at most once, and none before `c` is replaced. The new calls form a spanning tree rooted at `c` over the new slots. No valid step leads out of the filled region. Each new cell holds exactly the connections its calls made and is unvisited. |
| Mazes.Maze.Instantiate | src/main/java/com/processing/sketch/Sketch.java:92 | The slot at `c` now holds a fresh, unconnected cell. The other slots are unchanged. |
| Mazes.Maze.Explore | src/main/java/com/processing/sketch/Sketch.java:95-113 | The direction loop draws each direction once. Afterwards every valid step from `c` leads to a filled slot, and the calls it made form a spanning tree over the slots it filled. |
| Mazes.Maze.Turn | src/main/java/com/processing/sketch/Sketch.java:98-112 | One iteration removes a direction from the pool and records it as drawn. It keeps the loop's invariants: tree, freshness, unchanged older slots, and closed cells. |
| Mazes.Maze.Extend | src/main/java/com/processing/sketch/Sketch.java:103-112 | If the drawn direction is valid, its slot is filled afterwards. Recursion happens only into a null slot. |
| Mazes.Maze.Descend | src/main/java/com/processing/sketch/Sketch.java:108-110 | `addConnection` followed by the recursive `generate` grafts the nested pass's tree under the current cell. It changes only the current cell's connection list. |
| Mazes.Maze.Regenerate | src/main/java/com/processing/sketch/Sketch.java:30 | Calling `generate(startCell)` again on a full maze makes no call and leaves every other slot unchanged. It puts a fresh cell with no connections at the start, although the log has calls from the start. Every other cell keeps its visited flag and its colour, so the repainted, visited and sky-blue positions other than the start are unchanged. |
| Mazes.Maze.Solve | src/main/java/com/processing/sketch/Sketch.java:122-159 | Marks the cell visited. It returns true exactly when some chain of connections through cells unvisited at its start reaches the end cell, and then the ghost path is such a chain. On success the repainted cells are those the chain marks. On failure nothing is repainted and every cell it entered has all its targets visited. |
| Mazes.Maze.Visit | src/main/java/com/processing/sketch/Sketch.java:124 | Only the cell's position joins the visited set. |
| Mazes.Maze.Light | src/main/java/com/processing/sketch/Sketch.java:137 | Only the target's position joins the repainted set. |
| Mazes.Maze.Scan | src/main/java/com/processing/sketch/Sketch.java:127-158 | The connection loop stops at the first connection that reaches the end, with the same outcome as `Solve`. |
| Mazes.Maze.Follow | src/main/java/com/processing/sketch/Sketch.java:128-138 | One connection: a visited target is skipped. The end cell is repainted and yields a two-cell chain. Any other target is searched recursively. |
| Mazes.Maze.Pursue | src/main/java/com/processing/sketch/Sketch.java:140-152 | Success from the recursive call extends its chain by the current cell. The target is repainted only if the current cell is sky blue. |
| Mazes.TreeSpansGrid | src/main/java/com/processing/sketch/Sketch.java:78 | A spanning tree of the whole grid has `width * height - 1` calls. |
| Mazes.Setup | src/main/java/com/processing/sketch/Sketch.java:20-31 | After `setup()` every slot is still filled and the log is still a spanning tree. Every cell except the start keeps its connections. The start cell has none, although the tree has calls from the start. The ghost `lightning` is a chain of the connections the log made, from the start to the end, never re-entering the start, whenever the two differ. The ghost `sky` agrees with the cells' colours everywhere except at the replaced start cell. The repainted cells are still exactly the ones `lightning` marks given `sky`, and nothing is repainted when the end is the start. The end is repainted exactly when it differs from the start. |

## Left out

- Drawing: `drawToCanvas`, the PDF canvas, `rectMode` and `background` are not modelled.
- Cell colours: `rgb` is reduced to two facts, whether the constructor chose a grey cloud colour (`cloud`) and whether the solver repainted the cell yellow (`lit`). `Cell.SkyBlue` holds exactly when the blue channel is still 255.
- Cells.Cell.constructor: the cloud test uses floating-point `sin`, `cos` and `abs`, so the model picks `cloud` arbitrarily. The random shades are not modelled.
- Randomness: every `r.nextInt` is modelled by choosing any value in the allowed range. The proved properties hold for every choice.
- `Pair` is a structural `Coord`, compared by value. `Pair.equals` compares boxed `Integer`s with `==`, which is identity. Java shares boxes only for -128 to 127, which covers every coordinate of the 32 by 45 maze `setup()` builds.
- Mazes.Maze.constructor: for other sizes the model diverges from Java. When the maze is taller than 128 rows, or the end column is above 127, the end's coordinates and a target's coordinates are distinct boxes, so `target.coords.equals(endCell)` is always false. Java's `solve` then never finds the end and repaints nothing. The model's contract still promises that the end is repainted whenever it differs from the start.
- Geometry.Step: the fallback in `directionToCoords` after the `switch` (it calls itself again) cannot be reached for a `Dir`, so it is not modelled.
- Mazes.Maze.constructor: requires `width >= 1` and `height >= 1`. Java throws for smaller sizes (`nextInt(0)` or an index past the array), and the model does not return an error for them.
- Integer width: Java `int` arithmetic on coordinates never wraps for mazes whose size fits an array, so the model uses unbounded integers.
- Stack depth: Java may overflow its stack on very large mazes. The model recurses without limit.
- The split of `generate` into `Generate`, `Instantiate`, `Explore`, `Turn`, `Extend` and `Descend` is not in the source, and neither is the split of `solve` into `Solve`, `Visit`, `Scan`, `Follow`, `Pursue` and `Light`. Each is one part of the original body, called in the original order.
- The same holds for the constructor's `GenerateFromStart`, `SolveFromStart` and the second `generate` call in `Regenerate`.
- Where the source and its description disagree, the model follows the source:
  - `addConnection` is not a no-op for every invalid direction. Its LEFT case falls through into the RIGHT test, so LEFT can be appended twice, or appended on column 0.
  - `solve` never compares the cell it was called on with the end, so a maze whose start equals its end reports no path.
  - `solve` follows only the parent-to-child connections the generator recorded, never in reverse.
  - `solve` returns a boolean and repaints cells instead of returning the path. The path exists only as a ghost result.
  - The `visited` flags are never reset.
