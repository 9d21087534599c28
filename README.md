# Randomized Prim's maze carver in Dafny

This project models the `PrimsMaze` class of `Program.cs`. The class carves a maze into a
`height × width` integer grid using a randomized Prim's-style algorithm.

The grid holds four cell codes: `UNVISITED = 0`, `PATH = 1`, `WALL = 2` and `VISITED = 3`.
A list `frontier` holds the cells still waiting to be processed.

The constructor allocates a grid with every cell unvisited, puts the start position in the
frontier and calls `Run`. Each iteration of `Run`:
1. draws a random index into the frontier;
2. calls `CheckOppositeNeighbors` on that entry;
3. removes the entry at that index.

`CheckOppositeNeighbors` marks the cell a path. Then, for each of the four cells two steps away
that pass the `KeepInRange` test, it calls `BuildMazeX` or `BuildMazeY`. These apply a small
case table to that target cell, to the cell between, and to the frontier.

The project has three modules:

- `Carving` (carving.dfy) is the carving step on values.
  - `State` holds the dimensions, the grid as `seq<seq<int>>` (indexed `grid[y][x]`, as the
    source's `maze[y, x]`) and the frontier as `seq<Pos>`.
  - `Carve` is the case table. `BuildX` and `BuildY` are the two builders.
  - `Process` is CheckOppositeNeighbors. It marks `pos`, then runs the four directional steps
    in the source's order: -x, +x, -y, +y.
  - `ProcessSpec` gives the new value of every cell after a Process call. For the frontier it
    gives the old entries, which stay in front, and the set of appended cells, but not their
    order. `ProcessEffect` proves that Process meets it.
- `Generation` (generation.dfy) is the Run loop on values.
  - `Iterate` is one iteration and `Valid` is the loop invariant.
  - The termination measure is lexicographic: the set of unvisited cells, then the frontier
    length.
  - `Generate` is the whole run: a recursive function of the random draws.
  - Lemmas prove what the run guarantees. The maze reaches every cell of the start's lattice
    (the cells whose coordinates differ from the start's by even amounts). Each of those cells
    leads back to the start by hops of two cells, each through a path cell.
- `Prims` (prims_maze.dfy) is the class itself.
  - The grid is an `array2<int>` and the frontier a `seq<Pos>` field, both updated in place.
  - A ghost field `model` is kept in step with every write.
  - Each method is proved to turn `old(model)` into the value computed by the matching function
    of `Carving` or `Generation`, so every lemma about those functions holds of the object.

Randomness is a parameter. `rand(k, n)` is the value returned by the k-th call of
`Random.Next(0, n)`. `DrawsInRange(rand)` states the only thing the source relies on, that
`rand(k, n) < n` whenever `n > 0`. No other property of the random generator is assumed, so
every result holds for every sequence of draws.

## Model

| member | source | states |
|---|---|---|
| Carving.KeepInRange | Program.cs:133-136 | true exactly when `0 <= val` and `val <= bound` |
| Carving.Between | Program.cs:58 | for sign 1 or -1, the result is the midpoint of the target `t` and the processed cell `t - 2 * sign` |
| Carving.State.Write | Program.cs:58-60 | a single array store: the written cell holds the value, every other cell and the frontier are unchanged |
| Carving.Carve | Program.cs:52-77 | the case table. Unvisited target: the cell between becomes a path, the target becomes visited and is appended to the frontier. Wall target: the cell between becomes a path; target and frontier unchanged. Path or visited target: the cell between becomes a wall unless it is already a path; target and frontier unchanged. Any other value: nothing changes. No cell other than the target and the cell between ever changes |
| Carving.BuildX | Program.cs:49-78 | the cell between gets the case table's value, the target becomes visited if it was unvisited and keeps its value otherwise, the frontier gains the target exactly when it was unvisited, and no other cell changes |
| Carving.BuildY | Program.cs:80-104 | the same as BuildX, for a target in the same column |
| Carving.LeftStep | Program.cs:111-114 | shape only: a well-formed grid of the same dimensions and a frontier no shorter. What the step does is stated by ProcessEffect and ProcessLink |
| Carving.RightStep | Program.cs:116-119 | shape only, as LeftStep |
| Carving.UpStep | Program.cs:121-124 | shape only, as LeftStep |
| Carving.DownStep | Program.cs:126-129 | shape only, as LeftStep |
| Carving.Toward | Program.cs:111-129 | shape only: selects directional step `d` in the source's order -x, +x, -y, +y |
| Carving.Steps | Program.cs:111-129 | shape only: the directional steps from number `d` on, one after the other |
| Carving.Process | Program.cs:106-130 | shape only: well-formed, same dimensions, frontier no shorter. What CheckOppositeNeighbors does is stated by ProcessEffect |
| Carving.ProcessEffect | Program.cs:106-130 | after CheckOppositeNeighbors(pos), `pos` is a path. Each in-range two-step cell that was unvisited is now visited, and any other keeps its value. A cell one step away holds the case table's value when the cell beyond it is in range, and keeps its value otherwise. Every other cell is unchanged. The old frontier is a prefix of the new one, and what was appended is exactly the distinct in-range two-step cells that were unvisited |
| Carving.ProcessLink | Program.cs:109-129 | Process is the write at `pos` followed by the four range-checked directional steps, in the source's order |
| Generation.Iterate | Program.cs:40-42 | shape only: a well-formed grid of the same dimensions. What an iteration does is stated by IterateFrontier, IterateKeepsValid, IterateShrinks and IterateGrown |
| Generation.RemoveAt | Program.cs:42 | List.RemoveAt: one element shorter; the elements before `i` keep their place and those after it move down by one |
| Generation.IterateFrontier | Program.cs:40-42 | each iteration removes exactly the processed entry: the new frontier is the old one without index `index`, followed by the entries appended while processing |
| Generation.IterateKeepsValid | Program.cs:38-45 | one iteration preserves the loop invariant. Every cell holds one of the four codes; every frontier entry is in bounds; the frontier has no duplicates; every visited cell is in the frontier; while the frontier has a single entry that entry may still be unvisited, and otherwise no entry is |
| Generation.StepCodes | Program.cs:49-109 | no write sets a cell back to unvisited, a path cell stays a path, and stored values stay in 0..3 |
| Generation.KeptFacts | Program.cs:42 | the entries left after the removal are distinct, in bounds, settled, and differ from the processed entry |
| Generation.Unvisited | Program.cs:52-60 | the termination measure, which the source does not compute: the set of in-range unvisited cells, defined by membership both ways. Every store of a nonzero code over an unvisited cell shrinks it: Program.cs:58, 60, 69, 75, 85, 87, 94, 101 and 109 can each do so |
| Generation.IterateShrinks | Program.cs:36-46 | every iteration goes down in the order (unvisited cells, frontier length). Either some unvisited cell is marked (visited, or a path at the start), or nothing is appended and the frontier loses one entry |
| Generation.IterateGrown | Program.cs:38-45 | across one iteration no cell becomes unvisited and no path cell changes |
| Generation.GenerateStep | Program.cs:38-42 | the drawn index is in range, and the run from the k-th draw is the iteration at that index followed by the run from draw k + 1 |
| Generation.Generate | Program.cs:36-46 | the loop terminates. On exit the frontier is empty, no cell is visited, the invariant holds, and nothing went back to unvisited |
| Generation.Initial | Program.cs:24-29 | the freshly allocated grid is entirely unvisited, and the frontier is the start alone |
| Generation.InitialValid | Program.cs:26-29 | the state the constructor hands to Run satisfies the loop invariant when the start is in range |
| Generation.LatticeSteps | Program.cs:111-128 | a cell two steps from a lattice cell is on the lattice, and a cell one step away is not |
| Generation.IterateKeepsReach | Program.cs:38-45 | one iteration keeps the coverage invariant. Frontier entries are lattice cells, no lattice cell is a wall, the two-step neighbours of a lattice path cell are reached, and the start is a path or still in the frontier |
| Generation.StepReachFrontier | Program.cs:40-42 | the frontier stays on the lattice and holds the start until it is processed |
| Generation.LatticeKept | Program.cs:40-42 | when the appended entries are two steps from the processed one, the frontier after removal stays on the start's lattice |
| Generation.StartKept | Program.cs:42 | an old entry other than the processed one is still in the frontier after the removal |
| Generation.StepReachCells | Program.cs:106-130 | no lattice cell becomes a wall, and the two-step neighbours of lattice path cells stay reached |
| Generation.TargetNotWall | Program.cs:67-71 | in every state of a run from the constructor, no in-range cell two steps from a frontier entry is a wall at the start of the iteration |
| Carving.TargetsRead | Program.cs:106-130 | each directional step reads, at its in-range target, the code that target had before CheckOppositeNeighbors began: the store at line 109 and the earlier steps write only other cells |
| Generation.WallBranchDead | Program.cs:92-97 | combining the two: in every iteration of a run from the constructor, the target each of the four steps reads is not a wall, so the wall branches of BuildMazeX (lines 67-71) and BuildMazeY (lines 92-97) are never taken |
| Generation.LinkHop | Program.cs:58 | one open hop through a path cell to a linked cell links the cell it starts from |
| Generation.LinkedGrown | Program.cs:36-46 | a link to the start survives any change that keeps every path cell a path |
| Generation.InitialConnected | Program.cs:26-29 | the initial state meets the connectivity invariant |
| Generation.NewlyReached | Program.cs:52-60 | a lattice cell reached for the first time in an iteration is an unvisited two-step cell of the processed entry |
| Generation.LinkNew | Program.cs:58 | such a target is linked one hop beyond the processed entry, because the cell between them is now a path |
| Generation.StepKeepsConnected | Program.cs:38-45 | one iteration keeps the connectivity invariant: every reached lattice cell and every frontier entry leads back to the start through open passages |
| Generation.IterateKeepsConnected | Program.cs:38-45 | the same, for Iterate |
| Generation.GenerateKeepsConnected | Program.cs:36-46 | the whole run keeps the connectivity invariant |
| Generation.ConnectedAll | Program.cs:36-46 | once every lattice cell is a path, the invariant joins each one to the start |
| Generation.GenerateConnects | Program.cs:19-46 | after the run from the initial state, every in-range lattice cell leads back to the start by hops of two cells, each through a path cell. Together with GenerateCovers, the passages connect the whole lattice |
| Generation.GenerateInduction | Program.cs:36-46 | whatever every iteration preserves, the whole run preserves, for every sequence of draws |
| Generation.GenerateKeepsReach | Program.cs:36-46 | the whole run preserves the coverage invariant |
| Generation.ReachAll | Program.cs:36-46 | with an empty frontier, the coverage invariant makes every in-range lattice cell a path |
| Generation.GenerateCovers | Program.cs:19-46 | after the run from the initial state, every in-range cell whose coordinates differ from the start's by even amounts is a path |
| Prims.PrimsMaze.constructor | Program.cs:19-32 | the grid has the given dimensions, and the object's state is the run from the initial state. The frontier is empty, and every lattice cell of the start is a path joined to the start |
| Prims.PrimsMaze.Run | Program.cs:36-46 | the array and the frontier end as Generate computes from the state before the loop, and the frontier is empty |
| Prims.PrimsMaze.Iteration | Program.cs:40-42 | one loop body for the drawn index: the new state is Iterate of the old one |
| Prims.PrimsMaze.BuildMazeX | Program.cs:49-78 | the array and the frontier change as BuildX says, with every array access in bounds |
| Prims.PrimsMaze.BuildMazeY | Program.cs:80-104 | the array and the frontier change as BuildY says, with every array access in bounds |
| Prims.PrimsMaze.CheckOppositeNeighbors | Program.cs:106-130 | the array and the frontier change as Process says, with every array access in bounds |
| Prims.PrimsMaze.CheckLeft | Program.cs:111-114 | the range-checked step towards the cell two to the left |
| Prims.PrimsMaze.CheckRight | Program.cs:116-119 | the range-checked step towards the cell two to the right |
| Prims.PrimsMaze.CheckUp | Program.cs:121-124 | the range-checked step towards the cell two rows up |
| Prims.PrimsMaze.CheckDown | Program.cs:126-129 | the range-checked step towards the cell two rows down |

## Left out

- `printGraph` and the `Console.WriteLine` calls (Program.cs:33, 44, 139-154) are console output only.
- `Program.Main` (Program.cs:159-168) is the entry point with fixed dimensions and does nothing else.
- `System.Random` (Program.cs:18, 24, 40) is replaced by the `rand` parameter described above. Nothing about the distribution of the draws is modelled.
- `Vector2` float coordinates and the `(int)` casts (Program.cs:14, 15, 106-128) are modelled as integers. In this program the coordinates are always whole numbers, and a `float` holds them exactly below 2^24. Beyond that, `new Vector2(x, y)` (Program.cs:59, 86) would round and the model's exact integers would no longer match.
- Prims.PrimsMaze.constructor: requires the start inside the grid, and so non-negative dimensions. Otherwise the source throws: the allocation at line 26 for a negative dimension, or the first store at line 109 for a start outside the grid. Those exceptions are not modelled.
- The four guarded blocks of CheckOppositeNeighbors (Program.cs:111-129) are separate methods, `CheckLeft`, `CheckRight`, `CheckUp` and `CheckDown`, each a single `if`. The Run loop body (Program.cs:40-42) is the method `Iteration`. This only splits the proof; the statements and their order are those of the source.
- Whether the carved passages form a spanning tree (connected with no cycles) is outside what this model sets out to prove; only connectivity is proved. In every run from the constructor the wall branches (Program.cs:67-71, 92-97) are dead code: no lattice cell is ever a wall, every target is a lattice cell, and a target keeps its code until its own step reads it (Generation.WallBranchDead).
- Boundary modes, parity checks of the dimensions and any path or distance analysis do not exist in Program.cs, so they are not modelled.
