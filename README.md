# Grid path-finding searches, modelled in Dafny

This project models the search core of a Java grid path-finding program.
The program's two packages put several search strategies behind one
contract: `search(initial, goal)` returns a path of cells and a count of
node expansions.

The older package (`edu.uwm.ai.search`) holds:
- a `w`-by-`h` `World` whose obstacles live in a flat boolean array;
- the mutable `Point` type;
- the `Entity`/`PlayerEntity` objects that move over the world;
- a 4-connected A*;
- the D* Lite replanner (`DStarSearch`), with its persistent vertex table
  and its `getPath` walk.

The newer package (`edu.uwm.ai.search.search`) holds 8-connected searches
over a world it only queries:
- breadth-first search;
- iterative deepening;
- A*;
- Jump Point Search, with its recursive `jump` probe, neighbour pruning and
  `fill` of the jump-point path;
- a flood-fill descent of a cost field.

Each Dafny module mirrors one source file or one shared concept:

| module | file | models |
|---|---|---|
| `Common` | `common.dfy` | coordinates, results, Java exceptions and search outcomes; 32-bit wrap-around; Java integer division |
| `Decimal` | `decimal.dfy` | the decimal rendering of `int` that `Point.toString` concatenates |
| `Points` | `point.dfy` | the mutable `Point` object |
| `Worlds` | `world.dfy` | the older `World` (class over an `array<bool>`) and a value view `Grid` of it |
| `Entities` | `entity.dfy` | `Entity` and `PlayerEntity` |
| `LegacyBase`, `LegacyAStar` | `legacy_base.dfy`, `legacy_astar.dfy` | the older `BaseSearchAlgorithm` and `AStarSearch` |
| `DStarVertex`, `DStar` | `dstar_vertex.dfy`, `dstar.dfy` | `DStarSearch` |
| `Preds`, `Trees` | `preds.dfy`, `trees.dfy` | predecessor maps and `backtrace`; the search-tree invariants the searches share |
| `Nodes`, `Terrains`, `Base8` | `node.dfy`, `terrain.dfy`, `base8.dfy` | `util/Node`; the newer package's view of the world; its `BaseSearchAlgorithm` |
| `BreadthFirst`, `Deepening`, `AStar` | `bfs.dfy`, `deepening.dfy`, `astar.dfy` | `BreadthFirstSearch`, `IterativeDeepening`, the newer `AStarSearch` |
| `JumpProbe`, `JumpPoint` | `jump.dfy`, `jps.dfy` | `JumpPointSearch`: successor generation and `jump`; then `search` and `fill` |
| `FloodFill` | `floodfill.dfy` | `FloodFillSearch` |

Modelling conventions:
- Code that updates state step by step is modelled as imperative Dafny:
  classes over arrays, and methods with loops and invariants.
- Each method is proved against a function or predicate that states what
  the source promises.
- A loop whose termination is not evident from the source, such as D*'s
  main loop or flood fill's descent, takes a `fuel` bound. It reports
  `OutOfFuel` when the bound runs out.
- A loop that provably never ends is reported as `Diverges`.

## Model

| member | source | states |
|---|---|---|
| Common.Add32 | src/edu/uwm/ai/search/Entity.java:67-70 | Java int `+`: the exact sum when it fits, otherwise the sum less or more 2^32 |
| Common.Sub32 | src/edu/uwm/ai/search/DStarSearch.java:294-297 | Java int `-`: the exact difference when it fits, otherwise wrapped by 2^32 |
| Common.Abs32 | src/edu/uwm/ai/search/DStarSearch.java:294-297 | `Math.abs` on int: the magnitude, except that Integer.MIN_VALUE maps to itself |
| Common.MaxPlusOneWraps | src/edu/uwm/ai/search/DStarSearch.java:573-581 | Integer.MAX_VALUE + 1 is Integer.MIN_VALUE |
| Common.JavaDiv | src/edu/uwm/ai/search/search/JumpPointSearch.java:120-121 | Java's truncating `/` agrees with Dafny's division on non-negative operands |
| Common.NormaliseIsSign | src/edu/uwm/ai/search/search/JumpPointSearch.java:120-121 | `d / Math.max(Math.abs(d), 1)` is the sign of `d` |
| Decimal.IntToString | src/edu/uwm/ai/search/Point.java:86-90 | the decimal text of an int is non-empty and holds no comma or space |
| Decimal.ParseIntToString | src/edu/uwm/ai/search/Point.java:86-90 | reading the decimal text of an int back gives the int |
| Points.Point.constructor | src/edu/uwm/ai/search/Point.java:39-43 | the new point holds exactly the given coordinates |
| Points.Point.Copy | src/edu/uwm/ai/search/Point.java:34-37 | the copy equals its original, in both directions |
| Points.Point.GetX | src/edu/uwm/ai/search/Point.java:45-48 | returns the current x |
| Points.Point.GetY | src/edu/uwm/ai/search/Point.java:50-53 | returns the current y |
| Points.Point.SetX | src/edu/uwm/ai/search/Point.java:55-58 | sets x and leaves y unchanged |
| Points.Point.SetY | src/edu/uwm/ai/search/Point.java:60-63 | sets y and leaves x unchanged |
| Points.Point.HashCode | src/edu/uwm/ai/search/Point.java:65-69 | the hash is `31 * x + y` modulo 2^32 |
| Points.Point.Equals | src/edu/uwm/ai/search/Point.java:71-84 | equal exactly when the other point is non-null and has the same coordinates; the identity short-cut agrees |
| Points.Point.ToString | src/edu/uwm/ai/search/Point.java:86-90 | the text is parenthesised and parses back to the point's coordinates |
| Points.ParseRender | src/edu/uwm/ai/search/Point.java:86-90 | parsing `"(" + x + ", " + y + ")"` gives back `(x, y)` |
| Points.EqualsIsEquivalence | src/edu/uwm/ai/search/Point.java:71-84 | equals is reflexive, symmetric and transitive |
| Points.EqualPointsHashAlike | src/edu/uwm/ai/search/Point.java:65-84 | equal points have equal hash codes |
| Worlds.SlotInRange | src/edu/uwm/ai/search/World.java:112-115 | for a world no taller than wide (or at most one row tall), every in-bounds cell's slot `j*h + i` lies in the array |
| Worlds.SlotsFitIff | src/edu/uwm/ai/search/World.java:112-115 | every in-bounds slot lies in the `w*h` array exactly when `w == 0`, `h <= 1` or `h <= w` |
| Worlds.WideWorldAliases | src/edu/uwm/ai/search/World.java:112-115 | in a world wider than tall, cells `(h, 0)` and `(0, 1)` share a slot |
| Worlds.CellsAreInGrid | src/edu/uwm/ai/search/World.java:65-68 | the cells of the world are exactly the in-bounds coordinates |
| Worlds.World.constructor | src/edu/uwm/ai/search/World.java:39-48 | the world has the given dimensions, `w*h` slots and no obstacle |
| Worlds.World.GetWidth | src/edu/uwm/ai/search/World.java:50-53 | returns `w` |
| Worlds.World.GetHeight | src/edu/uwm/ai/search/World.java:55-58 | returns `h` |
| Worlds.World.HasObstacle | src/edu/uwm/ai/search/World.java:75-78 | reads slot `j*h + i`; it throws (None) exactly when that slot is outside the array |
| Worlds.World.IsValidPosition | src/edu/uwm/ai/search/World.java:60-68 | false out of bounds without touching the array; true exactly for an in-bounds cell whose slot is in the array and free; throws exactly for an in-bounds cell whose slot is not in the array |
| Worlds.World.Open | src/edu/uwm/ai/search/World.java:60-68 | on a world whose slots fit, validity never throws, implies bounds and agrees with the value view |
| Worlds.World.SetObstacle | src/edu/uwm/ai/search/World.java:80-83 | sets exactly slot `j*h + i`, or throws and changes nothing; it never clears a slot |
| Entities.Entity.constructor | src/edu/uwm/ai/search/Entity.java:38-45 | the entity keeps the very world and point objects it is given |
| Entities.Entity.MoveTo | src/edu/uwm/ai/search/Entity.java:77-83 | moves exactly to a valid target and otherwise stays put; throws exactly when the validity test does; an entity on a valid cell stays on one |
| Entities.Entity.MoveToPoint | src/edu/uwm/ai/search/Entity.java:72-75 | as MoveTo, with the point's coordinates read before the move |
| Entities.Entity.Move | src/edu/uwm/ai/search/Entity.java:67-70 | as MoveTo, for the position displaced in Java int arithmetic |
| Entities.Entity.MoveBy | src/edu/uwm/ai/search/Entity.java:62-65 | as Move, with the point's coordinates as the displacement |
| Entities.KeyStep | src/edu/uwm/ai/search/PlayerEntity.java:37-56 | exactly the key codes 37 to 40 move, each by one orthogonal unit |
| Entities.PlayerEntity.constructor | src/edu/uwm/ai/search/PlayerEntity.java:32-35 | the player's entity keeps the given world and point |
| Entities.PlayerEntity.Update | src/edu/uwm/ai/search/PlayerEntity.java:37-56 | any other key changes nothing; an arrow key moves one cell if that cell is valid; the player moves by at most one cell and stays on valid cells |
| LegacyBase.Candidates4 | src/edu/uwm/ai/search/BaseSearchAlgorithm.java:52-55 | the four candidates are up, down, left and right, in that order |
| LegacyBase.CandidatesAreUnitSteps | src/edu/uwm/ai/search/BaseSearchAlgorithm.java:52-55 | a cell is a candidate exactly when it is at Manhattan distance 1 |
| LegacyBase.Successors4 | src/edu/uwm/ai/search/BaseSearchAlgorithm.java:48-67 | the successors are the valid candidates, in candidate order, at most four |
| LegacyBase.GetSuccessors | src/edu/uwm/ai/search/BaseSearchAlgorithm.java:48-67 | computes exactly the valid candidates in candidate order |
| LegacyBase.SuccessorsAreSteps | src/edu/uwm/ai/search/BaseSearchAlgorithm.java:48-67 | the successors are distinct, and a cell is one exactly when it is a valid orthogonal neighbour |
| LegacyBase.SuccessorsAreCells | src/edu/uwm/ai/search/BaseSearchAlgorithm.java:48-67 | every successor is a cell of the world |
| LegacyBase.SuccessorsAreUnitSteps | src/edu/uwm/ai/search/BaseSearchAlgorithm.java:48-67 | every successor is a valid cell one orthogonal step away |
| LegacyBase.ClosedHoldsWalk | src/edu/uwm/ai/search/AStarSearch.java:62-78 | a walk that starts in a set closed under successors stays in that set |
| LegacyBase.WalkSnoc | src/edu/uwm/ai/search/BaseSearchAlgorithm.java:48-67 | a walk extended by a successor of its last cell is a walk |
| LegacyAStar.Heuristic | src/edu/uwm/ai/search/AStarSearch.java:92-95 | the Manhattan distance, zero exactly at the goal |
| LegacyAStar.HeuristicIsConsistent | src/edu/uwm/ai/search/AStarSearch.java:92-95 | the heuristic is symmetric and changes by at most one per step |
| LegacyAStar.PollMin | src/edu/uwm/ai/search/AStarSearch.java:47-56 | poll returns a queued point of least key `heuristic + backtrace size`, the earliest queued among ties |
| LegacyAStar.Search | src/edu/uwm/ai/search/AStarSearch.java:43-79 | a returned path is a repeat-free walk of successors from initial to goal; an empty path means no walk from initial reaches the goal, and its cost is then the number of points reachable from initial; `initial == goal` gives `([initial], 1)`; the cost is the number of polls, between 1 and the number of cells |
| LegacyAStar.Start | src/edu/uwm/ai/search/AStarSearch.java:58-59 | the state before the first poll satisfies the loop invariant |
| LegacyAStar.Advance | src/edu/uwm/ai/search/AStarSearch.java:62-75 | one non-goal poll keeps the invariant and moves exactly one new point to the polled set |
| LegacyAStar.PollKeepsPartition | src/edu/uwm/ai/search/AStarSearch.java:64 | removing the polled point from the queue keeps every known point either polled or queued |
| LegacyAStar.Exhausted | src/edu/uwm/ai/search/AStarSearch.java:62-78 | with the queue empty and the goal never polled, no walk from initial reaches the goal, and the polled points are exactly the points reachable from initial |
| LegacyAStar.TreeReaches | src/edu/uwm/ai/search/AStarSearch.java:70-75 | every point given a predecessor is reachable from initial by a walk of successors |
| LegacyAStar.Found | src/edu/uwm/ai/search/AStarSearch.java:66-68 | the goal's backtrace is a repeat-free walk from initial to the goal |
| LegacyAStar.Expand | src/edu/uwm/ai/search/AStarSearch.java:70-75 | after the successor loop, the tree, the partition and closure under successors hold |
| LegacyAStar.Consider | src/edu/uwm/ai/search/AStarSearch.java:71-74 | a successor is added with current as predecessor exactly when hasKey does not find it |
| LegacyAStar.Admit | src/edu/uwm/ai/search/AStarSearch.java:71-74 | adding a new successor keeps the tree, the partition and the closure |
| LegacyAStar.KnownGrows | src/edu/uwm/ai/search/AStarSearch.java:70-75 | successors already known stay known as pred grows |
| LegacyAStar.CloseCurrent | src/edu/uwm/ai/search/AStarSearch.java:70-75 | once every successor of current is known, the polled set is closed |
| LegacyAStar.RemoveAt | src/edu/uwm/ai/search/AStarSearch.java:64 | removing one element of a repeat-free queue leaves the others, repeat-free |
| LegacyAStar.ChainIsWalk | src/edu/uwm/ai/search/BaseSearchAlgorithm.java:69-79 | a backtrace read out of the search's tree starts at initial and is a walk of successors |
| Preds.Get | src/edu/uwm/ai/search/BaseSearchAlgorithm.java:75 | `get` yields null both for a missing key and for a null value |
| Preds.Backtrace | src/edu/uwm/ai/search/BaseSearchAlgorithm.java:69-79 | follows predecessor links to null: the result is a chain of pred ending at `p`, and is `[p]` when `p` has no predecessor |
| Preds.ChainUnique | src/edu/uwm/ai/search/BaseSearchAlgorithm.java:69-79 | there is only one chain ending at a given point, so backtrace's answer is determined |
| Preds.LastLink | src/edu/uwm/ai/search/BaseSearchAlgorithm.java:73-76 | a chain's last point has a predecessor exactly when the chain is longer than one, and that predecessor is the point before it |
| Preds.ChainDepth | src/edu/uwm/ai/search/BaseSearchAlgorithm.java:69-79 | under exact depths, the chain to `p` has `depth(p) + 1` points, all distinct, each at its own depth |
| Preds.DepthsAreRanked | src/edu/uwm/ai/search/BaseSearchAlgorithm.java:73-76 | exact depths make every link decrease the rank, so backtrace terminates |
| Preds.HasKey | src/edu/uwm/ai/search/search/AStarSearch.java:116-125 | the key-set scan finds `p` exactly when `p` is a key |
| DStarVertex.NewVertex | src/edu/uwm/ai/search/DStarSearch.java:97-103 | a new DNode has the given point, rhs and g, traversal cost 1 and both key parts 0 |
| DStarVertex.CopyVertex | src/edu/uwm/ai/search/DStarSearch.java:105-112 | the copy keeps coordinates, g, rhs and key, but its cost is Java's default 0 |
| DStarVertex.HeuristicIsManhattan | src/edu/uwm/ai/search/DStarSearch.java:294-297 | on coordinates below 2^29 in magnitude, the int heuristic is the Manhattan distance |
| DStarVertex.CalculateKey | src/edu/uwm/ai/search/DStarSearch.java:240-244 | calculateKey changes only the key; `k2 = min(g, rhs)` |
| DStarVertex.KeyIsWrappedSum | src/edu/uwm/ai/search/DStarSearch.java:240-244 | `k1` is `min(g, rhs) + heuristic(start, v) + k_m` reduced modulo 2^32 into int range |
| DStarVertex.UnreachedKeyWraps | src/edu/uwm/ai/search/DStarSearch.java:240-244 | the key of an unreached vertex away from the start wraps to a negative `k1` |
| DStarVertex.Compare | src/edu/uwm/ai/search/DStarSearch.java:268-291 | compareTo is -1, 0 or 1, lexicographic on `(k1, k2)` |
| DStarVertex.CompareIsOrder | src/edu/uwm/ai/search/DStarSearch.java:268-291 | compareTo is antisymmetric and transitive |
| DStarVertex.MultipliersCoprime | src/edu/uwm/ai/search/DStarSearch.java:487-503 | 1039 is invertible modulo 8329 |
| DStarVertex.HashInjective | src/edu/uwm/ai/search/DStarSearch.java:487-503 | points less than 8329 columns apart whose exact hashes fit in an int have equal vertexHashCode only when they are equal |
| DStarVertex.HashCollision | src/edu/uwm/ai/search/DStarSearch.java:487-503 | the distinct points `(8329, 0)` and `(0, 1039)` share a vertexHashCode |
| DStarVertex.UnreachedSuccessorWraps | src/edu/uwm/ai/search/DStarSearch.java:404-416 | an unreached successor's `g + cost` wraps to Integer.MIN_VALUE |
| DStarVertex.CompareByCost | src/edu/uwm/ai/search/DStarSearch.java:566-601 | the corrected getPath comparator: less exactly when the exact `cost + rhs` is smaller, or on a tie of finite sums the `k1` is smaller |
| DStarVertex.MinByCostAsWritten | src/edu/uwm/ai/search/DStarSearch.java:566-601 | Collections.min with the comparator as written picks a candidate |
| DStarVertex.MinByCost | src/edu/uwm/ai/search/DStarSearch.java:566-601 | Collections.min with the corrected comparator picks a candidate no worse than every other |
| DStarVertex.MinByCostPrefersReached | src/edu/uwm/ai/search/DStarSearch.java:566-601 | with the corrected comparator, if some candidate is reached the chosen one is reached |
| DStarVertex.CompareAgrees | src/edu/uwm/ai/search/DStarSearch.java:566-600 | the comparator as written and the corrected one agree on two vertices whose `cost + rhs` fits in 32 bits |
| DStarVertex.MinByCostAgrees | src/edu/uwm/ai/search/DStarSearch.java:566-601 | `Collections.min` under either comparator picks the same candidate when no candidate's `cost + rhs` overflows |
| DStarVertex.AsWrittenPrefersUnreached | src/edu/uwm/ai/search/DStarSearch.java:573-581 | with the comparator as written, an unreached vertex beats one at cost 6 |
| DStar.Refile | src/edu/uwm/ai/search/DStarSearch.java:436-445 | filing a vertex under its own hash keeps every entry filed under its own coordinates' hash |
| DStar.SameCoordinatesSameKey | src/edu/uwm/ai/search/DStarSearch.java:246-259 | in the table, equal coordinates mean the same key, so the open list's tests by equals are tests on keys |
| DStar.RemoveFirst | src/edu/uwm/ai/search/DStarSearch.java:456-459 | openList.remove takes out exactly one occurrence of a present element and changes nothing else |
| DStar.Poll | src/edu/uwm/ai/search/DStarSearch.java:342-347 | poll after peek takes out exactly one occurrence of the peeked element |
| DStar.Requeue | src/edu/uwm/ai/search/DStarSearch.java:450-470 | after updateVertex, the vertex is queued once exactly when it is inconsistent, and other counts are unchanged |
| DStar.InternAllFacts | src/edu/uwm/ai/search/DStarSearch.java:428-448 | interning successors keeps the table well filed and old entries unchanged, files every point, and adds only fresh vertices (`rhs = g = MAX_VALUE`) at looked-up points |
| DStar.MinGPlusCostIsLeast | src/edu/uwm/ai/search/DStarSearch.java:404-416 | minimumOfSucc is attained by a successor and is at most every successor's `g + cost` |
| DStar.MinGPlusCostFrame | src/edu/uwm/ai/search/DStarSearch.java:404-416 | minimumOfSucc depends only on the successors' g and cost |
| DStar.RelaxInvStep | src/edu/uwm/ai/search/DStarSearch.java:348-354 | each pass of the successor loop keeps the loop's relaxation invariant |
| DStar.LoweredIntro | src/edu/uwm/ai/search/DStarSearch.java:344-354 | setting `g := rhs`, polling u and relaxing its successors is the whole g > rhs branch |
| DStar.ResetThenUpdate | src/edu/uwm/ai/search/DStarSearch.java:363-368 | resetting rhs (except at the goal) and then updateVertex is the branch's test-and-update |
| DStar.ResetRecomputes | src/edu/uwm/ai/search/DStarSearch.java:359-368 | successors lookup followed by the reset recomputes the vertex from its least successor |
| DStar.RecomputedTwice | src/edu/uwm/ai/search/DStarSearch.java:370-379 | recomputing the same vertex twice has the effect of once |
| DStar.GrewTrans | src/edu/uwm/ai/search/DStarSearch.java:428-448 | table growth composes |
| DStar.LookupExact | src/edu/uwm/ai/search/DStarSearch.java:487-503 | in a small world whose table holds only cells, a lookup by hash finds the cell itself |
| DStar.Interned1 | src/edu/uwm/ai/search/DStarSearch.java:307-319 | one lookup files the point's key and keeps every old key |
| DStar.Opened | src/edu/uwm/ai/search/DStarSearch.java:307-319 | after the opening lookups, start and goal are filed and every old key is kept |
| DStar.OpenedFacts | src/edu/uwm/ai/search/DStarSearch.java:307-319 | opening keeps coordinates and adds entries only at the start and the goal; a new goal distinct from the start has rhs 0 |
| DStar.VerticesAtSnoc | src/edu/uwm/ai/search/DStarSearch.java:553-558 | looking up one more key appends its vertex |
| DStar.OffPath | src/edu/uwm/ai/search/DStarSearch.java:553-558 | a vertex survives the filter exactly when it is a candidate whose point is not yet on the path |
| DStar.NextAsWrittenAgrees | src/edu/uwm/ai/search/DStarSearch.java:547-602 | getPath's step with the comparator as written equals the step with the corrected comparator whenever no table vertex's `cost + rhs` overflows |
| DStar.NextIsLeast | src/edu/uwm/ai/search/DStarSearch.java:547-602 | getPath's step (corrected comparator) leaves the path and is no worse than any table vertex of a valid neighbour off the path |
| DStar.NextIsStep | src/edu/uwm/ai/search/DStarSearch.java:547-602 | in a small world whose table holds only cells, getPath's step (corrected comparator) is a move to a valid neighbour |
| DStar.NextFrame | src/edu/uwm/ai/search/DStarSearch.java:550 | adding table entries does not change a step whose neighbours are already filed |
| DStar.Candidates | src/edu/uwm/ai/search/DStarSearch.java:553-558 | the filter loop keeps exactly the looked-up vertices whose points are off the path, in order |
| DStar.TracedStep | src/edu/uwm/ai/search/DStarSearch.java:547-602 | each point of a traced path after the first is getPath's step (corrected comparator) from the points before it |
| DStar.TracedFrame | src/edu/uwm/ai/search/DStarSearch.java:550 | adding table entries keeps a path traced |
| DStar.TracedExtend | src/edu/uwm/ai/search/DStarSearch.java:602 | a traced path followed by its next step is traced |
| DStar.NextIsFresh | src/edu/uwm/ai/search/DStarSearch.java:555 | the step is a table vertex whose point is not yet on the path |
| DStar.TracedIsWalk | src/edu/uwm/ai/search/DStarSearch.java:547-602 | in a small world whose table holds only cells, a traced path is a walk of successors |
| DStar.TracedTake | src/edu/uwm/ai/search/DStarSearch.java:547-602 | every prefix of a traced path is traced |
| DStar.TracedUnique | src/edu/uwm/ai/search/DStarSearch.java:547-602 | two traced paths of one length from one start are equal |
| DStar.GetPathOfUnique | src/edu/uwm/ai/search/DStarSearch.java:537-606 | getPath is a function of the table: only one path fits its description |
| DStar.Shorter | src/edu/uwm/ai/search/DStarSearch.java:547-562 | a getPath result that is a prefix of another is all of it |
| DStar.StepAfterPrefix | src/edu/uwm/ai/search/DStarSearch.java:547-562 | every proper prefix of a traced path has a next step |
| DStar.PathGrows | src/edu/uwm/ai/search/DStarSearch.java:547-603 | one step from a point other than the goal keeps the path traced and repeat-free |
| DStar.GrownPoints | src/edu/uwm/ai/search/DStarSearch.java:428-448 | the points of a grown table are old points or cells of the grid |
| DStar.DStarSearch.constructor | src/edu/uwm/ai/search/DStarSearch.java:58-75 | the search starts with an empty table, open list and pred, no start or goal, and `k_m = 0` |
| DStar.DStarSearch.Peek | src/edu/uwm/ai/search/DStarSearch.java:332 | peek is null exactly on an empty open list, and otherwise the first queued vertex of least current key |
| DStar.DStarSearch.Intern | src/edu/uwm/ai/search/DStarSearch.java:307-319 | the lookup returns the point's hash and files a new vertex only when the key is absent |
| DStar.DStarSearch.Prepare | src/edu/uwm/ai/search/DStarSearch.java:304-331 | start and goal are reused or created; the goal's key is set; the goal maps to null in pred and is queued |
| DStar.DStarSearch.UpdateVertex | src/edu/uwm/ai/search/DStarSearch.java:450-470 | a queued vertex leaves the queue; it is re-queued with a fresh key exactly when inconsistent; an unqueued inconsistent vertex is queued |
| DStar.DStarSearch.Successors | src/edu/uwm/ai/search/DStarSearch.java:428-448 | the keys of the valid orthogonal neighbours, each filed, with old entries unchanged |
| DStar.DStarSearch.InternEach | src/edu/uwm/ai/search/DStarSearch.java:434-446 | the loop files each point in turn and returns their hashes |
| DStar.DStarSearch.MinimumOfSucc | src/edu/uwm/ai/search/DStarSearch.java:404-416 | Integer.MIN_VALUE for no successors; otherwise the least `g + cost`, attained by a successor |
| DStar.DStarSearch.Rekey | src/edu/uwm/ai/search/DStarSearch.java:335-343 | an out-of-date key is recomputed and u re-queued |
| DStar.DStarSearch.Relax | src/edu/uwm/ai/search/DStarSearch.java:348-353 | unless s is the goal, `rhs(s) := min(rhs(s), cost(s) + g(u))`; then updateVertex(s) |
| DStar.DStarSearch.Lower | src/edu/uwm/ai/search/DStarSearch.java:344-354 | the g > rhs branch: `g(u) := rhs(u)`, u polled, every successor relaxed |
| DStar.DStarSearch.RelaxSuccessors | src/edu/uwm/ai/search/DStarSearch.java:348-354 | relaxes the successors of u |
| DStar.DStarSearch.RelaxEach | src/edu/uwm/ai/search/DStarSearch.java:348-354 | the loop relaxes each successor in turn |
| DStar.DStarSearch.Recompute | src/edu/uwm/ai/search/DStarSearch.java:359-368 | recomputes one vertex from its successors' least `g + cost` |
| DStar.DStarSearch.Reset | src/edu/uwm/ai/search/DStarSearch.java:363-368 | when rhs equals the old g, rhs is reset (except at the goal) and updateVertex follows |
| DStar.DStarSearch.Raise | src/edu/uwm/ai/search/DStarSearch.java:355-380 | the remaining branch: `g(u) := MAX_VALUE`, then u and its backtrace recomputed |
| DStar.DStarSearch.RecomputeWithChain | src/edu/uwm/ai/search/DStarSearch.java:363-379 | u's recomputation, then one for each point of backtrace(pred, u) |
| DStar.DStarSearch.Iterate | src/edu/uwm/ai/search/DStarSearch.java:333-380 | one pass of the main loop: a u whose key is below its recalculated key is re-keyed and re-queued; otherwise `g > rhs` sets g to rhs, and any other u gets g = MAX_VALUE |
| DStar.DStarSearch.NextStep | src/edu/uwm/ai/search/DStarSearch.java:549-601 | one pass of getPath's loop computes getPath's step (corrected comparator) and only adds table entries |
| DStar.DStarSearch.NextStepTraced | src/edu/uwm/ai/search/DStarSearch.java:549-601 | the same, keeping the path traced by the corrected step |
| DStar.DStarSearch.Pass | src/edu/uwm/ai/search/DStarSearch.java:333-385 | one pass, then the next peek and the start's key recomputed |
| DStar.DStarSearch.GetPath | src/edu/uwm/ai/search/DStarSearch.java:537-606 | the path getPath's rule (corrected comparator) traces from start, repeat-free, ending at the goal or where no step remains |
| DStar.DStarSearch.Search | src/edu/uwm/ai/search/DStarSearch.java:301-393 | a peek at an empty open list throws; on return the start's rhs is at most its g; the result is empty with cost 0 exactly when the start's rhs is MAX_VALUE, and otherwise getPath's path (corrected comparator) with cost 10 |
| DStar.DStarSearch.Report | src/edu/uwm/ai/search/DStarSearch.java:387-392 | getPath's path (corrected comparator) with cost 10 for a finite start rhs, else the empty path with cost 0 |
| Nodes.Node.constructor | src/edu/uwm/ai/search/util/Node.java:39-45 | a node built from coordinates holds that position, heuristic cost and path cost |
| Nodes.Node.FromPoint | src/edu/uwm/ai/search/util/Node.java:34-37 | a node built from a point holds the point's position and the given costs |
| Nodes.Node.Value | src/edu/uwm/ai/search/util/Node.java:29-32 | the value view of a node carries its position, cost and path cost |
| Nodes.Node.SetCost | src/edu/uwm/ai/search/util/Node.java:47-50 | setCost replaces the heuristic cost and leaves position and path cost as they were |
| Nodes.Node.GetCost | src/edu/uwm/ai/search/util/Node.java:52-55 | getCost returns the stored heuristic cost |
| Nodes.Node.GetPathCost | src/edu/uwm/ai/search/util/Node.java:57-60 | getPathCost returns the stored path cost |
| Terrains.ValidIsCell | src/edu/uwm/ai/search/World.java:60-68 | a position isValidPosition accepts is a cell of the grid |
| Terrains.ValidInBounds | src/edu/uwm/ai/search/World.java:60-68 | a position isValidPosition accepts lies inside the width and height |
| Base8.Candidates | src/edu/uwm/ai/search/search/BaseSearchAlgorithm.java:63-72 | getSuccessors builds exactly eight candidate nodes |
| Base8.Mask | src/edu/uwm/ai/search/search/BaseSearchAlgorithm.java:74-90 | one admission test per candidate, eight in all |
| Base8.CandidateByOffset | src/edu/uwm/ai/search/search/BaseSearchAlgorithm.java:63-90 | candidate j is the neighbour at offset j, admitted exactly when it is valid and, for a diagonal, accessible through |
| Base8.Ats | src/edu/uwm/ai/search/search/BaseSearchAlgorithm.java:59-93 | the positions of a node list, index by index |
| Base8.GetSuccessors | src/edu/uwm/ai/search/search/BaseSearchAlgorithm.java:59-93 | the imperative getSuccessors returns the candidates its tests admit, in candidate order |
| Base8.KeptByIdx | src/edu/uwm/ai/search/search/BaseSearchAlgorithm.java:74-90 | the kept list is the candidates at the admitted indices, in order |
| Base8.KeptIdxSorted | src/edu/uwm/ai/search/search/BaseSearchAlgorithm.java:74-90 | admitted indices are admitted and strictly increasing |
| Base8.KeptIdxComplete | src/edu/uwm/ai/search/search/BaseSearchAlgorithm.java:74-90 | every admitted index is kept |
| Base8.OffsetFacts | src/edu/uwm/ai/search/search/BaseSearchAlgorithm.java:63-72 | each offset gives an 8-neighbour, and offsets 4 to 7 are exactly the diagonal ones |
| Base8.OffsetsDistinct | src/edu/uwm/ai/search/search/BaseSearchAlgorithm.java:63-72 | the eight candidates are at different positions |
| Base8.AdjacentOffset | src/edu/uwm/ai/search/search/BaseSearchAlgorithm.java:63-72 | every 8-neighbour is one of the candidates |
| Base8.IncreasingBelow | src/edu/uwm/ai/search/search/BaseSearchAlgorithm.java:74-90 | an increasing index list below n has at most n entries, each at least its position |
| Base8.AtLeastIndex | src/edu/uwm/ai/search/search/BaseSearchAlgorithm.java:74-90 | in a strictly increasing index list each entry is at least its position |
| Base8.SuccessorsByIdx | src/edu/uwm/ai/search/search/BaseSearchAlgorithm.java:59-93 | at most eight successors, each the candidate at an admitted index, indices increasing, every admitted candidate present |
| Base8.SuccessorsDistinct | src/edu/uwm/ai/search/search/BaseSearchAlgorithm.java:59-93 | successors are pairwise distinct and never the point itself |
| Base8.SuccessorsAreNeighbours | src/edu/uwm/ai/search/search/BaseSearchAlgorithm.java:59-93 | q is a successor exactly when it is an 8-neighbour, valid, and accessible through for a diagonal step |
| Base8.SuccessorCosts | src/edu/uwm/ai/search/search/BaseSearchAlgorithm.java:63-90 | every successor has cost 0 and path cost 1 orthogonally, sqrt 2 diagonally; diagonals come after orthogonals |
| Base8.SuccessorsAreMoves | src/edu/uwm/ai/search/search/BaseSearchAlgorithm.java:59-93 | the move relation and the successor list agree in both directions, and every move ends on a valid position |
| Trees.WalkSnoc | src/edu/uwm/ai/search/search/BaseSearchAlgorithm.java:47-57 | a walk extended by one move is a walk |
| Trees.ClosedHoldsWalk | src/edu/uwm/ai/search/search/BreadthFirstSearch.java:64-78 | a walk that starts in a set closed under the moves stays in it |
| Trees.Start | src/edu/uwm/ai/search/search/BreadthFirstSearch.java:58-62 | the initial map {initial: null} and queue [initial] satisfy the exploration invariant |
| Trees.RemoveAt | src/edu/uwm/ai/search/search/AStarSearch.java:85 | removing one entry from a duplicate-free queue keeps the others and drops only it |
| Trees.Poll | src/edu/uwm/ai/search/search/BreadthFirstSearch.java:66 | dequeuing a queued point keeps the invariant, with that point as the one being expanded |
| Trees.PollPartition | src/edu/uwm/ai/search/search/BreadthFirstSearch.java:66 | each recorded point stays either queued or already expanded |
| Trees.Admit | src/edu/uwm/ai/search/search/BreadthFirstSearch.java:69-72 | recording a new successor with the current point as predecessor and enqueuing it keeps the invariant |
| Trees.Grow | src/edu/uwm/ai/search/search/BreadthFirstSearch.java:69-72 | the predecessor map stays a tree rooted at initial with depth one more than the parent |
| Trees.CloseCurrent | src/edu/uwm/ai/search/search/BreadthFirstSearch.java:68-77 | once every successor of the current point is recorded, every expanded point has all its moves recorded |
| Trees.KnownGrows | src/edu/uwm/ai/search/search/BreadthFirstSearch.java:68-77 | the successors already scanned stay recorded as the map grows |
| Trees.ChainIsWalk | src/edu/uwm/ai/search/search/BaseSearchAlgorithm.java:47-57 | a predecessor chain is a duplicate-free walk that starts at initial |
| Trees.TreeReachesIn | src/edu/uwm/ai/search/search/BaseSearchAlgorithm.java:47-57 | every recorded point is reachable from initial in exactly its depth |
| Trees.StepBack | src/edu/uwm/ai/search/search/BreadthFirstSearch.java:64-78 | a point reachable in k+1 moves is one move from a point reachable in k |
| Trees.StayPut | src/edu/uwm/ai/search/search/BreadthFirstSearch.java:64-78 | the only point reachable in zero moves is the start |
| Trees.Exhausted | src/edu/uwm/ai/search/search/BreadthFirstSearch.java:64-78 | when the queue empties, the expanded points are exactly the recorded ones and exactly the set reachable from initial, and every walk from initial stays inside |
| Trees.StartLayered | src/edu/uwm/ai/search/search/BreadthFirstSearch.java:58-62 | the initial queue is ordered by depth and every point is settled at its least depth |
| Trees.PollLayered | src/edu/uwm/ai/search/search/BreadthFirstSearch.java:66 | dequeuing the head of a depth-ordered FIFO keeps the layering |
| Trees.AdmitLayered | src/edu/uwm/ai/search/search/BreadthFirstSearch.java:69-72 | a new successor gets the least possible depth, and the queue stays within two adjacent depths |
| Trees.CloseLayered | src/edu/uwm/ai/search/search/BreadthFirstSearch.java:68-77 | after the scan the layering holds for the next dequeue |
| Trees.Cutoff | src/edu/uwm/ai/search/search/IterativeDeepening.java:66-68 | when the head of the queue is deeper than the limit and the goal is unrecorded, no walk of at most limit+1 moves reaches the goal |
| Trees.NearKnown | src/edu/uwm/ai/search/search/BreadthFirstSearch.java:64-78 | every point reachable within the settled depth is recorded |
| Trees.NearKnownExpanding | src/edu/uwm/ai/search/search/BreadthFirstSearch.java:68-77 | the same while a point is being expanded |
| Trees.FrontIsShallowest | src/edu/uwm/ai/search/search/BreadthFirstSearch.java:66 | the head of the queue is the shallowest queued point |
| Trees.SettledWithin | src/edu/uwm/ai/search/search/IterativeDeepening.java:62-80 | when the depth cap has been passed, the expanded points are exactly those within the cap |
| Trees.ShortestBacktrace | src/edu/uwm/ai/search/search/BaseSearchAlgorithm.java:47-57 | backtrace returns a walk from initial to the point, of depth+1 points, and no shorter walk exists |
| Trees.ExhaustedWithin | src/edu/uwm/ai/search/search/IterativeDeepening.java:62-80 | when a capped round empties its queue, the expanded points are exactly those within the cap, and within the cap plus one |
| BreadthFirst.Search | src/edu/uwm/ai/search/search/BreadthFirstSearch.java:47-82 | equal endpoints give ([], 0); otherwise a path is returned exactly when the goal is reachable, it is a shortest duplicate-free walk from initial to goal, its cost is between 1 and the grid size, and a failure costs 99 times the reachable count |
| BreadthFirst.Round | src/edu/uwm/ai/search/search/BreadthFirstSearch.java:58-78 | one round finds a path exactly when the goal is reachable, the path is shortest, and a failed round dequeues every reachable point once |
| BreadthFirst.Expand | src/edu/uwm/ai/search/search/BreadthFirstSearch.java:68-77 | scanning the successors records new ones as a shortest-path tree and stops exactly when the goal gets recorded |
| Deepening.QueueBanded | src/edu/uwm/ai/search/search/IterativeDeepening.java:103-113 | the wrapped depths in the queue are non-decreasing and span at most one level |
| Deepening.Search | src/edu/uwm/ai/search/search/IterativeDeepening.java:45-84 | equal endpoints give ([], 0); otherwise a path is returned exactly when the goal is within 100 moves, it is a shortest duplicate-free walk, and a failure costs the sum of the 99 rounds; a success in the round with limit `L = max(1, |path| - 2)` costs more than the failed rounds 1 to L - 1 and at most those plus round L's `RoundCost` |
| Deepening.Round | src/edu/uwm/ai/search/search/IterativeDeepening.java:56-80 | a round with limit L finds a path exactly when the goal is within L+1 moves, shortest; a failed round costs RoundCost, and a successful one between 1 and RoundCost |
| Deepening.FirstLimit | src/edu/uwm/ai/search/search/IterativeDeepening.java:55-77 | the round that first returns a shortest path of n points has limit `max(1, n - 2)` |
| Deepening.ExpandedNear | src/edu/uwm/ai/search/search/IterativeDeepening.java:62-68 | the points dequeued within the limit all lie within L moves, so they number at most RoundCost |
| Deepening.WithinIsNear | src/edu/uwm/ai/search/search/IterativeDeepening.java:62-80 | a point within n moves belongs to the bounded neighbourhood used for the cost |
| Deepening.PollState | src/edu/uwm/ai/search/search/IterativeDeepening.java:63-68 | dequeuing a point within the limit keeps the round invariant and counts one more distinct dequeue |
| Deepening.PollTagged | src/edu/uwm/ai/search/search/IterativeDeepening.java:64 | the wrapped depth of the dequeued point is its depth in the tree |
| Deepening.Broke | src/edu/uwm/ai/search/search/IterativeDeepening.java:66-68 | the break happens only when the goal is not within limit+1 moves, and the dequeue count is then RoundCost |
| Deepening.Expand | src/edu/uwm/ai/search/search/IterativeDeepening.java:70-79 | scanning records new successors at depth+1, keeps every depth at most L+1, and stops exactly when the goal is recorded |
| Deepening.Scan | src/edu/uwm/ai/search/search/IterativeDeepening.java:70-79 | the same over any successor list that lists the moves exactly |
| Deepening.AdmitState | src/edu/uwm/ai/search/search/IterativeDeepening.java:71-74 | recording a successor and enqueuing it with depth+1 keeps the scan invariant |
| AStar.StepCost | src/edu/uwm/ai/search/search/BaseSearchAlgorithm.java:63-72 | a step costs 1 orthogonally and sqrt 2 exactly when it is diagonal |
| AStar.Chain | src/edu/uwm/ai/search/search/AStarSearch.java:104-114 | the predecessor chain of a recorded point ends at it and runs through recorded points |
| AStar.KeyIsEstimate | src/edu/uwm/ai/search/search/AStarSearch.java:58-75 | the comparator's key of a recorded point is its heuristic plus the cost of its chain from initial |
| AStar.KeyOf | src/edu/uwm/ai/search/search/AStarSearch.java:58-75 | the loop summing path costs along the backtrace computes the key |
| AStar.PollMin | src/edu/uwm/ai/search/search/AStarSearch.java:85 | the polled index holds a least key in the queue |
| AStar.Search | src/edu/uwm/ai/search/search/AStarSearch.java:54-102 | a path is returned exactly when the goal is reachable, it is a duplicate-free walk from initial to goal, equal endpoints give ([initial], 1), the cost is between 1 and the grid size, and a failure costs the size of the reachable set |
| AStar.Trace | src/edu/uwm/ai/search/search/AStarSearch.java:104-114 | backtrace returns the chain, a duplicate-free walk from initial to the point |
| AStar.Expand | src/edu/uwm/ai/search/search/AStarSearch.java:91-98 | scanning keeps the search invariant, never changes recorded entries, and gives every new entry the current point as predecessor |
| AStar.Scan | src/edu/uwm/ai/search/search/AStarSearch.java:91-98 | the same over any successor list that lists the moves exactly |
| AStar.AdmitNode | src/edu/uwm/ai/search/search/AStarSearch.java:92-96 | recording a successor with its heuristic as cost keeps the invariant |
| JumpProbe.StepIs | src/edu/uwm/ai/search/search/JumpPointSearch.java:210-211 | k steps along a direction add k times the direction |
| JumpProbe.StepNext | src/edu/uwm/ai/search/search/JumpPointSearch.java:210-211 | one more step is one more direction added |
| JumpProbe.RoomShrinks | src/edu/uwm/ai/search/search/JumpPointSearch.java:202-211 | every recursive probe from an in-grid position has less room to the edge |
| JumpProbe.Jump | src/edu/uwm/ai/search/search/JumpPointSearch.java:172-215 | a jump point found is valid, and an invalid start finds none |
| JumpProbe.GoalStops | src/edu/uwm/ai/search/search/JumpPointSearch.java:181-183 | a valid goal position stops the probe at itself |
| JumpProbe.DiagonalStops | src/edu/uwm/ai/search/search/JumpPointSearch.java:201-207 | a diagonal probe stops where either straight sub-probe succeeds |
| JumpProbe.JumpMovesOn | src/edu/uwm/ai/search/search/JumpPointSearch.java:210-211 | a jump point other than the start is the jump point of the next step |
| JumpProbe.JumpOnRay | src/edu/uwm/ai/search/search/JumpPointSearch.java:172-215 | the jump point lies on the ray from the start along the direction, over valid positions |
| JumpProbe.JumpDistance | src/edu/uwm/ai/search/search/JumpPointSearch.java:172-215 | the jump point is k steps along the ray and all k steps are valid |
| JumpProbe.DistanceGrows | src/edu/uwm/ai/search/search/JumpPointSearch.java:210-211 | k steps from the next position are k+1 from a valid start |
| JumpProbe.ClearShift | src/edu/uwm/ai/search/search/JumpPointSearch.java:210-211 | a clear ray from the next position extends to a clear ray from a valid start |
| JumpProbe.KeepMask | src/edu/uwm/ai/search/search/JumpPointSearch.java:293-307 | one keep flag per node: valid, and accessible through when diagonal |
| JumpProbe.PruneInvalid | src/edu/uwm/ai/search/search/JumpPointSearch.java:293-307 | pruneInvalid keeps exactly the nodes that pass, in order |
| JumpProbe.PrunedExactly | src/edu/uwm/ai/search/search/JumpPointSearch.java:293-307 | a node survives exactly when it was present and passes, and the survivors keep their order |
| JumpProbe.Opt | src/edu/uwm/ai/search/search/JumpPointSearch.java:228-255 | a guarded add contributes at most that node |
| JumpProbe.DoGetSuccessors | src/edu/uwm/ai/search/search/JumpPointSearch.java:217-291 | doGetSuccessors returns the pruned directional candidates, or the pruned eight neighbours without a parent |
| JumpProbe.DiagonalCandidates | src/edu/uwm/ai/search/search/JumpPointSearch.java:227-237 | the diagonal case adds the natural and forced neighbours under the source's tests |
| JumpProbe.VerticalCandidates | src/edu/uwm/ai/search/search/JumpPointSearch.java:239-247 | the vertical case adds ahead and the forced diagonals only when ahead is valid |
| JumpProbe.HorizontalCandidates | src/edu/uwm/ai/search/search/JumpPointSearch.java:248-256 | the horizontal case likewise |
| JumpProbe.ProbesAreNeighbours | src/edu/uwm/ai/search/search/JumpPointSearch.java:217-291 | every candidate is an 8-neighbour of p when the parent differs from p |
| JumpProbe.DirectedNeighbours | src/edu/uwm/ai/search/search/JumpPointSearch.java:223-258 | every directional candidate is an 8-neighbour |
| JumpProbe.DiagonalNeighbours | src/edu/uwm/ai/search/search/JumpPointSearch.java:227-237 | every diagonal-case candidate is an 8-neighbour |
| JumpProbe.VerticalNeighbours | src/edu/uwm/ai/search/search/JumpPointSearch.java:239-247 | every vertical-case candidate is an 8-neighbour |
| JumpProbe.HorizontalNeighbours | src/edu/uwm/ai/search/search/JumpPointSearch.java:248-256 | every horizontal-case candidate is an 8-neighbour |
| JumpProbe.CandidatesAreMoves | src/edu/uwm/ai/search/search/JumpPointSearch.java:289 | after pruning every candidate is a legal 8-connected move |
| JumpProbe.AdjacentIsUnit | src/edu/uwm/ai/search/search/JumpPointSearch.java:224-225 | the normalised direction to an 8-neighbour is a unit step that leads to it |
| JumpProbe.GetJumpSuccessors | src/edu/uwm/ai/search/search/JumpPointSearch.java:150-170 | getSuccessors probes each pruned candidate in order and keeps the jump points found |
| JumpProbe.ProbeFrom | src/edu/uwm/ai/search/search/JumpPointSearch.java:155-166 | one candidate yields its jump node, or nothing |
| JumpProbe.JumpNodesSnoc | src/edu/uwm/ai/search/search/JumpPointSearch.java:154-167 | the jump nodes of a longer list extend those of its prefix |
| JumpProbe.LeapCost | src/edu/uwm/ai/search/search/JumpPointSearch.java:158-165 | a jump k+1 steps along a unit direction costs k+1 straight and (k+1) sqrt 2 diagonally |
| JumpProbe.JumpNodesAreLeaps | src/edu/uwm/ai/search/search/JumpPointSearch.java:150-170 | every node returned is at a jump point reached along a clear ray, with that jump's cost and cost 0 |
| JumpPoint.Segment | src/edu/uwm/ai/search/search/JumpPointSearch.java:124-129 | the cells of one segment start at its first end |
| JumpPoint.AlignedReaches | src/edu/uwm/ai/search/search/JumpPointSearch.java:121-129 | the do-while loop between aligned points reaches the far end exactly after Span steps |
| JumpPoint.NeverMeets | src/edu/uwm/ai/search/search/JumpPointSearch.java:121-129 | between unaligned points the loop never reaches the far end |
| JumpPoint.FillPair | src/edu/uwm/ai/search/search/JumpPointSearch.java:115-130 | the imperative fill of one pair produces its segment |
| JumpPoint.Fill | src/edu/uwm/ai/search/search/JumpPointSearch.java:107-136 | fill fails exactly on the empty list, otherwise returns the filled cells |
| JumpPoint.SegmentChained | src/edu/uwm/ai/search/search/JumpPointSearch.java:124-129 | a segment followed by its far end moves one cell at a time |
| JumpPoint.ChainJoin | src/edu/uwm/ai/search/search/JumpPointSearch.java:111-133 | two chains sharing an end join into one chain |
| JumpPoint.PrefixChained | src/edu/uwm/ai/search/search/JumpPointSearch.java:111-131 | the fill of a prefix, with its last point appended, is a chain from the first point through every earlier point |
| JumpPoint.FillShape | src/edu/uwm/ai/search/search/JumpPointSearch.java:107-136 | the filled path runs from the first to the last point, one cell at a time, and contains every original point |
| JumpPoint.LeapSegment | src/edu/uwm/ai/search/search/JumpPointSearch.java:172-215 | a jump is aligned, moves, and crosses only valid cells |
| JumpPoint.RayShape | src/edu/uwm/ai/search/search/JumpPointSearch.java:121-122 | k+1 unit steps give a normalised direction of that unit and a span of k+1 |
| JumpPoint.ScaledUnit | src/edu/uwm/ai/search/search/JumpPointSearch.java:121-122 | dividing a multiple of a unit by its magnitude recovers the unit |
| JumpPoint.LeapsAligned | src/edu/uwm/ai/search/search/JumpPointSearch.java:107-136 | consecutive jump points are aligned |
| JumpPoint.PrefixValid | src/edu/uwm/ai/search/search/JumpPointSearch.java:107-136 | every filled cell after the first is valid |
| JumpPoint.FillOfLeaps | src/edu/uwm/ai/search/search/JumpPointSearch.java:107-136 | the fill of a walk of jumps runs from its first to its last point, one valid cell at a time |
| JumpPoint.KeyIsJumpEstimate | src/edu/uwm/ai/search/search/JumpPointSearch.java:61-78 | the comparator's key is the heuristic plus the jump costs along the chain |
| JumpPoint.Search | src/edu/uwm/ai/search/search/JumpPointSearch.java:57-105 | a returned path means the goal is reachable by jumps; it runs from initial to goal one valid cell at a time; equal endpoints give ([initial], 1); the cost is between 1 and the grid size |
| JumpPoint.Answer | src/edu/uwm/ai/search/search/JumpPointSearch.java:90-92 | the filled backtrace of the goal is a chain of valid cells from initial to goal |
| JumpPoint.Advance | src/edu/uwm/ai/search/search/JumpPointSearch.java:86-101 | polling and expanding a non-goal keeps the invariant and expands one more point |
| JumpPoint.JumpExpand | src/edu/uwm/ai/search/search/JumpPointSearch.java:94-101 | scanning the jump successors keeps the invariant and changes no recorded entry |
| JumpPoint.JumpScan | src/edu/uwm/ai/search/search/JumpPointSearch.java:94-101 | the same over any list of jump nodes |
| JumpPoint.AdmitJump | src/edu/uwm/ai/search/search/JumpPointSearch.java:95-100 | recording a new jump point with its heuristic as cost keeps the invariant |
| FloodFill.ExtendTwice | src/edu/uwm/ai/search/search/FloodFillSearch.java:121-131 | prepending in two stages equals prepending once |
| FloodFill.NthShift | src/edu/uwm/ai/search/search/FloodFillSearch.java:125-128 | following i+1 links from c is following i links from c's predecessor |
| FloodFill.UpsNoneIffLive | src/edu/uwm/ai/search/search/FloodFillSearch.java:125-128 | the bounded backtrace fails exactly when every link within the bound exists |
| FloodFill.NthPeriodic | src/edu/uwm/ai/search/search/FloodFillSearch.java:125-128 | two equal positions in the chain stay equal after the same number of further links |
| FloodFill.LiveForever | src/edu/uwm/ai/search/search/FloodFillSearch.java:125-128 | a chain that revisits a point never ends |
| FloodFill.CycleNeverEnds | src/edu/uwm/ai/search/search/FloodFillSearch.java:121-131 | a backtrace that does not end within the map's size never ends at all |
| FloodFill.Backtrace | src/edu/uwm/ai/search/search/FloodFillSearch.java:121-131 | the loop returns the chain from the root to the node, or no result when it cycles |
| FloodFill.Accumulate | src/edu/uwm/ai/search/search/FloodFillSearch.java:84-92 | the summing loop computes the node's cost plus the path costs along its backtrace |
| FloodFill.Compare | src/edu/uwm/ai/search/search/FloodFillSearch.java:73-111 | the comparator orders by field first, then by accumulated cost |
| FloodFill.MinSuccessor | src/edu/uwm/ai/search/search/FloodFillSearch.java:71-112 | the imperative scan computes the same pick as the fold that MinOfIsLeast characterises |
| FloodFill.MinFromLeast | src/edu/uwm/ai/search/search/FloodFillSearch.java:71-112 | the scan from a least prefix candidate ends at a least element, or meets a cycle |
| FloodFill.StepLeast | src/edu/uwm/ai/search/search/FloodFillSearch.java:71-112 | replacing the candidate only on a strictly smaller successor keeps it least |
| FloodFill.MinOfIsLeast | src/edu/uwm/ai/search/search/FloodFillSearch.java:71-112 | no successor exactly when the list is empty; a pick is in the list with least field and no greater accumulated cost among ties; a cycle only when some successor's backtrace cycles |
| FloodFill.AtsSnoc | src/edu/uwm/ai/search/search/FloodFillSearch.java:121-131 | positions of an extended chain |
| FloodFill.UpsWalk | src/edu/uwm/ai/search/search/FloodFillSearch.java:121-131 | a finished backtrace is a walk of legal moves from initial |
| FloodFill.Finish | src/edu/uwm/ai/search/search/FloodFillSearch.java:64-67 | at the goal the result is a walk from initial with cost field(initial) minus field(goal), or no return on a cycle |
| FloodFill.Descend | src/edu/uwm/ai/search/search/FloodFillSearch.java:70-115 | an iteration records `Collections.min`'s successor under the backtrace comparator with the current node as predecessor and keeps every record a legal move; it throws `NoSuchElementException` exactly when there is no successor, and diverges exactly when the comparator's backtrace cycles |
| FloodFill.Search | src/edu/uwm/ai/search/search/FloodFillSearch.java:31-119 | a returned path is a walk of legal moves from initial to goal with cost field(initial) minus field(goal); the only exception is NoSuchElementException; equal endpoints give ([initial], 0) |

## Left out

- `Search.java`, `SearchController.java`, `World.draw`, `Entity.draw`, `getBlockWidth`/`getBlockHeight`: user interface, rendering and frame timing. They are not part of this model.
- `World.generateWorld`: random obstacle placement. The model starts from an obstacle-free world and applies `SetObstacle`.
- `toString` of the search classes: constant labels with no logic.
- The heuristic (`heuristic.Heuristic`) of the newer package is a parameter `h`. Nothing is assumed about its values, and nothing proved depends on them.
- `isAccessableThrough`, `getSuccessors(Point)` and `getCostOfSquare` of the newer package's world are not defined in `World.java`. They are given fields of a `Terrain` value: a relation, a successor function and an integer field.
- `BreadthFirst.Search`: assumes that the world's `getSuccessors` returns valid 8-neighbours, so that the rounds stay inside a finite grid. The code of that method is not part of this model.
- `util.Point`, `SearchResult` and `SearchAlgorithm` of the newer package: only their data enter, as `Coord` and `SearchResult`.
- Floating point: `Math.sqrt(2)` is the constant `DiagCost` and costs are `real`. Rounding of `double` sums is not modelled.
- `LegacyAStar.PollMin`: `PriorityQueue.poll` returns some point of least key; the model always takes the earliest queued one, a determinisation of the heap's tie order. Keys here are integers (`heuristic + backtrace size`, and a queued point's predecessor never changes, so its key is fixed), so the `(int)(h1 - h2)` comparator loses nothing.
- `AStar.PollMin`: picks an element of exactly least key. The source's comparator returns `(int)(h1 - h2)`, so keys less than 1 apart compare equal. The model also does not reproduce `PriorityQueue`'s tie order.
- `JumpPoint.Search`: same polling simplification as `AStar.PollMin`.
- `JumpPoint.Search`: states soundness only (a returned path is a chain of valid cells along jumps from initial to goal). It does not state that a path is found whenever one exists, because jump successors depend on the recorded parent rather than on a fixed move relation.
- `HashMap` hashing and the linear `hasKey` scans are modelled as membership in a map keyed by coordinates. `hasKey` in `BreadthFirstSearch`, `IterativeDeepening` and `JumpPointSearch` is the same scan as in the newer `AStarSearch`, which `Preds.HasKey` models.
- Coordinates of the newer package and the flood-fill cost field are unbounded integers. The 32-bit overflow of `x + dx` near `Integer.MAX_VALUE`, and of `getCostOfSquare(initial) - getCostOfSquare(goal)`, is not modelled. The older package's `Point` and D*'s arithmetic use explicit 32-bit wrap-around.
- `util/Node` objects are class instances (`Nodes.Node`). The searches store their value view `NodeVal`, because no node is mutated after it is put in the predecessor map.
- `JumpProbe.PruneInvalid`: builds the kept list instead of removing elements through an iterator in place. The result list is the same.
- `JumpProbe.Jump`: requires a non-zero direction. With direction (0, 0) the source recurses without end, and no caller passes one.
- `JumpPoint.Fill`: requires consecutive points to lie on a straight or 45-degree line. For other pairs the source's `do`-`while` never ends, as `JumpPoint.NeverMeets` shows. Every path `search` passes to it satisfies this.
- `DStar.DStarSearch.Search` and `FloodFill.Search`: the main loop runs under a `fuel` bound and reports `OutOfFuel` when the bound is spent. Termination of those loops is not evident from the source.
- `FloodFill.Search`: the source's frontier is a `PriorityQueue` that always holds exactly one node. The model keeps a one-element queue and does not model the queue's comparator, which is never consulted with one element.
- `FloodFill.Descend`: `Collections.min` consults the comparator only when there are two or more successors. The model does the same and reports `Diverges` when the comparator's backtrace cycles.
- `DStar.NextIsLeast`: the step it describes uses the corrected comparator of the Findings row. `DStar.NextAsWrittenAgrees` shows it equals the source's step whenever no table vertex's `cost + rhs` overflows 32 bits; it differs only when an unreached vertex (cost 1, `rhs = MAX_VALUE`) is among the candidates.
- `DStar.NextIsStep`: the step it describes uses the corrected comparator of the Findings row. `DStar.NextAsWrittenAgrees` shows it equals the source's step whenever no table vertex's `cost + rhs` overflows 32 bits; it differs only when an unreached vertex (cost 1, `rhs = MAX_VALUE`) is among the candidates.
- `DStar.TracedStep`: each step it describes uses the corrected comparator of the Findings row. `DStar.NextAsWrittenAgrees` shows it equals the source's step whenever no table vertex's `cost + rhs` overflows 32 bits; it differs only when an unreached vertex (cost 1, `rhs = MAX_VALUE`) is among the candidates.
- `DStar.DStarSearch.NextStep`: uses the corrected comparator of the Findings row. `DStar.NextAsWrittenAgrees` shows it equals the source's step whenever no table vertex's `cost + rhs` overflows 32 bits; it differs only when an unreached vertex (cost 1, `rhs = MAX_VALUE`) is among the candidates.
- `DStar.DStarSearch.NextStepTraced`: uses the corrected comparator of the Findings row. `DStar.NextAsWrittenAgrees` shows it equals the source's step whenever no table vertex's `cost + rhs` overflows 32 bits; it differs only when an unreached vertex (cost 1, `rhs = MAX_VALUE`) is among the candidates.
- `DStar.DStarSearch.GetPath`: every step uses the corrected comparator of the Findings row. `DStar.NextAsWrittenAgrees` shows it equals the source's step whenever no table vertex's `cost + rhs` overflows 32 bits; it differs only when an unreached vertex (cost 1, `rhs = MAX_VALUE`) is among the candidates.
- `DStar.DStarSearch.Search`: the path it reports uses the corrected comparator of the Findings row. `DStar.NextAsWrittenAgrees` shows it equals the source's step whenever no table vertex's `cost + rhs` overflows 32 bits; it differs only when an unreached vertex (cost 1, `rhs = MAX_VALUE`) is among the candidates.
- `DStar.DStarSearch.Report`: the path it reports uses the corrected comparator of the Findings row. `DStar.NextAsWrittenAgrees` shows it equals the source's step whenever no table vertex's `cost + rhs` overflows 32 bits; it differs only when an unreached vertex (cost 1, `rhs = MAX_VALUE`) is among the candidates.
- `DStar.DStarSearch.Peek`: returns the first queued vertex of least current key. The source changes the keys of vertices already in the `PriorityQueue` (the goal at DStarSearch.java:325-326, the start at lines 331 and 384, `u` at line 341) without removing and re-adding them, so the heap is not re-sifted and `peek()` may return a vertex whose key is no longer least. `DStar.DStarSearch.Search` inherits this simplification.
- `LegacyBase.GetSuccessors`, `LegacyAStar.Search`, `DStar.DStarSearch.constructor` and every D* method (through `DStar.DStarSearch.Valid`), and likewise `BreadthFirst.Search`, `Deepening.Search`, `AStar.Search`, `JumpPoint.Search` and `FloodFill.Search` (through `Terrains.Terrain.Ok` and `Worlds.Grid.Ok`): require `World.Fits` (the world is no taller than wide, or at most one row tall). In a taller world `getIndex` (World.java:112-115) gives slots outside the array and `isValidPosition` throws `ArrayIndexOutOfBoundsException`; `Worlds.World.IsValidPosition` models that throw and `Worlds.SlotsFitIff` characterises it, but the searches over it are not modelled for such worlds.

## Findings

| source | as written | input that shows it | evidently intended | confidence | as-written member | corrected member |
|---|---|---|---|---|---|---|
| src/edu/uwm/ai/search/DStarSearch.java:570-581 | `cost + rhs` is computed in `int`. For an unreached vertex (`rhs = MAX_VALUE`, cost 1) it wraps to `MIN_VALUE`, so the guard against `MAX_VALUE` never fires and the unreached vertex compares least | a reached candidate with `rhs = 5` and an unreached one with `rhs = MAX_VALUE`: `getPath` steps to the unreached one | an unreached vertex is never preferred to a reached one, as the guard's comment says | not executed | DStarVertex.AsWrittenPrefersUnreached | DStarVertex.MinByCostPrefersReached |
