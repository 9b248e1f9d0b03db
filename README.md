# cs61b core, modelled in Dafny

This project models the algorithmic core of three pieces of the cs61b
coursework repository and proves properties of those models:

- **Map routing** (`proj3`). `GraphDB` is the map graph store: raw OSM nodes,
  the routable subgraph built from ways, named nodes, and name cleaning. The
  project also models its nearest-node scan and its exact-name lookup.
  `Router` is the best-first route search: it records a search tree in the
  nodes' `preNode` fields, and `fixPath` walks that tree back into a route.
  GraphDB.java's `Node` declares no `preNode`, `moves` or `distanceToGoal`,
  but Router.java:50-54 and 78-80 write them; the model's `Node` adds these
  three fields so that the router's writes have a place.
  It also holds the navigation-direction helpers.
- **8-puzzle** (`hw4`). `Board` is an immutable N×N tile grid with the Hamming
  and Manhattan estimates, equality and neighbour generation. `Solver` is the
  A* search over search nodes that chain back to the initial state.
- **Seam carving** (`hw5`). `SeamCarver` computes the dual-gradient energy with
  wrap-around neighbours and validates seams. It shifts the energy matrix
  after a seam removal. The vertical seam search fills `distTo` from the
  bottom row upwards and reads the seam back from the top. The horizontal
  search runs the vertical one on the transposed picture.

Modules, one per source file:

| file | module | source |
|---|---|---|
| common.dfy | `Common` | Java exceptions as `Result`/`Failure` values, `Math.abs` |
| graphdb.dfy | `MapGraph` | proj3/src/main/java/GraphDB.java |
| router.dfy | `Router` | proj3/src/main/java/Router.java |
| board.dfy | `Puzzle` | hw4/hw4/puzzle/Board.java |
| solver.dfy | `PuzzleSolver` | hw4/hw4/puzzle/Solver.java |
| seamcarver.dfy | `Seams` | hw5/SeamCarver.java |

Modelling conventions:

- **State.** Classes whose fields the source updates stay classes:
  - `Node`, `GraphDB`, `Board`, `Solver` and `SeamCarver`;
  - Java maps and sets become `map`/`set` fields;
  - Java 2-D arrays become `array2`.
- **Exceptions.** A thrown exception is a `Result.Err` carrying a `Failure`:
  - `NullPointer`, `NoSuchElement`, `IndexOutOfBounds`, `IllegalArgument`;
  - `OutOfFuel` stands for a `while (true)` loop that never stops.
  - Constructors cannot return a value, so `Solver` keeps its outcome in a
    `failure` field.
- **Hidden inputs.** Things the code depends on but the model cannot see are
  parameters:
  - iteration orders of Java hash sets and maps;
  - the priority-queue pick, in the router;
  - the distance function;
  - the name trie;
  - the regex match result and `Double.parseDouble`;
  - the picture after seam removal.
- **Numbers.** Doubles are `real`s in the map code and exact `int`s in seam
  carving.

### Behaviour worth knowing

- `closest` on a graph with no routable nodes returns id 0.
- A way that names a node missing from the node table makes the code throw a
  null dereference.
- `adjacent` on an unknown id is a null dereference.
- A route search whose queue runs empty throws NoSuchElement from
  `PriorityQueue.remove`; that exception is how an unreachable destination
  shows.
- The route is one walk without repeated ids from the start to the
  destination. It need not be a shortest one: the search overwrites a node's
  parent without comparing distances.
- The vertical seam search stops at the first popped index of the top row;
  the seam is read back from that column, and each row takes the leftmost
  matching column of the three below.
- The seam validator takes the difference of consecutive entries in 32-bit
  `int` arithmetic, which wraps: `{Integer.MAX_VALUE, Integer.MIN_VALUE}`
  differs by -1 after the wrap and is accepted. For seams of non-negative
  entries, such as column or row indices, the wrap cannot happen.

## Model

| member | source | states |
|---|---|---|
| `Common.Abs` | hw4/hw4/puzzle/Board.java:54 | `Math.abs` on unbounded integers: the result is non-negative and is x or -x |
| `Common.Wrap32` | hw5/SeamCarver.java:268 | Java `int` subtraction: the result lies in [-2^31, 2^31), differs from the exact value by a multiple of 2^32, and is the exact value when that fits |
| `MapGraph.Node.constructor` | proj3/src/main/java/GraphDB.java:53-57 | a node keeps its id, coordinates and tags, and starts with no neighbours, no ways and no parent |
| `MapGraph.Node.AddAdjacent` | proj3/src/main/java/GraphDB.java:59-65 | a null node or the node itself changes nothing; otherwise each node gains the other's id and nothing else |
| `MapGraph.Lookup` | proj3/src/main/java/GraphDB.java:77 | `Map.get` is present exactly for keys of the map, with the stored value |
| `MapGraph.LinkedIsUndirected` | proj3/src/main/java/GraphDB.java:59-91 | an edge contributed by a way is symmetric, is never a self-loop and joins two ids of the way |
| `MapGraph.LinkedConsecutive` | proj3/src/main/java/GraphDB.java:80-91 | every two consecutive distinct ids of a way are linked both ways |
| `MapGraph.WithWayUndirected` | proj3/src/main/java/GraphDB.java:70-92 | adding a way keeps the adjacency symmetric and loop-free, and the way's ids join the routable set |
| `MapGraph.WithWaySnoc` | proj3/src/main/java/GraphDB.java:81-91 | processing one more id of the way links exactly that id with its predecessor |
| `MapGraph.TaggedBySnoc` | proj3/src/main/java/GraphDB.java:87-89 | tagging one more id adds the way name to exactly that id |
| `MapGraph.ToLower` | proj3/src/main/java/GraphDB.java:138 | a capital letter becomes the matching lower-case letter; clean characters are unchanged |
| `MapGraph.CleanString` | proj3/src/main/java/GraphDB.java:137-139 | the result is no longer than the input and holds only `a`-`z` and space |
| `MapGraph.CleanStringAppend` | proj3/src/main/java/GraphDB.java:137-139 | cleaning works character by character: clean(a + b) == clean(a) + clean(b) |
| `MapGraph.CleanStringChar` | proj3/src/main/java/GraphDB.java:138 | one character is kept (lower-cased) exactly when it is in `[a-zA-Z ]` |
| `MapGraph.CleanStringFixesClean` | proj3/src/main/java/GraphDB.java:137-139 | an already clean string is left unchanged |
| `MapGraph.CleanStringIdempotent` | proj3/src/main/java/GraphDB.java:137-139 | cleaning twice is cleaning once |
| `MapGraph.NamedNodes` | proj3/src/main/java/GraphDB.java:148-153 | keeps exactly the nodes with a "name" tag, under the same ids |
| `MapGraph.ClosestUnique` | proj3/src/main/java/GraphDB.java:237-249 | the nearest-node scan has a single possible outcome (the strict `<` keeps the first of equally near ids) |
| `MapGraph.GraphDB.constructor` | proj3/src/main/java/GraphDB.java:33-44 | a store over the parsed nodes, with no routable or named nodes yet and a raw adjacency that is undirected |
| `MapGraph.GraphDB.BuildingIsRouting` | proj3/src/main/java/GraphDB.java:70-92 | once built from ways, the routable graph is symmetric, loop-free and closed |
| `MapGraph.GraphDB.AddValidNodesOfWay` | proj3/src/main/java/GraphDB.java:70-92 | a way with fewer than 2 ids adds nothing; otherwise its ids become routable, consecutive pairs are linked, its name is recorded, and the graph stays undirected |
| `MapGraph.GraphDB.LinkNodes` | proj3/src/main/java/GraphDB.java:80-91 | the loop over the way: routable set, adjacency and way names all equal their pure specifications |
| `MapGraph.GraphDB.Visit` | proj3/src/main/java/GraphDB.java:82-90 | one id becomes routable, is linked to the previous node and is tagged |
| `MapGraph.GraphDB.LinkAdjacent` | proj3/src/main/java/GraphDB.java:85 | the raw adjacency gains exactly the pair's link |
| `MapGraph.GraphDB.TagWay` | proj3/src/main/java/GraphDB.java:87-89 | the way name is added to exactly that node |
| `MapGraph.GraphDB.Clean` | proj3/src/main/java/GraphDB.java:146-155 | the named raw nodes are added to `nameNodes`, and then the raw nodes are dropped |
| `MapGraph.GraphDB.Vertices` | proj3/src/main/java/GraphDB.java:162-165 | the vertices are exactly the routable ids |
| `MapGraph.GraphDB.Adjacent` | proj3/src/main/java/GraphDB.java:173-175 | the neighbour set of a routable id; any other id is a null dereference |
| `MapGraph.GraphDB.AdjacentSymmetric` | proj3/src/main/java/GraphDB.java:59-65 | in the routable graph a neighbour is routable, lists the node back and is not the node itself |
| `MapGraph.GraphDB.Closest` | proj3/src/main/java/GraphDB.java:237-249 | the result is 0 when nothing is nearer than Double.MAX_VALUE; otherwise it is a nearest id, the first such one in iteration order |
| `MapGraph.GraphDB.GetLocationsByPrefix` | proj3/src/main/java/GraphDB.java:271-279 | a null or empty prefix gives no names; otherwise the trie is queried with the cleaned prefix |
| `MapGraph.GraphDB.GetLocations` | proj3/src/main/java/GraphDB.java:281-302 | a null or unknown name gives no records; otherwise one record per stored id in stored order, or a null dereference for an id with no named node |
| `Router.NDCompare` | proj3/src/main/java/Router.java:116-131 | the comparator returns 1, 0 or -1 exactly as the priority is greater, equal or smaller |
| `Router.NDCompareAntisymmetric` | proj3/src/main/java/Router.java:116-131 | compare(a, b) == -compare(b, a) |
| `Router.NDCompareTransitive` | proj3/src/main/java/Router.java:116-131 | the "not greater" order is transitive |
| `Router.RoutingNotDangling` | proj3/src/main/java/Router.java:66-68 | in a built routable graph, every neighbour id looks up a routable node |
| `Router.WalkStaysInside` | proj3/src/main/java/Router.java:59-84 | a walk from the start never leaves a set closed under taking neighbours |
| `Router.SeparatedUnreachable` | proj3/src/main/java/Router.java:59-84 | when the closed ids separate start from destination, no walk joins them |
| `Router.Relax` | proj3/src/main/java/Router.java:74-82 | the neighbour's parent becomes `min`, with moves through `min` and a fresh estimate; the tree and queue invariants hold |
| `Router.Expand` | proj3/src/main/java/Router.java:65-83 | on success the new queue is the old one followed by the routable neighbours of `min` that are not closed, in adjacency order (`Opened`), each with parent `min`, moves through `min` and its estimate to the destination; every unclosed neighbour id is routable; the tree and queue invariants hold and the stale count is unchanged; a failure means some neighbour id is not routable |
| `Router.Visit` | proj3/src/main/java/Router.java:65-82 | one neighbour id: a closed one is skipped, a routable one is relaxed and appended to the queue, a missing one is the null dereference; the queue stays the old one plus `Opened` of the ids seen so far |
| `Router.Opened` | proj3/src/main/java/Router.java:65-83 | the nodes the inner loop queues are nodes of the routable graph, at most one per neighbour id |
| `Router.OpenedHolds` | proj3/src/main/java/Router.java:65-83 | every neighbour id that is neither closed nor missing has its node queued by the loop |
| `Router.PopStep` | proj3/src/main/java/Router.java:60-62 | popping closes the node with the next rank, and the search-tree, queue and coverage invariants carry over |
| `Router.Step` | proj3/src/main/java/Router.java:59-84 | one round pops `frontier[p]`, adds its id to `removed` and appends it to `paths`; it is found exactly when it is the destination, and then the queue is the rest; otherwise, on success, the queue is the rest followed by the relaxed unclosed neighbours of the popped node, and the search invariant holds while a termination measure drops |
| `Router.Exhausted` | proj3/src/main/java/Router.java:59-60 | an empty queue means the closed ids separate the start from the destination |
| `Router.Start` | proj3/src/main/java/Router.java:48-55 | the start node has no parent, zero moves and its estimate to the destination |
| `Router.SpHelper` | proj3/src/main/java/Router.java:44-86 | the error cases are a null end (NullPointer), a dangling neighbour (NullPointer) and an exhausted queue (NoSuchElement, only when start and destination are separated); success gives a search tree containing the destination and the popped ids from start to destination; start == destination gives `[start]` |
| `Router.FixPath` | proj3/src/main/java/Router.java:88-114 | an empty path is an index error; an unroutable last id gives `[]`; otherwise the parent chain from the start to the last id, a walk with strictly increasing close ranks |
| `Router.PrependParent` | proj3/src/main/java/Router.java:109-112 | putting a node's parent in front of a tree path keeps it a tree path |
| `Router.TreePathSingleton` | proj3/src/main/java/Router.java:108-113 | a tree path that starts at its last id is that id alone |
| `Router.ShortestPath` | proj3/src/main/java/Router.java:32-42 | both ends are the nearest routable ids, and the outcome is a route between them with the error cases below |
| `Router.RouteBetween` | proj3/src/main/java/Router.java:37-41 | success is a walk without repeated ids from start to destination (`[s]` when they coincide); NoSuchElement only when no walk exists; NullPointer only for an unroutable end or a dangling id; on a built graph a route comes back exactly when one exists |
| `Router.Reconstruct` | proj3/src/main/java/Router.java:88-114 | after a successful search the route is a walk without repeated ids from start to destination |
| `Router.DirectionTable` | proj3/src/main/java/Router.java:156-190 | the eight direction constants are pairwise distinct and below NUM_DIRECTIONS; the label table has NUM_DIRECTIONS distinct entries |
| `Router.DefaultDirection` | proj3/src/main/java/Router.java:208-212 | the default direction is "Go straight" on "unknown road" for 0 miles |
| `Router.DirectionOf` | proj3/src/main/java/Router.java:232-251 | a label maps to the constant whose table entry it is; an unknown label maps to none |
| `Router.DirectionOfLabel` | proj3/src/main/java/Router.java:182-189 | the label match inverts the label table |
| `Router.FromString` | proj3/src/main/java/Router.java:226-264 | a direction comes back exactly when the text matches and has a known label and a parsable distance; it then carries that label's constant, the way and the parsed distance |
| `Router.EqualsIsEquality` | proj3/src/main/java/Router.java:266-274 | field-by-field equality coincides with value equality |
| `Puzzle.JavaDiv` | hw4/hw4/puzzle/Board.java:52 | Java's `/` truncates toward zero: the remainder has the dividend's sign and is smaller than the divisor |
| `Puzzle.JavaRem` | hw4/hw4/puzzle/Board.java:53 | Java's `%`: `a == (a / b) * b + a % b` with the truncating quotient, so the remainder has the dividend's sign and magnitude below the divisor |
| `Puzzle.TileDistancePositive` | hw4/hw4/puzzle/Board.java:50-54 | a misplaced tile contributes at least 1 to the Manhattan sum |
| `Puzzle.NeighborCellsMembers` | hw4/hw4/puzzle/Board.java:110-121 | the neighbour loop meets exactly the in-grid cells at distance 1 from the blank, in row-major order |
| `Puzzle.NeighborCellsCount` | hw4/hw4/puzzle/Board.java:110-121 | the number of such cells met before a point of the scan is the count of the blank's grid neighbours before it |
| `Puzzle.NeighborCount` | hw4/hw4/puzzle/Board.java:91-123 | a blank inside the grid has one neighbour per side of its cell that is not on the edge of the grid; no blank (-1, -1) gives none |
| `Puzzle.Board.constructor` | hw4/hw4/puzzle/Board.java:9-15 | an own copy of the first `size` entries of each row, `size` being the row count |
| `Puzzle.Board.TileAt` | hw4/hw4/puzzle/Board.java:16-21 | the tile inside the grid; anything else is IndexOutOfBounds |
| `Puzzle.Board.Size` | hw4/hw4/puzzle/Board.java:22-24 | the side length of the grid |
| `Puzzle.Board.Hamming` | hw4/hw4/puzzle/Board.java:25-40 | the number of non-blank tiles not at their goal cell |
| `Puzzle.Board.Manhattan` | hw4/hw4/puzzle/Board.java:41-59 | the sum, over non-blank misplaced tiles, of the row and column distance to the goal cell (with Java division) |
| `Puzzle.Board.EstimatedDistanceToGoal` | hw4/hw4/puzzle/Board.java:61-64 | the Manhattan sum, which is 0 exactly on the solved board |
| `Puzzle.Board.CostZero` | hw4/hw4/puzzle/Board.java:31-55 | a cell costs nothing exactly when it holds the blank or its own tile |
| `Puzzle.Board.RowSumZero` | hw4/hw4/puzzle/Board.java:29-38 | a row's partial sum is 0 exactly when no cell so far is misplaced |
| `Puzzle.Board.GridSumZero` | hw4/hw4/puzzle/Board.java:29-38 | the partial grid sum is 0 exactly when no cell so far is misplaced |
| `Puzzle.Board.CostZeroIffSolved` | hw4/hw4/puzzle/Board.java:25-59 | both estimates are 0 exactly on the solved board |
| `Puzzle.Board.RowDominates` | hw4/hw4/puzzle/Board.java:25-59 | row by row, Manhattan is never below Hamming |
| `Puzzle.Board.ManhattanDominatesHamming` | hw4/hw4/puzzle/Board.java:25-59 | Manhattan is never below Hamming |
| `Puzzle.Board.Equals` | hw4/hw4/puzzle/Board.java:66-87 | as written: true for the same object, or for a same-size board with no tile equal at the same cell |
| `Puzzle.Board.EqualsIntended` | hw4/hw4/puzzle/Board.java:66-87 | corrected: true for the same object or for a board with the same tiles |
| `Puzzle.EqualsRejectsIdenticalCopy` | hw4/hw4/puzzle/Board.java:79-85 | the written test rejects a distinct copy with identical tiles |
| `Puzzle.Board.FindBlank` | hw4/hw4/puzzle/Board.java:93-103 | the position of the last blank in row-major order, or (-1, -1) when there is none |
| `Puzzle.Board.SlideInto` | hw4/hw4/puzzle/Board.java:112-118 | a new board with the blank and cell (l, m) swapped; the scratch grid is restored |
| `Puzzle.Board.Neighbors` | hw4/hw4/puzzle/Board.java:91-123 | one new board per cell next to the blank, in row-major order, each this board with that cell slid into the blank |
| `PuzzleSolver.Compare` | hw4/hw4/puzzle/Solver.java:69-76 | the sign of the comparator is the order of the priorities moves + estimate |
| `PuzzleSolver.CompareOrder` | hw4/hw4/puzzle/Solver.java:69-76 | the comparator is antisymmetric and transitive |
| `PuzzleSolver.PathOfChain` | hw4/hw4/puzzle/Solver.java:45-65 | following `previous` from a node chained to the initial state gives a walk of `moves` steps between neighbour states, ending at the node's state |
| `PuzzleSolver.ChildrenMembers` | hw4/hw4/puzzle/Solver.java:32-42 | expansion enqueues exactly the neighbours that are not the grandparent, each with one more move |
| `PuzzleSolver.ChildrenChain` | hw4/hw4/puzzle/Solver.java:32-42 | every enqueued child of a chained node is chained |
| `PuzzleSolver.MinIndex` | hw4/hw4/puzzle/Solver.java:22 | an entry of least priority, the first such one |
| `PuzzleSolver.MakeNode` | hw4/hw4/puzzle/Solver.java:58-65 | a node holds its state, its parent and the state's estimate; moves are 0 without a parent and one more than the parent's otherwise |
| `PuzzleSolver.Solver.constructor` | hw4/hw4/puzzle/Solver.java:15-18 | the search ends in the outcome state; an initial goal state is solved in 0 moves with the solution `[initial]` |
| `PuzzleSolver.Solver.DelMin` | hw4/hw4/puzzle/Solver.java:22 | an empty queue is NoSuchElement; otherwise a least-priority node is taken out and the rest is kept |
| `PuzzleSolver.Solver.GetNeighbors` | hw4/hw4/puzzle/Solver.java:32-42 | the queue gains exactly the children of the taken node |
| `PuzzleSolver.Solver.FindPath` | hw4/hw4/puzzle/Solver.java:45-50 | the node's path from the initial state is put in front of the solution |
| `PuzzleSolver.Solver.Finish` | hw4/hw4/puzzle/Solver.java:23-26 | records the goal node's moves and path, reaching the outcome state |
| `PuzzleSolver.Solver.Step` | hw4/hw4/puzzle/Solver.java:21-29 | an empty queue ends the search with NoSuchElement; otherwise the popped node is a least-priority node of the old queue, appended to `popped`; the search ends exactly when it is a goal, and the new queue is the old one without it, plus its children when it is not a goal |
| `PuzzleSolver.Solver.Expand` | hw4/hw4/puzzle/Solver.java:28 | the queue gains the children of a node that is not a goal, and every queued node still chains back to the initial state |
| `PuzzleSolver.Solver.SolverHelper` | hw4/hw4/puzzle/Solver.java:20-30 | the loop ends in the outcome state, and the first node it takes is the initial queue's only node |
| `PuzzleSolver.Solver.Moves` | hw4/hw4/puzzle/Solver.java:78-80 | after a solve, a non-negative count, one less than the number of states in the solution |
| `PuzzleSolver.Solver.Solution` | hw4/hw4/puzzle/Solver.java:82-84 | after a solve, a walk of `moves` steps from the initial state to a goal |
| `Seams.Prev` | hw5/SeamCarver.java:47-49 | the left or upper neighbour wraps at 0 to the last position and stays on the ring |
| `Seams.Next` | hw5/SeamCarver.java:48-50 | the right or lower neighbour wraps at the last position to 0 and stays on the ring |
| `Seams.SquareOfDifference` | hw5/SeamCarver.java:67-70 | (a - b)², hence non-negative and 0 exactly when a == b |
| `Seams.SquareOfDifferenceSymmetric` | hw5/SeamCarver.java:67-70 | the square of difference is symmetric |
| `Seams.PixelEnergy` | hw5/SeamCarver.java:47-64 | the dual-gradient energy over the wrapped neighbours is never negative |
| `Seams.EnergyZero` | hw5/SeamCarver.java:47-64 | the energy is 0 exactly when both wrapped neighbour pairs have equal colours |
| `Seams.EnergyTranspose` | hw5/SeamCarver.java:113-121 | pixel (y, x) of the transpose has the energy of pixel (x, y) |
| `Seams.Transpose` | hw5/SeamCarver.java:114-119 | a new picture with swapped dimensions, where (y, x) holds the original (x, y) |
| `Seams.Check` | hw5/SeamCarver.java:261-274 | a wrong length is IllegalArgument; a length of 0 is an index error on `seam[0]`; otherwise the seam is accepted exactly when consecutive entries differ by at most 1 after the 32-bit wrap of the difference, and any rejection is IllegalArgument |
| `Seams.Int32ConnectedIffConnected` | hw5/SeamCarver.java:266-273 | for seams of non-negative `int` entries, the validator's wrapped test accepts exactly the seams whose consecutive entries differ by at most 1 |
| `Seams.WrappedJumpAccepted` | hw5/SeamCarver.java:268-269 | the seam `{MAX_VALUE, MIN_VALUE}` passes the wrapped test though its entries are 2^32 - 1 apart |
| `Seams.Decode` | hw5/SeamCarver.java:169-170 | the index `row * width + column` decodes back to its row and column |
| `Seams.RowOf` | hw5/SeamCarver.java:165-169 | an index in the picture decodes to a row of the picture, and to row 0 exactly when it is below width |
| `Seams.SplitIndex` | hw5/SeamCarver.java:169-170 | a popped index outside the top row splits into a row in [1, height) and a column in [0, width) |
| `Seams.IndexFits` | hw5/SeamCarver.java:127-132 | decoding with the wider `distTo` dimensions stays inside `distTo` |
| `Seams.Encode` | hw5/SeamCarver.java:154-157 | a cell's index `row * width + column` lies below height * width |
| `Seams.EnergiesOf` | hw5/SeamCarver.java:19-23 | every entry is the pixel's energy |
| `Seams.ShiftUp` | hw5/SeamCarver.java:74-88 | after a horizontal seam: each column keeps the energies above seam-1, recomputes rows seam-1 and seam, and moves the rest up one row |
| `Seams.ShiftLeft` | hw5/SeamCarver.java:89-103 | after a vertical seam: each row keeps the energies left of seam-1, recomputes columns seam-1 and seam, and moves the rest left one column |
| `Seams.SeamCarver.constructor` | hw5/SeamCarver.java:14-24 | the energy matrix holds every pixel's energy; `distTo` is all 0 with the picture's dimensions |
| `Seams.SeamCarver.Width` | hw5/SeamCarver.java:32-34 | the current picture's width, which is also the energy matrix's and at most `distTo`'s |
| `Seams.SeamCarver.Height` | hw5/SeamCarver.java:37-39 | the current picture's height, likewise |
| `Seams.SeamCarver.Energy` | hw5/SeamCarver.java:42-65 | the wrapped dual-gradient energy inside the picture; IndexOutOfBounds outside |
| `Seams.SeamCarver.ChangeEnergyMatrix` | hw5/SeamCarver.java:72-110 | a pending horizontal seam is applied first, otherwise a vertical one; both seams are cleared; with none pending nothing changes |
| `Seams.SeamCarver.RemoveHorizontalSeam` | hw5/SeamCarver.java:244-250 | a seam of the wrong length or with a jump (after the 32-bit wrap) is IllegalArgument, an empty seam for an empty dimension IndexOutOfBounds, and either changes no field; for non-negative entries a seam is accepted exactly when it has the right length and its entries differ by at most 1; a valid one replaces the picture and shifts the energies up; `distTo` is kept and no removal is left pending |
| `Seams.SeamCarver.RemoveVerticalSeam` | hw5/SeamCarver.java:253-259 | a seam of the wrong length or with a jump (after the 32-bit wrap) is IllegalArgument, an empty seam for an empty dimension IndexOutOfBounds, and either changes no field; for non-negative entries a seam is accepted exactly when it has the right length and its entries differ by at most 1; a valid one replaces the picture and shifts the energies left; `distTo` is kept and no removal is left pending |
| `Seams.SeamCarver.RemoveMin` | hw5/SeamCarver.java:124-143 | an index of least `distTo` (decoded with the starting width, as the comparator does) is taken out of the queue at a position the result names; the rest keeps the order |
| `Seams.SeamCarver.RelaxCell` | hw5/SeamCarver.java:186-192 | a cell still at 0 gets the popped distance plus its energy and is queued; nothing else changes |
| `Seams.SeamCarver.AddNeighbors` | hw5/SeamCarver.java:178-213 | only cells of the row above, within a column of the popped one and inside the picture, are written, each only if still 0; they are queued middle, left, right |
| `Seams.SeamCarver.FindBelow` | hw5/SeamCarver.java:224-237 | the first column of sc-1, sc, sc+1 in the picture whose distance difference equals the energy, or none |
| `Seams.SeamCarver.TracedExtend` | hw5/SeamCarver.java:223-238 | reading one more row keeps the rows already read |
| `Seams.SeamCarver.TracedConnected` | hw5/SeamCarver.java:215-241 | a seam read back with a match in every row lies in the picture and passes the seam check |
| `Seams.SeamCarver.FindPath` | hw5/SeamCarver.java:215-241 | `height` entries starting at `start`; a matched row takes the leftmost matching column within one of the current position, no column left of it matching, and moves there; an unmatched row stays 0 and the position stays |
| `Seams.SeamCarver.Seed` | hw5/SeamCarver.java:152-158 | the bottom row of `distTo` gets its energies, and its indices are queued left to right |
| `Seams.SeamCarver.Expand` | hw5/SeamCarver.java:167-171 | decodes the popped index into a row below the top and a column; `distTo` and the queue change exactly as addNeighbors does for that cell: the cells above that were 0 are written and queued middle, left, right; the seeded bottom row and every non-zero distance are kept |
| `Seams.SeamCarver.Take` | hw5/SeamCarver.java:164 | `pq.remove()`: the pop is recorded with the comparator's keys at that moment, the taken entry has the least key, and the cell it addresses is decoded; the trace stays a search trace |
| `Seams.SeamCarver.Round` | hw5/SeamCarver.java:163-171 | one pass of the loop appends one pop to the trace; a top-row pop leaves `distTo` and the rest of the queue alone, any other grows the rest by cells of the row above; no non-zero distance changes |
| `Seams.SeamCarver.Search` | hw5/SeamCarver.java:163-172 | the loop's pops form a trace from the seeded queue, each taking a least-key entry of the queue the previous one left; every pop but the last is below the top row, and success returns the last pop, which is in the top row; an empty queue is NoSuchElement; no non-zero distance changes |
| `Seams.SeamCarver.TraceKept` | hw5/SeamCarver.java:186-212 | writing only cells whose distance is 0 keeps every recorded non-zero key equal to the comparator's current key |
| `Seams.SeamCarver.FindVerticalSeam` | hw5/SeamCarver.java:146-176 | width 0 is NoSuchElement; height 0 is an index error; otherwise the bottom row is seeded and the search trace is returned; success is a seam of `height` entries read back from the column of the first top-row pop, every earlier pop lying below the top row; a search fails only with NoSuchElement (the queue ran empty) or OutOfFuel; outside the bottom row, which is reseeded, every non-zero distance left by an earlier search is kept |
| `Seams.SeamCarver.FindHorizontalSeam` | hw5/SeamCarver.java:113-122 | the vertical search on a fresh carver over the transpose, whose energies are this picture's, transposed; the seam has `width` entries and starts at the first top-row pop of that carver's search trace; the failures are those of the vertical search: height 0 is NoSuchElement, width 0 an index error, and a search fails only with NoSuchElement or OutOfFuel |

## Left out

- The haversine `distance` and `bearing` (GraphDB.java:186-228): floating-point trigonometry. The distance is a function parameter.
- XML loading (`GraphDB(String)`, `GraphBuildingHandler`) and the `Tries` name index: file I/O and unseen code. The trie is a parameter of `GetLocationsByPrefix`. `cleanNameToId` is a field the loader fills.
- `lon`, `lat` and `getNode`: plain map lookups. They appear inside `Closest` and `GetLocations`.
- `routeDirections` returns null in the source. There is nothing to model.
- `NavigationDirection.toString` and `hashCode`: string formatting and hashing. The regex match inside `fromString` and `Double.parseDouble` are parameters.
- Java hash-set and hash-map iteration orders: they are parameters (`order`, `adjOrder` and AddValidNodesOfWay's id sequence).
- `Router.SpHelper`: the priority order of the queue is not modelled. A `pick` oracle chooses the popped entry, so no statement depends on A* order. The result is a route, not a shortest route, because the source overwrites `preNode` without comparing distances.
- Priority-queue tie order: `MinPQ` and `PriorityQueue` break ties arbitrarily. The model takes the first least entry.
- Keys that change while an entry is queued: the Java heap can then misorder. The model reads keys when it pops.
- `Seams.SeamCarver.Search`: a key recorded as 0 with a pop is not tied to the final distances, because the search can still write a cell whose distance is 0 after it was queued.
- `PuzzleSolver.Compare`: `ob1 - ob2` is computed on unbounded integers. The 32-bit overflow of huge priorities is not modelled.
- `Puzzle.Board.Manhattan`: the tile arithmetic and the sum are unbounded here, while Java's are 32-bit and wrap. The model's board accepts any `int` tiles, so this happens already on a 1×1 board: for `{{-2147483647}}` the tile's `number` is `Integer.MIN_VALUE`, whose `Math.abs` is negative, so `manhattan()` returns -2147483648 while the model returns 2147483648; for `{{Integer.MIN_VALUE}}` the subtraction `board[i][j] - 1` wraps. On boards holding a permutation of 0 to N² - 1 the sum wraps from a side of about 1300 upward (the reversed 1300×1300 board sums to 2,195,308,700). Consequently `Puzzle.Board.ManhattanDominatesHamming` and `Puzzle.Board.CostZeroIffSolved` hold for the unbounded model, not for Java's wrapped sum on such boards.
- `Common.Abs`: Java's `Math.abs(Integer.MIN_VALUE)` is `Integer.MIN_VALUE`, which is negative. The model's `Abs` works on unbounded integers and returns 2^31 there.
- `Puzzle.Board.Hamming`: the count is unbounded here. The Java count wraps only past 2^31 − 1 misplaced tiles, on boards with a side above 46340, and the model does not capture this either.
- `MapGraph.ToLower`: ASCII case mapping is assumed. Java's `toLowerCase()` follows the default locale, and under a Turkish or Azeri locale it maps 'I' to 'ı', so the cleaned string of GraphDB.java:138, which lower-cases after filtering, would hold a character outside `a`-`z`.
- `Puzzle.Board.constructor`: a tile array is rectangular here. The model requires at least as many columns as rows. The source accepts jagged rows and throws from `System.arraycopy` on a row shorter than the row count.
- The `getClass()` test in `Board.equals` (Board.java:71): the model compares a board with a board or null only.
- `Board.toString` and the `WorldState` interface: formatting, and an interface the world record stands in for.
- `Solver`: the `MinPQ` heap is a sequence with a minimum scan.
- `PuzzleSolver.Solver.constructor`: the source's exceptions are recorded in the `failure` field, because a constructor returns nothing.
- `PuzzleSolver.Solver.SolverHelper`: the loop in Solver.java:21 runs for at most `fuel` pops, and a larger search ends as OutOfFuel.
- `Seams.SeamCarver.FindVerticalSeam`: the loop in SeamCarver.java:163 runs for at most `fuel` pops, and a larger search ends as OutOfFuel.
- `Picture`, `java.awt.Color` and `SeamRemover`: library and unseen code. A picture is an `array2` of integer RGB triples. The removal methods take the picture after removal as an input.
- The static `distToClassVer` (SeamCarver.java:10,149): the comparator reads the carver's own `distTo`, which is the same array.
- Energies are `double`s in the source and exact integers here. All values involved are integers.
- `Seams.SeamCarver.FindVerticalSeam` states no optimality of the seam.
- SeamCarver state kept across searches, which the model carries over as the source does:
  - `distTo` is never reset between searches, so a second search starts from the distances of the first;
  - after vertical removals the comparator keeps decoding with the original width.
- `MapGraph.GraphDB.AddValidNodesOfWay`: requires every id of the way to be a parsed node. The source throws a null dereference at the first missing id, after it has already put that id into `ids` and `validNodes`.
- proj2's `Game.java` is not part of this model.

## Findings

| source | as written | input that shows it | evidently intended | confidence | as-written member | corrected member |
|---|---|---|---|---|---|---|
| hw4/hw4/puzzle/Board.java:81 | `equals` returns false as soon as two cells hold the SAME tile, and true only when no cell agrees | two distinct `Board` objects built from the same 1×1 grid `{{0}}`: `equals` returns false | return false when two cells DIFFER, so boards with equal tiles are equal | not executed | `Puzzle.Board.Equals`, `Puzzle.EqualsRejectsIdenticalCopy` | `Puzzle.Board.EqualsIntended` |
