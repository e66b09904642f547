# Wolverine web services: shortest paths and mazes, in Dafny

This project models the two services at the core of the Wolverine web services and proves
properties about them.

**The shortest-path engine** (`DijkstraService`) works on a list of graph nodes. Each node has
an id and a list of neighbours, and each neighbour has a node id and an edge cost.

- `FindShortestPaths` validates the list, then runs Dijkstra's algorithm towards a primary
  node. The result is a fastest-path table. Each row of the table holds a node id, the lowest
  known cost of a walk from the primary node to that node, and the node before it on that walk
  (the "neighbour" link).
- `FindShortestPath` builds that table with the end node as the primary node. It then follows
  the links from the start node to produce the path.

**The maze service** (`MazeService`) has three operations:

- `GenerateMaze` builds a grid of cells and carves passages depth-first from the top-left cell,
  trying directions in shuffled order.
- `ConvertToGraph` validates a maze and turns every cell into a node. Every passage that leads
  to a cell on the grid becomes a cost-1 neighbour.
- `FindSolution` converts the maze and asks the engine for a path between two cells.

## Modules

- `Common` holds the error kinds, `Option`/`Result`/`Outcome`, blank strings, decimal rendering
  of numbers and `Reversed`.
- `Graph` holds nodes and neighbours, edge costs, walks and their costs, and reachability.
- `NodeValidation` and `ValidationProperties` model `ValidateNodes`, `CheckNeighborNodes` and
  `AddEdge`. `Validation` is a reference definition of the first error reported, and the
  methods are proved equal to it. A list passes exactly when it is well formed and contains
  the primary id.
- `FastestPaths` holds the fastest-path table, its invariants, and the facts about the
  predecessor links that the engine relies on.
- `Dijkstra` holds `CreateFastestPathTable`, `FindLowestCostNodeId`, `UpdateNeighborCosts`, the
  main loop `VisitNodes`, `FindShortestPaths`, `FindPath` and `FindShortestPath`.
  - The table's rows are a sequence that the methods reassign.
  - `rowsById` is an index into that sequence.
  - The result of `FindShortestPath` is proved to satisfy `AnswersQuery`:
    - when start equals end, the answer is that single id;
    - any path returned is a walk of the graph read backwards;
    - with non-negative costs, that walk is a cheapest one;
    - with non-negative costs, "no path" happens exactly when the start cannot reach the end
      at a cost below `int.MaxValue`.
- `Mazes` holds the maze value types and the pure helpers (`CalculateNextX`, `CalculateNextY`,
  `FindOppositeDirection`, `PickNeighborCell`). It also has grid positions and steps, and the
  grid invariants (passages are reciprocal, passage paths).
- `MazeGeneration` models `InitializeGrid`, `CarvePassage` and `GenerateMaze`. The grid is an
  `array2<MazeCell>` that the methods update in place.
- `MazeGraph` models `ValidateMaze`, `InitializeNodes`, `ConvertToGraph` and `FindSolution`.
  - `Conversion` is the reference definition of what `ConvertToGraph` returns or reports.
- `MazeSolving` covers what the services promise together: a generated maze is connected,
  and solving it between any two cells yields a path.

## Model

| member | source | states |
|---|---|---|
| Common.NatToStringInjective | Wolverine.WebServices/Wolverine.Services/Mazes/MazeService.cs:136-137 | the decimal rendering of a cell number (`ToString`) is injective, so distinct numbers give distinct ids |
| Common.NatToStringNotBlank | Wolverine.WebServices/Wolverine.Services/Mazes/MazeService.cs:137 | a rendered cell number is never blank |
| Graph.EdgeCostOfNode | Wolverine.WebServices/Wolverine.Services/GraphTheory/DijkstraService.cs:220-242 | with distinct node ids, the cost of the edge from a node to `to` is the cost its own neighbour list declares for `to` |
| NodeValidation.AddEdge | Wolverine.WebServices/Wolverine.Services/GraphTheory/DijkstraService.cs:172-181 | records `edges[neighbor][node] = cost`, keeps every earlier entry and adds nothing else |
| NodeValidation.CheckNeighborNodes | Wolverine.WebServices/Wolverine.Services/GraphTheory/DijkstraService.cs:142-170 | reports the node's first duplicate neighbour id, or its first edge whose cost differs from the reverse edge an earlier node declared; on success the edge dictionary describes exactly the edges of the nodes seen so far |
| NodeValidation.ValidateNodes | Wolverine.WebServices/Wolverine.Services/GraphTheory/DijkstraService.cs:113-140 | reports exactly the first violation in list order (blank id with its position, duplicate id, neighbour errors), and otherwise reports a missing primary id |
| ValidationProperties.UnitValidation | Wolverine.WebServices/Wolverine.Services/GraphTheory/DijkstraService.cs:113-170 | for non-blank distinct ids and cost-1 edges, reverse costs cannot disagree: a list that is not well formed fails with a repeated neighbour id, and a well-formed list without the primary id fails with not found |
| ValidationProperties.ValidationPassIff | Wolverine.WebServices/Wolverine.Services/GraphTheory/DijkstraService.cs:113-181 | validation passes if and only if the ids are non-blank and distinct, no node repeats a neighbour, reciprocal edges agree on cost, and the primary id is present |
| Dijkstra.CreateFastestPathTable | Wolverine.WebServices/Wolverine.Services/GraphTheory/DijkstraService.cs:183-200 | one row per node, in node order; cost 0 for the primary node and `int.MaxValue` for every other node; no links |
| Dijkstra.InitialTableInvariants | Wolverine.WebServices/Wolverine.Services/GraphTheory/DijkstraService.cs:183-200 | the initial table satisfies the loop's invariants: costs are bounded, only the primary row is reached, and the primary row is fixed |
| Dijkstra.FindLowestCostNodeId | Wolverine.WebServices/Wolverine.Services/GraphTheory/DijkstraService.cs:203-218 | returns null exactly when no unvisited row has a cost below `int.MaxValue`; otherwise returns an unvisited row of least cost, the first one on ties |
| Dijkstra.RelaxStep | Wolverine.WebServices/Wolverine.Services/GraphTheory/DijkstraService.cs:226-240 | one neighbour's update lowers its row's cost to `cost + lowest` and links it to the node when that is cheaper, and changes nothing else |
| Dijkstra.UpdateNeighborCosts | Wolverine.WebServices/Wolverine.Services/GraphTheory/DijkstraService.cs:220-242 | fails with a missing key exactly when an unvisited neighbour id is not a node id; otherwise every unvisited neighbour has been relaxed in order |
| Dijkstra.StepSettled | Wolverine.WebServices/Wolverine.Services/GraphTheory/DijkstraService.cs:92-104 | with non-negative costs, visiting the selected node keeps visited rows no dearer than unvisited ones and keeps every visited node's edges relaxed |
| Dijkstra.LoopStep | Wolverine.WebServices/Wolverine.Services/GraphTheory/DijkstraService.cs:92-104 | one iteration of the main loop preserves the loop invariant |
| Dijkstra.FinishLowest | Wolverine.WebServices/Wolverine.Services/GraphTheory/DijkstraService.cs:92-106 | with non-negative costs, once the loop ends no walk from the primary node to a node is cheaper than that node's row |
| Dijkstra.MissingNeighborDangles | Wolverine.WebServices/Wolverine.Services/GraphTheory/DijkstraService.cs:102 | a neighbour id that is missing from the lookup is a dangling reference of the node list |
| Dijkstra.VisitNodes | Wolverine.WebServices/Wolverine.Services/GraphTheory/DijkstraService.cs:87-106 | the main loop fails only on a dangling neighbour id, never on a closed graph; on success the table has one bounded row per node, acyclic links along existing edges and, with non-negative costs, the lowest costs |
| Dijkstra.FindShortestPaths | Wolverine.WebServices/Wolverine.Services/GraphTheory/DijkstraService.cs:82-107 | a blank primary id is a validation error; a validation failure is reported as is; a valid closed list always yields a table with the properties of VisitNodes |
| Dijkstra.FindPath | Wolverine.WebServices/Wolverine.Services/GraphTheory/DijkstraService.cs:244-263 | a returned path follows the links from start to end; null means the link chain from start dead-ends before the end; start == end gives `[start]` |
| Dijkstra.FindShortestPath | Wolverine.WebServices/Wolverine.Services/GraphTheory/DijkstraService.cs:61-80 | blank start or end ids, an unknown start id and validation failures are reported in the source's order; once validation passes, the only failure is a missing key for a dangling neighbour id, and a closed graph always gets an answer; otherwise the answer satisfies AnswersQuery (reversed walk, optimal with non-negative costs, null exactly when the end is unreachable below `int.MaxValue`) |
| Dijkstra.PathProperties | Wolverine.WebServices/Wolverine.Services/GraphTheory/DijkstraService.cs:244-263 | a path or dead end produced by FindPath over a finished table answers the shortest-path query |
| FastestPaths.WalkLowerBound | Wolverine.WebServices/Wolverine.Services/GraphTheory/DijkstraService.cs:92-104 | with non-negative costs, no walk from the primary node is cheaper than the final cost of the row it ends at |
| FastestPaths.AtMostOneUnvisited | Wolverine.WebServices/Wolverine.Services/GraphTheory/DijkstraService.cs:92 | the loop bound `visited < Count - 1` leaves at most one node unvisited |
| FastestPaths.LinkPathIsWalk | Wolverine.WebServices/Wolverine.Services/GraphTheory/DijkstraService.cs:244-263 | a path that follows the table's links, read backwards, is a walk of the graph whose cost is the start row's cost |
| FastestPaths.DeadEndStart | Wolverine.WebServices/Wolverine.Services/GraphTheory/DijkstraService.cs:244-263 | FindPath returns null only when the start row itself has no link and is unreached |
| Mazes.OppositeInvolution | Wolverine.WebServices/Wolverine.Services/Mazes/MazeService.cs:208-235 | the opposite of the opposite direction is the direction itself, and no direction is its own opposite |
| Mazes.StepBack | Wolverine.WebServices/Wolverine.Services/Mazes/MazeService.cs:172-235 | CalculateNextX/Y move to an adjacent cell, and stepping in the opposite direction returns to the start |
| Mazes.StepTo | Wolverine.WebServices/Wolverine.Services/Mazes/MazeService.cs:172-206 | every adjacent cell is reached by exactly one direction |
| Mazes.StepInjective | Wolverine.WebServices/Wolverine.Services/Mazes/MazeService.cs:172-206 | different directions lead to different cells |
| Mazes.PositionsCard | Wolverine.WebServices/Wolverine.Services/Mazes/MazeService.cs:128-142 | a height by width grid has height * width positions |
| Mazes.LinkedBack | Wolverine.WebServices/Wolverine.Services/Mazes/MazeService.cs:164-165 | in a grid whose passages are reciprocal, a passage from a to b implies one from b to a |
| Mazes.ReversedPassagePath | Wolverine.WebServices/Wolverine.Services/Mazes/MazeService.cs:164-165 | in such a grid, a path through passages can be walked backwards |
| MazeGeneration.FlattenAt | Wolverine.WebServices/Wolverine.Services/Mazes/MazeService.cs:78 | flattening the grid (`Cast<MazeCell>`) is row-major: cell (h, w) lands at index h * width + w |
| MazeGeneration.InitializeRow | Wolverine.WebServices/Wolverine.Services/Mazes/MazeService.cs:134-138 | fills row h with cells numbered by `h * height + w` and no passages, and leaves every other row alone |
| MazeGeneration.InitializeGrid | Wolverine.WebServices/Wolverine.Services/Mazes/MazeService.cs:128-142 | a fresh height by width grid whose cell (h, w) has id `h * height + w` and no passages |
| MazeGeneration.CellIdsUnique | Wolverine.WebServices/Wolverine.Services/Mazes/MazeService.cs:136 | the ids `h * height + w` are pairwise distinct if and only if width <= height or height <= 1 |
| MazeGeneration.TwoByThreeCollision | Wolverine.WebServices/Wolverine.Services/Mazes/MazeService.cs:136 | in a 2 by 3 grid, cells (0, 2) and (1, 0) both get id "2" |
| MazeGeneration.CarveOne | Wolverine.WebServices/Wolverine.Services/Mazes/MazeService.cs:162-165 | carving into an empty neighbour adds the direction and its opposite, keeps passages reciprocal and unrepeated, and removes both cells from the empty set |
| MazeGeneration.CarveShrinks | Wolverine.WebServices/Wolverine.Services/Mazes/MazeService.cs:162-166 | each carve strictly shrinks the set of empty cells, which is why the recursion ends |
| MazeGeneration.CarvePassage | Wolverine.WebServices/Wolverine.Services/Mazes/MazeService.cs:144-170 | the recursive carve from a cell only adds passages, keeps them reciprocal and unrepeated, touches only its start and cells that had no passage, leaves every grid neighbour of its start and of each newly filled cell with a passage, and makes each newly filled cell reachable from its start through passages |
| MazeGeneration.GenerateMaze | Wolverine.WebServices/Wolverine.Services/Mazes/MazeService.cs:65-80 | heights and widths outside 1..100 are range errors (height checked first); otherwise the maze has the requested size, height * width cells, and is the row-major flattening of a fully carved grid |
| MazeGeneration.GeneratedFromEmpty | Wolverine.WebServices/Wolverine.Services/Mazes/MazeService.cs:70-79 | carving from (0, 0) over a fresh grid gives a maze numbered as InitializeGrid numbers it, with reciprocal unrepeated passages, in which every cell is reachable from (0, 0) and, beyond a single cell, every cell has a passage |
| MazeGraph.MazeRules | Wolverine.WebServices/Wolverine.Services/Mazes/MazeValidator.cs:17-19 | the validator passes if and only if height > 0, width > 0 and there is at least one cell; otherwise it names the first failing property |
| MazeGraph.CellIdErrorNoneIff | Wolverine.WebServices/Wolverine.Services/Mazes/MazeService.cs:247-260 | the cell scan finds no error if and only if every id is non-blank and all ids are distinct |
| MazeGraph.MazeValidationPassIff | Wolverine.WebServices/Wolverine.Services/Mazes/MazeService.cs:237-261 | ValidateMaze passes if and only if there are exactly height * width cells with non-blank, distinct ids |
| MazeGraph.ValidateMaze | Wolverine.WebServices/Wolverine.Services/Mazes/MazeService.cs:237-261 | reports an invalid dimension first, then the first blank id (with its position) or repeated id in cell order |
| MazeGraph.InitializeNodes | Wolverine.WebServices/Wolverine.Services/Mazes/MazeService.cs:263-273 | the dictionary's keys are exactly the cell ids, each mapped to a node with that id and no neighbours |
| MazeGraph.NeighborCellIsStep | Wolverine.WebServices/Wolverine.Services/Mazes/MazeService.cs:96-99 | the north/south/east/west cell chosen for a direction is the cell one step that way when it is on the grid, and null otherwise |
| MazeGraph.AdjacentCells | Wolverine.WebServices/Wolverine.Services/Mazes/MazeService.cs:96-99 | the cells above, below, right and left, null past the edge: picking one by direction gives the cell one step that way when it is on the grid, and null otherwise |
| MazeGraph.PassageNeighborsSpec | Wolverine.WebServices/Wolverine.Services/Mazes/MazeService.cs:101-109 | a cell's neighbours are exactly the cost-1 entries for its passages that lead onto the grid, and there are no more of them than passages |
| MazeGraph.AddPassageNeighbors | Wolverine.WebServices/Wolverine.Services/Mazes/MazeService.cs:93-109 | the cell's node receives the neighbours of its passages, in passage order, and every other node is unchanged |
| MazeGraph.ConvertedNodes | Wolverine.WebServices/Wolverine.Services/Mazes/MazeService.cs:113 | one node per cell, in cell order, with the cell's id |
| MazeGraph.BuildNodes | Wolverine.WebServices/Wolverine.Services/Mazes/MazeService.cs:87-113 | for a maze laid out row by row with distinct ids, the dictionary's values after the passage loops are exactly the converted nodes, in cell order |
| MazeGraph.ConvertToGraph | Wolverine.WebServices/Wolverine.Services/Mazes/MazeService.cs:82-114 | returns exactly Conversion: the validator's error, then ValidateMaze's error, otherwise the converted node of each cell in cell order |
| MazeGraph.ConversionOkIff | Wolverine.WebServices/Wolverine.Services/Mazes/MazeService.cs:82-114 | conversion succeeds if and only if height and width are positive, there are height * width cells, and the ids are non-blank and distinct |
| MazeGraph.ConvertedEdgeCost | Wolverine.WebServices/Wolverine.Services/Mazes/MazeService.cs:101-109 | the graph has an edge from a cell to `to` exactly when a passage of the cell leads onto the grid into a cell with id `to`, and that edge costs 1 |
| MazeGraph.ConvertedGraphShape | Wolverine.WebServices/Wolverine.Services/Mazes/MazeService.cs:101-113 | every edge of the converted graph costs 1 and points at a node of the graph, so the graph is closed, has non-negative costs and has agreeing reciprocal costs |
| MazeGraph.ConvertedWellFormed | Wolverine.WebServices/Wolverine.Services/Mazes/MazeService.cs:82-114 | a successful conversion of a maze with no repeated passages passes the engine's node validation |
| MazeGraph.ConvertedValidation | Wolverine.WebServices/Wolverine.Services/GraphTheory/DijkstraService.cs:113-170 | on a converted maze, the engine's validation reports a repeated neighbour id whenever the graph is not well formed; on a well-formed graph, a primary id that is not a cell id is reported as not found |
| MazeGraph.FindSolution | Wolverine.WebServices/Wolverine.Services/Mazes/MazeService.cs:116-122 | a null request, a conversion error, a blank start, a blank end and an unknown start are reported in the source's order. With a known start and a non-blank end, a graph that is not well formed fails with a repeated neighbour id, and an unknown end fails with not found. A returned answer has start and end among the cell ids and solves the shortest-path query on the converted graph. A well-formed conversion with known start and end ids always gets an answer |
| MazeSolving.GeneratedConversion | Wolverine.WebServices/Wolverine.Services/Mazes/MazeService.cs:65-114 | a generated maze converts if and only if width <= height or height <= 1; otherwise conversion reports a duplicate cell id |
| MazeSolving.NumberedCollision | Wolverine.WebServices/Wolverine.Services/Mazes/MazeService.cs:136 | when width > height > 1, cells height and width of the flattened list share an id |
| MazeSolving.PathWalk | Wolverine.WebServices/Wolverine.Services/Mazes/MazeService.cs:101-109 | a path through passages is a walk of the converted graph whose cost is its number of steps |
| MazeSolving.GeneratedPath | Wolverine.WebServices/Tests/Wolverine.Tests.Unit/Mazes/MazeServiceTests.cs:214-236 | in a generated maze, any two cells are joined by a path through passages of at most 2 * height * width + 1 cells |
| MazeSolving.GeneratedMazeSolvable | Wolverine.WebServices/Tests/Wolverine.Tests.Unit/Mazes/MazeServiceTests.cs:214-236 | a generated maze that converts is connected: every cell reaches every other below `int.MaxValue`, so every answer to a query between two of its cells is a path |

## Left out

- Integer widths: costs, `cost + lowest` and `height * width` are unbounded integers. The
  source's 32-bit overflow is not modelled. `int.MaxValue` is kept as the "unreached" cost.
- Null lists, null nodes and null neighbour lists are not modelled; the only null modelled is
  the `FindSolution` request (an `Option`). The request validators of the engine are modelled
  as the blank-id checks they make on ids. The check that the `Nodes` list is not null is left
  out because the model has no null list.
- FluentValidation reports every failing rule together. The model reports the first failing
  rule only; error messages and message keys become constructors of an `Error` datatype.
- Exceptions become `Result`/`Outcome` values. Transport, dependency injection, controllers
  and logging are not part of this model.
- `List.Shuffle` is randomness. It is an oracle parameter `order` that gives, for each cell,
  the order in which the four directions are tried. Each cell is entered at most once, so one
  order per cell matches one shuffle per call.
- Aliasing: `Node` and `FastestPathRow` objects are values here. `rowsById` and `nodesById`
  are index lookups into the sequences, not shared references.
- `Dictionary.Values` has no documented order. The model takes insertion order, which is cell
  order.
- Dijkstra.FindShortestPath: requires that no node has a negative-cost edge to itself. The
  source makes such a node its own predecessor. `FindPath` then loops forever if the start's
  chain of links reaches that node before the end node. When the node is the end node, or is
  off that chain, the source still answers. The requires excludes every such graph, including
  the ones the source answers; the model says nothing about them. Graphs converted from mazes
  have only cost-1 edges and are never excluded.
- MazeGraph.InitializeNodes: requires distinct cell ids, because `Dictionary.Add` throws on a
  repeated key. Its only caller validates the ids first.
- Cell ids: `InitializeGrid` numbers cell (h, w) as `h * height + w`, and the model keeps that
  formula as written. Ids are unique exactly when width <= height or height <= 1. A generated
  maze that is wider than it is tall and has more than one row fails conversion with a
  duplicate cell id; MazeSolving.GeneratedConversion proves this.
- MazeSolving.GeneratedMazeSolvable: stated for mazes of at most 100 by 100 cells, the range
  `GenerateMaze` accepts, so that path costs stay below `int.MaxValue`.
- The unit tests' concrete vectors are not transcribed. Their general claims (unique ids,
  connected mazes) are stated as lemmas above.
