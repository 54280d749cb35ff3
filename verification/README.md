# Grid A* pathfinding with node arrays and goal bounding, in Dafny

This project models the search core of a Unity grid pathfinding demo. The
modelled parts are:

- The width × height `Grid` of `NodeRecord`s.
- The open and closed sets the engines plug in:
  - `SimpleUnorderedNodeList` (an unordered list);
  - `ClosedDictionary` (a closed set keyed by position);
  - `NodeRecordArray` (one slot per cell plus a priority heap of open records).
- The four engines:
  - `AStarPathfinding`: A* over an unordered open list and a list or dictionary closed set;
  - `NodeArrayAStarPathfinding`: the same loop over the node array;
  - `GoalBoundAStarPathfinding`: a preprocessing flood fill from every cell
    that records, for each of four first-move directions ("up", "down",
    "left", "right"), a bounding box of the cells best reached through it;
    its `Search` only relaxes neighbours that share a box with the goal;
  - `GoalBoundNodeArrayAStarPathfinding`: goal bounding on the node-array engine.

How the model is built:

- **Records.** Records live in an arena, a map from record id to
  `NodeRecord`. The grid, the lists, the dictionary and the array hold ids,
  so the C# reference semantics are explicit. A "fresh" `new NodeRecord` is
  a new id.
- **Engine state.** An engine is an immutable `Engine<S>` value. It holds
  the grid, the arena, the counters `Search` keeps (`NodesPerSearch`,
  `TotalProcessedNodes`, `MaxOpenNodes`, `InProgress`), the start and goal
  references, and the engine's sets `S`.
- **Operations.** Every operation is a function from the old state to the
  new one. C# exceptions become a `Failure` with the exception named
  (`DuplicateKey`, `KeyNotFound`, `NullReference`, `IndexOutOfRange`).
- **Costs.** Costs are integers in half-units: a straight move costs 2 and a
  diagonal move costs 3. The source's 1 and 1.5 are doubled.
- **Fresh records.** A fresh record's `gCost` of `int.MaxValue` becomes the
  constant `UnreachedCost` (2^32 half-units).
- **Heuristic.** The heuristic is a parameter. It is a function of the
  node's position and the goal's position, or `None` when the goal
  reference is null. It yields `None` (a null dereference) only when the
  goal is missing.
- **One call.** A `Search` call returns one of:
  - `Suspended`: the source returns `false`;
  - `NoPath`: `true` with a null solution;
  - `PathFound(path)`;
  - `Crashed(error)`.

  It also returns the engine it leaves and the number of nodes it processed.

Files:

- `common.dfy`: `Option`, `Result`, `Error`, `Coord`.
- `grid.dfy`: `Grids`.
- `node_record.dfy`: `NodeRecords`.
- `unordered_node_list.dfy`, `closed_dictionary.dfy`, `node_record_array.dfy`: the sets.
- `movement.dfy`: the octile move cost and the neighbour enumeration.
- `engine.dfy`: the state shared by every engine, `GetNeighbourList` and `CalculatePath`.
- `astar.dfy`, `node_array_astar.dfy`, `goal_bounds.dfy`, `goal_bound_astar.dfy`, `goal_bound_node_array_astar.dfy`: one module per engine, plus the goal-bounds table and its queries.

## Model

| member | source | states |
|---|---|---|
| Grids.GetGridObject | Assets/Scripts/IAJ.Unity/Grid/Grid.cs:84-89 | A read returns a value exactly when (x, y) is within the limits, and then it is that cell's content; otherwise it is the default (null) |
| Grids.SetGridObject | Assets/Scripts/IAJ.Unity/Grid/Grid.cs:56-65 | An in-range write stores the value at (x, y), leaves every other cell unchanged and raises one change event; an out-of-range write changes nothing |
| Grids.GetAll | Assets/Scripts/IAJ.Unity/Grid/Grid.cs:108-111 | The enumeration of the cells has width·height entries |
| Grids.GetAllPosition | Assets/Scripts/IAJ.Unity/Grid/Grid.cs:108-111 | The row-major enumeration of the 2-D array puts cell (x, y) at position x·height + y |
| Grids.GetAllIndex | Assets/Scripts/IAJ.Unity/Grid/Grid.cs:108-111 | Position i of the enumeration is cell (i / height, i % height), which lies within the grid |
| Grids.WithinGridLimitsIsAccessTest | Assets/Scripts/IAJ.Unity/Grid/Grid.cs:99-105 | `WithinGridLimits` holds exactly when a read yields a value and exactly when a write raises an event |
| Grids.GetAfterSet | Assets/Scripts/IAJ.Unity/Grid/Grid.cs:56-89 | Reading after a write gives the written value at the written cell and the old content everywhere else |
| Grids.New | Assets/Scripts/IAJ.Unity/Grid/Grid.cs:27-40 | The constructor yields a width×height grid whose cell (x, y) holds `createGridObject(x, y)`, called in x-outer order, with no change events |
| NodeRecords.CalculateFCost | Assets/Scripts/IAJ.Unity/Pathfinding/DataStructures/NodeRecord.cs:67-70 | Afterwards fCost = gCost + hCost, and nothing else in the record changes |
| NodeRecords.CompareTo | Assets/Scripts/IAJ.Unity/Pathfinding/DataStructures/NodeRecord.cs:72-76 | The comparison is a sign in {-1, 0, 1} |
| NodeRecords.CompareToOrdersByFCost | Assets/Scripts/IAJ.Unity/Pathfinding/DataStructures/NodeRecord.cs:72-76 | The comparison orders records by fCost alone: it is antisymmetric, zero exactly on equal fCost, negative exactly on smaller fCost, and transitive |
| NodeRecords.EqualsIsEquivalence | Assets/Scripts/IAJ.Unity/Pathfinding/DataStructures/NodeRecord.cs:79-83 | `Equals` is an equivalence relation that holds exactly when the coordinates agree |
| NodeRecords.EqualsIgnoresSearchState | Assets/Scripts/IAJ.Unity/Pathfinding/DataStructures/NodeRecord.cs:79-83 | `Equals` ignores costs, parent, status, index and walkability |
| NodeRecords.NewNodeRecord | Assets/Scripts/IAJ.Unity/Pathfinding/DataStructures/NodeRecord.cs:47-60 | A fresh record is walkable, has no parent, is Unvisited with no goal-bound edge, and has an unreached gCost, an hCost of 0 and fCost = gCost + hCost |
| NodeRecords.NewIndexedNodeRecord | Assets/Scripts/IAJ.Unity/Pathfinding/DataStructures/NodeRecord.cs:62-65 | The indexed constructor is the plain one with the given index |
| NodeRecords.Reset | Assets/Scripts/IAJ.Unity/Pathfinding/DataStructures/NodeRecord.cs:86-94 | A reset record is a fresh record at the same coordinates with the same index; only its walkability is kept |
| NodeRecords.ResetIdempotent | Assets/Scripts/IAJ.Unity/Pathfinding/DataStructures/NodeRecord.cs:86-94 | Resetting twice equals resetting once. The reset record equals the original and keeps its index and walkability |
| NodeRecords.SetStatus | Assets/Scripts/IAJ.Unity/Pathfinding/DataStructures/NodeRecord.cs:39 | Setting a status changes that one record's status and nothing else in the arena |
| NodeRecords.UpdateCosts | Assets/Scripts/IAJ.Unity/Pathfinding/AStarPathfinding.cs:172-175 | The cost update of every relaxation branch: the record gets the new g, h, f = g + h and parent; its status and edge, and every other record, are untouched |
| UnorderedNodeLists.Initialize | Assets/Scripts/IAJ.Unity/Pathfinding/DataStructures/SimpleUnorderedNodeList.cs:17-20 | The cleared list counts zero entries |
| UnorderedNodeLists.AddToOpen | Assets/Scripts/IAJ.Unity/Pathfinding/DataStructures/SimpleUnorderedNodeList.cs:47-51 | Adding to open appends the record, increments the count by one and marks the record Open |
| UnorderedNodeLists.AddToClosed | Assets/Scripts/IAJ.Unity/Pathfinding/DataStructures/SimpleUnorderedNodeList.cs:27-32 | Adding to closed appends the record, increments the count by one and marks the record Closed |
| UnorderedNodeLists.FirstMatch | Assets/Scripts/IAJ.Unity/Pathfinding/DataStructures/SimpleUnorderedNodeList.cs:58-69 | The scan finds the first entry at the given position, or reports none exactly when no entry is there |
| UnorderedNodeLists.Search | Assets/Scripts/IAJ.Unity/Pathfinding/DataStructures/SimpleUnorderedNodeList.cs:39-69 | Searching the open or the closed list finds a record exactly when some entry equals the argument. The record found is the first such entry, and it equals the argument |
| UnorderedNodeLists.Remove | Assets/Scripts/IAJ.Unity/Pathfinding/DataStructures/SimpleUnorderedNodeList.cs:34-56 | Removing drops exactly the first entry equal to the argument. It leaves the list as it was when there is none |
| UnorderedNodeLists.AggregateFrom | Assets/Scripts/IAJ.Unity/Pathfinding/DataStructures/SimpleUnorderedNodeList.cs:93-96 | The `Aggregate` fold keeps the last position holding the least fCost |
| UnorderedNodeLists.PeekBestIndex | Assets/Scripts/IAJ.Unity/Pathfinding/DataStructures/SimpleUnorderedNodeList.cs:93-96 | The chosen position holds a least fCost, and every later position holds a strictly greater one: ties go to the last |
| UnorderedNodeLists.PeekBest | Assets/Scripts/IAJ.Unity/Pathfinding/DataStructures/SimpleUnorderedNodeList.cs:93-96 | The best record is in the list and has an fCost no greater than any entry's |
| UnorderedNodeLists.GetBestAndRemove | Assets/Scripts/IAJ.Unity/Pathfinding/DataStructures/SimpleUnorderedNodeList.cs:86-91 | The record returned is `PeekBest`'s, and the list loses exactly one entry, the first one equal to it |
| UnorderedNodeLists.GetBestAndRemoveDropsBest | Assets/Scripts/IAJ.Unity/Pathfinding/DataStructures/SimpleUnorderedNodeList.cs:86-91 | On a list without repeated nodes, the best node's position is gone afterwards and every other position is still present |
| UnorderedNodeLists.Replace | Assets/Scripts/IAJ.Unity/Pathfinding/DataStructures/SimpleUnorderedNodeList.cs:76-84 | The replaced record takes the other's parent and costs and keeps its own status and edge. Every other record is unchanged |
| UnorderedNodeLists.AddSearchRemove | Assets/Scripts/IAJ.Unity/Pathfinding/DataStructures/SimpleUnorderedNodeList.cs:39-56 | Round trip: after adding a record whose position the list lacks, a search finds exactly that record, and removing it gives back the original list |
| UnorderedNodeLists.FirstMatchOfUnique | Assets/Scripts/IAJ.Unity/Pathfinding/DataStructures/SimpleUnorderedNodeList.cs:58-69 | In a list without repeated nodes, searching for an entry's position finds that entry |
| ClosedDictionaries.Initialize | Assets/Scripts/IAJ.Unity/Pathfinding/DataStructures/ClosedDictionary.cs:21-24 | The re-initialised dictionary is empty |
| ClosedDictionaries.AddToClosed | Assets/Scripts/IAJ.Unity/Pathfinding/DataStructures/ClosedDictionary.cs:27-31 | Adding throws DuplicateKey exactly when the record's position is already a key. Otherwise the record is stored under its position and marked Closed |
| ClosedDictionaries.RemoveFromClosed | Assets/Scripts/IAJ.Unity/Pathfinding/DataStructures/ClosedDictionary.cs:33-36 | Removing drops exactly the argument's position from the keys; the other entries are kept |
| ClosedDictionaries.SearchInClosed | Assets/Scripts/IAJ.Unity/Pathfinding/DataStructures/ClosedDictionary.cs:38-44 | The lookup finds a record exactly when the position is a key. The record found is the one stored there, and in a consistent dictionary it equals the argument |
| ClosedDictionaries.All | Assets/Scripts/IAJ.Unity/Pathfinding/DataStructures/ClosedDictionary.cs:46-49 | `All` is exactly the set of stored values |
| ClosedDictionaries.AllOnePerPosition | Assets/Scripts/IAJ.Unity/Pathfinding/DataStructures/ClosedDictionary.cs:46-49 | In a consistent dictionary every stored record sits under its own position, so there are at most as many records as keys |
| ClosedDictionaries.AddSearchRemove | Assets/Scripts/IAJ.Unity/Pathfinding/DataStructures/ClosedDictionary.cs:27-44 | Round trip: after adding, a lookup of any equal record finds the added one; after removing it a lookup finds nothing, and the dictionary is the original one |
| ClosedDictionaries.AddKeepsConsistent | Assets/Scripts/IAJ.Unity/Pathfinding/DataStructures/ClosedDictionary.cs:27-31 | A successful add keeps every entry stored under its own record's position |
| NodeRecordArrays.New | Assets/Scripts/IAJ.Unity/Pathfinding/DataStructures/NodeRecordArray.cs:12-23 | Slot i is a fresh record at node i's position carrying index i. The heap is empty and the records already stored are untouched |
| NodeRecordArrays.GetNodeRecord | Assets/Scripts/IAJ.Unity/Pathfinding/DataStructures/NodeRecordArray.cs:25-28 | The slot named by the argument's index is returned. When the array is coherent, that slot equals the argument and carries the same index |
| NodeRecordArrays.InitializeOpen | Assets/Scripts/IAJ.Unity/Pathfinding/DataStructures/NodeRecordArray.cs:30-40 | The heap is emptied and every walkable slot becomes Unvisited; nothing else changes |
| NodeRecordArrays.InitializeClosed | Assets/Scripts/IAJ.Unity/Pathfinding/DataStructures/NodeRecordArray.cs:42-45 | Closed-set initialisation changes nothing |
| NodeRecordArrays.AddToOpen | Assets/Scripts/IAJ.Unity/Pathfinding/DataStructures/NodeRecordArray.cs:47-51 | The record joins the heap once and is marked Open; the slots are unchanged |
| NodeRecordArrays.RemoveFromOpen | Assets/Scripts/IAJ.Unity/Pathfinding/DataStructures/NodeRecordArray.cs:87-91 | One copy of the record leaves the heap and it is marked Unvisited |
| NodeRecordArrays.AddToClosed | Assets/Scripts/IAJ.Unity/Pathfinding/DataStructures/NodeRecordArray.cs:53-56 | Closing only marks the record Closed |
| NodeRecordArrays.RemoveFromClosed | Assets/Scripts/IAJ.Unity/Pathfinding/DataStructures/NodeRecordArray.cs:93-96 | Un-closing only marks the record Unvisited |
| NodeRecordArrays.SearchInClosed | Assets/Scripts/IAJ.Unity/Pathfinding/DataStructures/NodeRecordArray.cs:64-70 | The closed search finds the argument's slot exactly when that slot is Closed |
| NodeRecordArrays.SearchInOpen | Assets/Scripts/IAJ.Unity/Pathfinding/DataStructures/NodeRecordArray.cs:58-62 | The open search finds a record exactly when some heap member equals the argument, and the record found is such a member |
| NodeRecordArrays.PeekBest | Assets/Scripts/IAJ.Unity/Pathfinding/DataStructures/NodeRecordArray.cs:77-80 | The best member is on the heap and has the least fCost of all members |
| NodeRecordArrays.GetBestAndRemove | Assets/Scripts/IAJ.Unity/Pathfinding/DataStructures/NodeRecordArray.cs:72-75 | `PeekBest`'s member is taken off the heap once: the heap before is the heap after plus that member, and the count drops by one |
| NodeRecordArrays.ClosedAll | Assets/Scripts/IAJ.Unity/Pathfinding/DataStructures/NodeRecordArray.cs:103-106 | The closed enumeration holds exactly the Closed slots |
| NodeRecordArrays.MinExists | Assets/Scripts/IAJ.Unity/Pathfinding/DataStructures/NodeRecordArray.cs:72-80 | A non-empty heap has a member of least fCost, so the heap's choice is always defined |
| NodeRecordArrays.SearchInClosedIffClosed | Assets/Scripts/IAJ.Unity/Pathfinding/DataStructures/NodeRecordArray.cs:64-70 | For a slot of a coherent array, the closed search and the closed enumeration both agree with the slot's Closed status |
| NodeRecordArrays.CoherentGrown | Assets/Scripts/IAJ.Unity/Pathfinding/DataStructures/NodeRecordArray.cs:25-28 | The array stays coherent (every index names the slot of its own position) when records are only added as copies of existing positions and indices |
| Movement.CalculateDistanceCost | Assets/Scripts/IAJ.Unity/Pathfinding/AStarPathfinding.cs:206-227 | The cost of the loop is the octile distance: three half-units per diagonal step while both axes differ, two per remaining straight step |
| Movement.DistanceCostIsMetric | Assets/Scripts/IAJ.Unity/Pathfinding/AStarPathfinding.cs:206-227 | The move cost is a metric: zero exactly on equal cells, symmetric, and obeying the triangle inequality |
| Movement.NeighbourStepCost | Assets/Scripts/IAJ.Unity/Pathfinding/AStarPathfinding.cs:16-17 | One king move costs `MOVE_STRAIGHT_COST` when straight and `MOVE_DIAGONAL_COST` when diagonal |
| Movement.DistanceCostBounds | Assets/Scripts/IAJ.Unity/Pathfinding/AStarPathfinding.cs:206-227 | The cost lies between 2 and 3 half-units per king move needed |
| Movement.NeighbourCoords | Assets/Scripts/IAJ.Unity/Pathfinding/AStarPathfinding.cs:230-266 | The neighbour enumeration visits at most eight cells |
| Movement.NeighbourCoordsExact | Assets/Scripts/IAJ.Unity/Pathfinding/AStarPathfinding.cs:230-266 | From an in-bounds cell, the enumeration lists exactly the in-bounds cells one king move away, each once |
| Movement.NeighbourCoordsDistinct | Assets/Scripts/IAJ.Unity/Pathfinding/AStarPathfinding.cs:230-266 | The enumeration never lists a cell twice |
| Movement.InteriorNeighbours | Assets/Scripts/IAJ.Unity/Pathfinding/AStarPathfinding.cs:230-266 | An interior cell gets all eight neighbours: the left column (level, down, up), then the right column (level, down, up), then the cell below, then the cell above |
| Engines.NewCells | Assets/Scripts/IAJ.Unity/Grid/Grid.cs:27-40 | A record grid built with a factory holds, at each cell, a distinct new record of that position, numbered x·height + y |
| Engines.WalkableCells | Assets/Scripts/IAJ.Unity/Pathfinding/AStarPathfinding.cs:230-266 | The records kept are exactly the walkable records at the given cells |
| Engines.GetNeighbourList | Assets/Scripts/IAJ.Unity/Pathfinding/AStarPathfinding.cs:230-266 | The neighbour list has at most eight walkable grid records, each one king move from the current record |
| Engines.GetNeighbourListExact | Assets/Scripts/IAJ.Unity/Pathfinding/AStarPathfinding.cs:230-266 | The neighbour list holds exactly the walkable grid records one king move away, with no node listed twice |
| Engines.PathFrom | Assets/Scripts/IAJ.Unity/Pathfinding/AStarPathfinding.cs:275-291 | A finished walk is a parent chain from a record equal to the start down to the node. An unfinished one ends in a null dereference or on the fuel bound |
| Engines.CalculatePath | Assets/Scripts/IAJ.Unity/Pathfinding/AStarPathfinding.cs:275-291 | A path returned is the parent chain from the start node to the end node |
| Engines.PathFromComplete | Assets/Scripts/IAJ.Unity/Pathfinding/AStarPathfinding.cs:275-291 | Completeness: any parent chain to the node, within the fuel, is what the walk returns, so the path is determined by the parent links |
| AStar.InitializeClosed | Assets/Scripts/IAJ.Unity/Pathfinding/DataStructures/ClosedDictionary.cs:21-24 | Either closed-set backend re-initialises to an empty, well-formed set of the same kind |
| AStar.SearchClosed | Assets/Scripts/IAJ.Unity/Pathfinding/DataStructures/SimpleUnorderedNodeList.cs:39-45 | For either backend, the closed search finds a record exactly when the closed set holds the position, and the record found lies there |
| AStar.AddClosed | Assets/Scripts/IAJ.Unity/Pathfinding/DataStructures/ClosedDictionary.cs:27-31 | Closing fails only for the dictionary backend, and only on a position already held. On success the record is marked Closed |
| AStar.AddClosedSpec | Assets/Scripts/IAJ.Unity/Pathfinding/DataStructures/SimpleUnorderedNodeList.cs:27-32 | Adding a record whose position the closed set lacks succeeds in both backends. The set stays well formed and afterwards holds exactly the old positions plus the new one |
| AStar.RemoveClosedSpec | Assets/Scripts/IAJ.Unity/Pathfinding/DataStructures/SimpleUnorderedNodeList.cs:34-37 | Removing from either backend drops exactly the record's position and keeps the set well formed |
| AStar.Relax | Assets/Scripts/IAJ.Unity/Pathfinding/AStarPathfinding.cs:160-202 | Relaxation changes neither the grid's shape, the budget nor the counters; it writes the neighbour back into its cell |
| AStar.RelaxWf | Assets/Scripts/IAJ.Unity/Pathfinding/AStarPathfinding.cs:160-202 | Relaxation keeps the engine invariant: no position in both sets, none twice in a set, parent links stored, the grid holding a record of each cell |
| AStar.RelaxBound | Assets/Scripts/IAJ.Unity/Pathfinding/AStarPathfinding.cs:160-202 | Whatever branch runs, afterwards the open list or the closed set holds the neighbour's position at an fCost no greater than the new path's |
| AStar.RelaxReopenOutcome | Assets/Scripts/IAJ.Unity/Pathfinding/AStarPathfinding.cs:168-177 | A closed record no cheaper than the new path leaves the closed set and joins the open list with the new costs and parent |
| AStar.RelaxUpdateOutcome | Assets/Scripts/IAJ.Unity/Pathfinding/AStarPathfinding.cs:180-188 | An open record no cheaper than the new path takes the new costs and parent in place; the lists are unchanged |
| AStar.RelaxOpenNewOutcome | Assets/Scripts/IAJ.Unity/Pathfinding/AStarPathfinding.cs:191-199 | A position in neither set: the neighbour itself takes the new costs and parent and is appended to the open list |
| AStar.RelaxKeepOutcome | Assets/Scripts/IAJ.Unity/Pathfinding/AStarPathfinding.cs:167-202 | When a record at least as good is already held, only the grid cell is rewritten |
| AStar.ProcessChildNode | Assets/Scripts/IAJ.Unity/Pathfinding/AStarPathfinding.cs:156-203 | The call throws exactly when the heuristic cannot be evaluated, which means the goal is null. Otherwise it relaxes with H(neighbour, goal) and keeps the invariant |
| AStar.Keep | Assets/Scripts/IAJ.Unity/Pathfinding/GoalBoundAStarPathfinding.cs:249 | The plain engine keeps every neighbour. The goal-bound filter throws on a null start or goal, and otherwise asks whether the neighbour and the goal share a box of the start. The source's `isWalkable` conjunct always holds, since the neighbour list holds only walkable cells |
| AStar.KeptCount | Assets/Scripts/IAJ.Unity/Pathfinding/AStarPathfinding.cs:113-144 | The neighbours counted are at most the neighbour list, and all of it when nothing is filtered |
| AStar.RelaxCounted | Assets/Scripts/IAJ.Unity/Pathfinding/AStarPathfinding.cs:134-141 | One counted relaxation keeps the invariant and the frame, never lowers `MaxOpenNodes` and leaves it at least the open count, and throws only on a null goal |
| AStar.RelaxAll | Assets/Scripts/IAJ.Unity/Pathfinding/AStarPathfinding.cs:113-144 | The neighbour loop counts exactly the neighbours the filter keeps. It keeps the invariant and the frame, and ends in an exception only of the kinds the heuristic or the filter raise |
| AStar.PopWf | Assets/Scripts/IAJ.Unity/Pathfinding/AStarPathfinding.cs:95 | Taking the best record off the open list keeps the invariant, and its position is then in neither set |
| AStar.SearchRound | Assets/Scripts/IAJ.Unity/Pathfinding/AStarPathfinding.cs:88-144 | One loop round either ends the call with the `Search` guarantees, or hands on a well-formed engine and a count raised by at most eight. A round that counted nothing shrank the open list |
| AStar.FinishAtGoal | Assets/Scripts/IAJ.Unity/Pathfinding/AStarPathfinding.cs:98-103 | Reaching the goal returns its parent chain from the start and clears `InProgress`, without adding to `TotalProcessedNodes` |
| AStar.Expand | Assets/Scripts/IAJ.Unity/Pathfinding/AStarPathfinding.cs:105-144 | Expanding closes the record, writes it into its cell and relaxes its neighbours, with the same guarantees as a round |
| AStar.Close | Assets/Scripts/IAJ.Unity/Pathfinding/AStarPathfinding.cs:105-109 | A record whose position is in neither set is closed without exception. It is marked Closed, and the invariant and the open list are kept |
| AStar.SearchFrom | Assets/Scripts/IAJ.Unity/Pathfinding/AStarPathfinding.cs:86-153 | The loop's count never falls, and overshoots the budget by at most one expansion's eight neighbours. The result satisfies the `Search` guarantees. The budget is a `uint` |
| AStar.SearchFromStep | Assets/Scripts/IAJ.Unity/Pathfinding/AStarPathfinding.cs:86-146 | Within budget and with open records, the loop is one round followed, unless the round ended the call, by the loop from where the round left off |
| AStar.Search | Assets/Scripts/IAJ.Unity/Pathfinding/AStarPathfinding.cs:79-154 | The return keeps the invariant. Every exit count is at most the `uint` budget plus eight. It is suspended only past the budget, adding the count to `TotalProcessedNodes` modulo 2^32. "No path" comes with an empty open list. A path found runs from the start to a node equal to the goal and clears `InProgress`. The only exceptions are a null goal and an unfinished parent walk |
| AStar.InitialRecord | Assets/Scripts/IAJ.Unity/Pathfinding/AStarPathfinding.cs:67-74 | The search's first record is a fresh, walkable, parentless Open record at the start's position and index, with g = 0 and f = h |
| AStar.InitializePathfindingSearch | Assets/Scripts/IAJ.Unity/Pathfinding/AStarPathfinding.cs:48-78 | The start and goal references are set exactly when the coordinates are on the grid. If either is missing, nothing else changes. Otherwise the search is in progress, the counters are zeroed, the closed set is empty and the open list holds just the fresh start record |
| AStar.NewAStar | Assets/Scripts/IAJ.Unity/Pathfinding/AStarPathfinding.cs:38-47 | The constructor yields a well-formed engine: a grid of fresh records, empty sets of the chosen backend, a budget of 100, not in progress, with no start or goal |
| AStar.SearchCountFitsUInt | Assets/Scripts/IAJ.Unity/Pathfinding/AStarPathfinding.cs:79-154 | For budgets more than eight below 2^32, the `uint` counter `ProcessedNodes` never wraps: the exit count fits in a `uint`, and the source's loop test on the wrapped counter fails exactly when the model suspends |
| AStar.SearchOnEmptyOpen | Assets/Scripts/IAJ.Unity/Pathfinding/AStarPathfinding.cs:88-92 | With an empty open list, `Search` returns "no path" at once and changes nothing |
| AStar.SearchToStartCell | Assets/Scripts/IAJ.Unity/Pathfinding/AStarPathfinding.cs:48-103 | Searching from an on-grid cell to itself finds the one-record path in the first round |
| NodeArrayAStar.Relax | Assets/Scripts/IAJ.Unity/Pathfinding/NodeArrayAStarPathfinding.cs:30-73 | The node-array relaxation changes neither the grid's shape, the slots nor the counters; it writes the neighbour back into its cell |
| NodeArrayAStar.RelaxStored | Assets/Scripts/IAJ.Unity/Pathfinding/NodeArrayAStarPathfinding.cs:30-73 | Relaxation keeps every record, heap member and parent link stored, and keeps the array coherent when it was |
| NodeArrayAStar.RelaxBound | Assets/Scripts/IAJ.Unity/Pathfinding/NodeArrayAStarPathfinding.cs:30-73 | Whatever branch runs, afterwards a heap member equal to the neighbour, or its Closed slot, has an fCost no greater than the new path's. The one exception is an Open slot with no heap member equal to it |
| NodeArrayAStar.RelaxReopenOutcome | Assets/Scripts/IAJ.Unity/Pathfinding/NodeArrayAStarPathfinding.cs:39-48 | A Closed slot no cheaper than the new path goes back on the heap, Open, with the new costs and parent |
| NodeArrayAStar.RelaxUpdateOutcome | Assets/Scripts/IAJ.Unity/Pathfinding/NodeArrayAStarPathfinding.cs:51-58 | A heap member equal to the neighbour and no cheaper than the new path takes the new costs and parent; the heap is unchanged |
| NodeArrayAStar.RelaxOpenSlotOutcome | Assets/Scripts/IAJ.Unity/Pathfinding/NodeArrayAStarPathfinding.cs:61-70 | Otherwise an Unvisited slot joins the heap, Open, with the new costs and parent |
| NodeArrayAStar.RelaxKeepOutcome | Assets/Scripts/IAJ.Unity/Pathfinding/NodeArrayAStarPathfinding.cs:39-73 | In the remaining case the heap and the records are unchanged |
| NodeArrayAStar.OutOfRangeIncoherent | Assets/Scripts/IAJ.Unity/Pathfinding/DataStructures/NodeRecordArray.cs:25-28 | A record whose index lies outside the array betrays an incoherent engine |
| NodeArrayAStar.ProcessChildNode | Assets/Scripts/IAJ.Unity/Pathfinding/NodeArrayAStarPathfinding.cs:28-75 | The call throws exactly when the heuristic needs a null goal (NullReference) or the neighbour's index is outside the array (IndexOutOfRange). The latter only happens on an incoherent engine. Otherwise it relaxes and keeps the records stored |
| NodeArrayAStar.RelaxCounted | Assets/Scripts/IAJ.Unity/Pathfinding/AStarPathfinding.cs:134-141 | One counted relaxation on the node array keeps the records stored and the frame, and never lowers `MaxOpenNodes` |
| NodeArrayAStar.RelaxAll | Assets/Scripts/IAJ.Unity/Pathfinding/AStarPathfinding.cs:113-144 | The node-array neighbour loop counts exactly the neighbours the filter keeps, and ends only in the exceptions a relaxation or the filter can raise |
| NodeArrayAStar.SearchRound | Assets/Scripts/IAJ.Unity/Pathfinding/AStarPathfinding.cs:88-144 | One round on the heap either ends the call with the `Search` guarantees or hands on the engine with a count raised by at most eight |
| NodeArrayAStar.FinishAtGoal | Assets/Scripts/IAJ.Unity/Pathfinding/AStarPathfinding.cs:98-103 | Reaching the goal returns its parent chain and clears `InProgress` |
| NodeArrayAStar.Expand | Assets/Scripts/IAJ.Unity/Pathfinding/AStarPathfinding.cs:105-144 | Expanding a popped slot marks it Closed, writes it into its cell and relaxes its neighbours |
| NodeArrayAStar.Close | Assets/Scripts/IAJ.Unity/Pathfinding/AStarPathfinding.cs:105-109 | Closing on the node array marks the record Closed, writes it into its cell and keeps the heap |
| NodeArrayAStar.SearchFrom | Assets/Scripts/IAJ.Unity/Pathfinding/AStarPathfinding.cs:86-153 | The node-array loop meets the `Search` guarantees and overshoots the `uint` budget by at most eight |
| NodeArrayAStar.Search | Assets/Scripts/IAJ.Unity/Pathfinding/AStarPathfinding.cs:79-154 | The inherited loop on the node array gives the `Search` guarantees, every exit count at most the `uint` budget plus eight. A coherent engine stays coherent, and its only exceptions are a null goal and an unfinished parent walk |
| NodeArrayAStar.InitializePathfindingSearch | Assets/Scripts/IAJ.Unity/Pathfinding/AStarPathfinding.cs:48-78 | Initialisation on the node array: the open-set reset clears the heap and marks the walkable slots Unvisited. Then the fresh start record, at the start's position and index, is the heap's one member, and coherence is kept |
| NodeArrayAStar.NewNodeArrayAStarAsWritten | Assets/Scripts/IAJ.Unity/Pathfinding/NodeArrayAStarPathfinding.cs:12-25 | The constructor with the shared static counter: cell (x, y) gets index counter + x·height + y, and the counter advances by width·height. The engine is coherent exactly when the counter started at 0 or the grid is empty |
| NodeArrayAStar.AssembledCoherence | Assets/Scripts/IAJ.Unity/Pathfinding/NodeArrayAStarPathfinding.cs:17-21 | The array built over the grid's records is coherent exactly when the counter started at 0 or the grid is empty |
| NodeArrayAStar.ConstructedIncoherent | Assets/Scripts/IAJ.Unity/Pathfinding/NodeArrayAStarPathfinding.cs:17-21 | With the counter past 0 on a non-empty grid, the last cell's index lies at or past the end of the array |
| NodeArrayAStar.NewNodeArrayAStar | Assets/Scripts/IAJ.Unity/Pathfinding/NodeArrayAStarPathfinding.cs:15-25 | The constructor with the counter fresh for the instance yields a well-formed, coherent engine |
| NodeArrayAStar.SecondInstanceOutOfRange | Assets/Scripts/IAJ.Unity/Pathfinding/NodeArrayAStarPathfinding.cs:12-17 | The second 1×2 instance: a search from (0, 0) to (0, 1) is incoherent from the start, and `Search` ends by throwing IndexOutOfRange, because processing the goal neighbour reads slot 3 of a two-slot array |
| NodeArrayAStar.StartRoundThrows | Assets/Scripts/IAJ.Unity/Pathfinding/AStarPathfinding.cs:79-154 | On a 1×2 grid whose goal record carries an index outside the array, the first round of a search from (0, 0) throws IndexOutOfRange |
| GoalBounds.Grow | Assets/Scripts/IAJ.Unity/Pathfinding/GoalBoundAStarPathfinding.cs:192-198 | The min/max update gives the least box enclosing the old one that contains the cell |
| GoalBounds.GrowCommutes | Assets/Scripts/IAJ.Unity/Pathfinding/GoalBoundAStarPathfinding.cs:192-198 | Growing is order-independent and idempotent, so the final box does not depend on the fill's visiting order |
| GoalBounds.DirectionName | Assets/Scripts/IAJ.Unity/Pathfinding/GoalBoundAStarPathfinding.cs:24-31 | An edge names one of the four boxes exactly when it is not `None` |
| GoalBounds.DirectionNameInjective | Assets/Scripts/IAJ.Unity/Pathfinding/GoalBoundAStarPathfinding.cs:24-31 | Distinct edges name distinct boxes |
| GoalBounds.EmptySideBoxes | Assets/Scripts/IAJ.Unity/Pathfinding/GoalBoundAStarPathfinding.cs:101-118 | The list engine's starting boxes cover the four directions and contain no cell at all |
| GoalBounds.EmptySideBoxesGrowToNeighbour | Assets/Scripts/IAJ.Unity/Pathfinding/GoalBoundAStarPathfinding.cs:101-118 | Each empty starting box grows to exactly the adjacent cell on its side when that is the first cell it takes in |
| GoalBounds.PointBoxes | Assets/Scripts/IAJ.Unity/Pathfinding/GoalBoundNodeArrayAStarPathfinding.cs:100-117 | The node-array engine's starting boxes cover the four directions and contain exactly the cell itself |
| GoalBounds.GoalBoundBothInside | Assets/Scripts/IAJ.Unity/Pathfinding/GoalBoundAStarPathfinding.cs:274-291 | The query throws KeyNotFound exactly when the start has no entry. On a complete entry it answers whether some box holds both the neighbour and the goal |
| GoalBounds.InsideGoalBoundBox | Assets/Scripts/IAJ.Unity/Pathfinding/GoalBoundAStarPathfinding.cs:294-311 | The box test is false when the entry or the direction is missing, and otherwise answers whether the named box holds the cell |
| GoalBounds.BothInsideIffInsideBox | Assets/Scripts/IAJ.Unity/Pathfinding/GoalBoundAStarPathfinding.cs:274-311 | The two queries agree: on a complete entry, both points lie in one box exactly when some direction's box test holds for both |
| GoalBounds.Label | Assets/Scripts/IAJ.Unity/Pathfinding/GoalBoundAStarPathfinding.cs:326-387 | A start neighbour is labelled Up exactly when it is above, Down when below, Right when level and to the right, and Left otherwise; never `None` |
| GoalBounds.LabelOfNeighbours | Assets/Scripts/IAJ.Unity/Pathfinding/GoalBoundAStarPathfinding.cs:326-387 | The three cells above get Up, the three below get Down, and the level cells get Right and Left |
| GoalBounds.GrowBound | Assets/Scripts/IAJ.Unity/Pathfinding/GoalBoundAStarPathfinding.cs:187-200 | Growing a table box throws KeyNotFound exactly when the entry or the direction is missing. Otherwise that one box grows to take in the cell and every other box is unchanged |
| GoalBounds.SetEdge | Assets/Scripts/IAJ.Unity/Pathfinding/GoalBoundAStarPathfinding.cs:185 | Setting an edge changes that one record's edge and nothing else in the arena |
| GoalBounds.Populate | Assets/Scripts/IAJ.Unity/Pathfinding/GoalBoundAStarPathfinding.cs:326-387 | A start neighbour gets its label, and the box of that label grows to take it in. This fails exactly when the box is missing, and then throws KeyNotFound |
| GoalBounds.Propagate | Assets/Scripts/IAJ.Unity/Pathfinding/GoalBoundAStarPathfinding.cs:181-201 | A neighbour that already has an edge changes nothing. One without an edge inherits the current record's edge, and the box of that edge grows to take it in. A `None` edge is looked up under the name "nones", which no entry holds, so it throws KeyNotFound; KeyNotFound is the only exception |
| GoalBoundAStar.ZeroHeuristicTotal | Assets/Scripts/IAJ.Unity/Pathfinding/GoalBoundAStarPathfinding.cs:42 | The preprocessing heuristic gives a value even without a goal, so the fill never throws on a null goal |
| GoalBoundAStar.RelaxKeepsEdges | Assets/Scripts/IAJ.Unity/Pathfinding/AStarPathfinding.cs:156-203 | Relaxation moves costs, parents and statuses, but never a goal-bound edge |
| GoalBoundAStar.FloodStepTrans | Assets/Scripts/IAJ.Unity/Pathfinding/GoalBoundAStarPathfinding.cs:140-207 | Fill steps compose: invariant, frame, boxes only growing, and each edge-labelled record lying in its edge's box |
| GoalBoundAStar.PopulateStep | Assets/Scripts/IAJ.Unity/Pathfinding/GoalBoundAStarPathfinding.cs:175-178 | Labelling a start neighbour keeps the fill's invariants and gives it its direction label, and the box of that label then holds the neighbour's position. It throws only KeyNotFound |
| GoalBoundAStar.PropagateStep | Assets/Scripts/IAJ.Unity/Pathfinding/GoalBoundAStarPathfinding.cs:181-202 | Propagation keeps the fill's invariants, never takes away an edge, and throws only KeyNotFound |
| GoalBoundAStar.LabelNeighbour | Assets/Scripts/IAJ.Unity/Pathfinding/GoalBoundAStarPathfinding.cs:168-202 | Relaxing and then labelling one neighbour keeps the fill's invariants. Away from the source no edge is lost; at the source the neighbour lies in the box of the first move to it. The exceptions are those the fill can raise |
| GoalBoundAStar.LabelAll | Assets/Scripts/IAJ.Unity/Pathfinding/GoalBoundAStarPathfinding.cs:168-203 | The neighbour loop of one expansion keeps the fill's invariants. Away from the source no edge is lost; at the source every neighbour lies in the box of the first move to it |
| GoalBoundAStar.FloodRound | Assets/Scripts/IAJ.Unity/Pathfinding/GoalBoundAStarPathfinding.cs:153-203 | One round pops the best record, closes it, writes it back and labels its neighbours, keeping the fill's invariants |
| GoalBoundAStar.FloodFrom | Assets/Scripts/IAJ.Unity/Pathfinding/GoalBoundAStarPathfinding.cs:125-129 | The fill runs until the open list is empty. The boxes only grow, and every labelled record lies in its edge's box |
| GoalBoundAStar.ResetMapPreprocess | Assets/Scripts/IAJ.Unity/Pathfinding/GoalBoundAStarPathfinding.cs:314-324 | Every grid record is reset in place, and records outside the grid are untouched |
| GoalBoundAStar.ResetMapPreprocessTwice | Assets/Scripts/IAJ.Unity/Pathfinding/GoalBoundAStarPathfinding.cs:314-324 | Resetting the map is idempotent |
| GoalBoundAStar.InitializePrecomputation | Assets/Scripts/IAJ.Unity/Pathfinding/GoalBoundAStarPathfinding.cs:49-78 | The start is set exactly when on the grid, and nothing else changes otherwise. When it is set, the counters are zeroed, the closed set is empty and the open list holds just a fresh record at the start with f = 0 |
| GoalBoundAStar.PreprocessOrder | Assets/Scripts/IAJ.Unity/Pathfinding/GoalBoundAStarPathfinding.cs:89-91 | The loops visit every grid cell exactly once, rows outer, starting at (0, 0) |
| GoalBoundAStar.PreprocessCell | Assets/Scripts/IAJ.Unity/Pathfinding/GoalBoundAStarPathfinding.cs:95-129 | A cell that already has an entry throws DuplicateKey. Otherwise the cell gets a four-direction entry grown from its starting boxes; older entries are untouched and walkability is kept |
| GoalBoundAStar.PreprocessCells | Assets/Scripts/IAJ.Unity/Pathfinding/GoalBoundAStarPathfinding.cs:89-131 | Over a list of distinct cells, each gets a four-direction entry and the earlier entries are untouched. A repeated key throws DuplicateKey |
| GoalBoundAStar.MapPreprocess | Assets/Scripts/IAJ.Unity/Pathfinding/GoalBoundAStarPathfinding.cs:80-137 | Preprocessing gives every grid cell a four-direction entry, keeps the older entries and clears the in-progress flag. In each new table, every walkable king neighbour of a cell lies in the box of the first move to it. It throws DuplicateKey when (0, 0) already has an entry |
| GoalBoundAStar.MapPreprocessDone | Assets/Scripts/IAJ.Unity/Pathfinding/GoalBoundAStarPathfinding.cs:89-131 | After the loops, every on-grid cell that had no entry has one with the four directions, and no other key was added |
| GoalBoundAStar.FirstRoundCovers | Assets/Scripts/IAJ.Unity/Pathfinding/GoalBoundAStarPathfinding.cs:160-178 | The first expansion of a fill, from the lone open record at the source, puts every walkable king neighbour of the source in the box of the first move to it |
| GoalBoundAStar.FillCovers | Assets/Scripts/IAJ.Unity/Pathfinding/GoalBoundAStarPathfinding.cs:140-207 | A whole fill from the source keeps every walkable king neighbour of the source in the box of the first move to it, since later rounds only grow the boxes |
| GoalBoundAStar.MapPreprocessLabelsNeighbours | Assets/Scripts/IAJ.Unity/Pathfinding/GoalBoundAStarPathfinding.cs:80-137 | When the records at each cell agree with the cell's record on walkability, every neighbour whose grid record is walkable lies in the box of the first move to it, in the entry of every grid cell |
| GoalBoundAStar.MapPreprocessTwice | Assets/Scripts/IAJ.Unity/Pathfinding/GoalBoundAStarPathfinding.cs:98 | The table is never cleared, so a second preprocessing of a non-empty grid throws DuplicateKey |
| GoalBoundAStar.NewGoalBoundAStar | Assets/Scripts/IAJ.Unity/Pathfinding/GoalBoundAStarPathfinding.cs:34-46 | The constructor yields a well-formed engine over fresh records with an empty table, no preprocessing in progress and a budget of 100 |
| GoalBoundAStar.GoalBoundSearch | Assets/Scripts/IAJ.Unity/Pathfinding/GoalBoundAStarPathfinding.cs:211-271 | The filtered loop gives the `Search` guarantees and counts only the neighbours it relaxes, ending at most eight past the `uint` budget. Its exceptions also include a missing table entry |
| GoalBoundAStar.GoalBoundSearchAdmitsAll | Assets/Scripts/IAJ.Unity/Pathfinding/GoalBoundAStarPathfinding.cs:245-261 | When the start's boxes admit every grid cell, goal-bound search is exactly plain A* |
| GoalBoundNodeArrayAStar.InitializePrecomputation | Assets/Scripts/IAJ.Unity/Pathfinding/GoalBoundNodeArrayAStarPathfinding.cs:49-77 | Initialisation runs on the preprocessing lists, as the list engine's does, and leaves the node array and the table untouched |
| GoalBoundNodeArrayAStar.PreprocessWalkable | Assets/Scripts/IAJ.Unity/Pathfinding/GoalBoundNodeArrayAStarPathfinding.cs:85-133 | Only walkable cells get entries, each starting from point boxes and holding its own cell in every box; older entries are untouched. Every listed cell whose records are walkable gets one, holding each walkable king neighbour in the box of the first move to it. A walkable cell with an entry throws DuplicateKey |
| GoalBoundNodeArrayAStar.PreprocessNoneWalkable | Assets/Scripts/IAJ.Unity/Pathfinding/GoalBoundNodeArrayAStarPathfinding.cs:91 | With no walkable cell the loops add no entry and change nothing |
| GoalBoundNodeArrayAStar.MapPreprocess | Assets/Scripts/IAJ.Unity/Pathfinding/GoalBoundNodeArrayAStarPathfinding.cs:79-137 | Preprocessing keeps the node array. New entries are for on-grid cells, each holding its cell in every box. Every cell whose records are walkable gets one, in which each walkable king neighbour lies in the box of the first move to it; on an all-walkable grid every cell gets one. It throws DuplicateKey on a walkable (0, 0) that has an entry |
| GoalBoundNodeArrayAStar.MapPreprocessCoversWalkable | Assets/Scripts/IAJ.Unity/Pathfinding/GoalBoundNodeArrayAStarPathfinding.cs:79-137 | When the records at each cell agree with the cell's record on walkability, every cell whose grid record is walkable gets an entry. In it, every neighbour whose grid record is walkable lies in the box of the first move to it |
| GoalBoundNodeArrayAStar.MapPreprocessNoneWalkable | Assets/Scripts/IAJ.Unity/Pathfinding/GoalBoundNodeArrayAStarPathfinding.cs:79-137 | On a grid with no walkable cell, preprocessing only toggles the in-progress flag |
| GoalBoundNodeArrayAStar.MapPreprocessTwice | Assets/Scripts/IAJ.Unity/Pathfinding/GoalBoundNodeArrayAStarPathfinding.cs:97 | On an all-walkable non-empty grid a second preprocessing throws DuplicateKey |
| GoalBoundNodeArrayAStar.NewGoalBoundNodeArrayAStar | Assets/Scripts/IAJ.Unity/Pathfinding/GoalBoundNodeArrayAStarPathfinding.cs:36-46 | The constructor yields a coherent node-array engine, empty preprocessing lists and an empty table |
| GoalBoundNodeArrayAStar.GoalBoundSearch | Assets/Scripts/IAJ.Unity/Pathfinding/GoalBoundNodeArrayAStarPathfinding.cs:256-317 | The filtered node-array loop gives the `Search` guarantees, ending at most eight past the `uint` budget, and keeps coherence. On a coherent engine the exceptions are a null goal, a missing table entry and an unfinished walk |
| GoalBoundNodeArrayAStar.GoalBoundSearchAdmitsAll | Assets/Scripts/IAJ.Unity/Pathfinding/GoalBoundNodeArrayAStarPathfinding.cs:291-307 | When the start's boxes admit every cell, the goal-bound node-array search is exactly the plain node-array search |

## Left out

- `NodePriorityHeap`'s code is not part of this model. The heap is a
  multiset, and its choice among least-fCost members is left unspecified.
  So the node-array engine's `PeekBest`, `GetBestAndRemove` and everything
  built on them are ghost, and no tie-break is assumed.
  `NodeRecordArray.Replace` and the open set's `All` only delegate to the
  heap, and are left out with it. `NodeRecordArrays.SearchInOpen` assumes
  that the heap's search returns a member that `Equals` its argument, and
  the Open branch of `NodeArrayAStar.Relax` rests on that assumption.
- `SimpleUnorderedNodeList.All` returns the list itself, and
  `AStarPathfinding.GetNode` is `GetGridObject`. Neither has a member of its
  own.
- Floating-point costs are integers in half-units. `TotalProcessingTime`,
  the world-space helpers (`GetWorldPosition`, `GetXY`, `cellSize`) and the
  change event's subscribers (the visual grid) are left out. The event
  appears only as a log of changed cells.
- The base `Search`'s experimental `goalBound` branch
  (`AStarPathfinding.cs` lines 117-130) is left out. It tests only the
  current node's "up" box, and the flag is never set within the modelled
  core.
- `returnPartialSolution` is ignored by the source and is not modelled.
- Heuristics (`EuclideanDistance`, `ZeroHeuristic`) are a parameter. Only
  the zero heuristic is fixed, for preprocessing.
- The parent walk of `CalculatePath` and the flood fill (`Floodfill`'s
  `while` loop) are run with a fuel bound. Running out is reported as an
  `OutOfFuel` outcome, which the source cannot produce. `CalculatePath`
  gets as many steps as there are records. That is enough for every
  acyclic parent chain (see `Engines.PathFromComplete`).
- `Floodfill` never increments its `ProcessedNodes`, in both engines. So it
  never returns `false`, and the budget does not bound the fill. The model
  follows the code and runs the fill to an empty open list.
- An exception inside `MapPreprocess` leaves `PreComputationInProgress`
  set in the source. The model ends the operation with the `Failure`.
- Walkability changes made by the visual manager and the UI are outside the
  core. Every record is built walkable, and the model never changes
  walkability.
- GoalBoundNodeArrayAStar.MapPreprocess: entries and neighbour coverage
  are stated for cells all of whose records are walkable. A cell whose
  grid record is walkable while another record at that position is not is
  not characterised. `MapPreprocessCoversWalkable` closes that gap for
  engines whose records at a cell agree on walkability.
- GoalBoundNodeArrayAStar.PreprocessWalkable: the same restriction applies.
- AStar.Search: `NodesPerSearch` and `ProcessedNodes` are `uint`s, and the
  model keeps the budget below 2^32. With a budget of 2^32 − 8 or more,
  `ProcessedNodes += 1` can wrap to a small value inside a round. The
  source's loop test then stays true: at `uint.MaxValue` it never
  suspends. The model suspends as soon as the count passes the budget, so
  for those top eight budgets it promises a suspension the source does
  not make. A wrapping counter would leave the loop without a termination
  measure short of proving that A* itself terminates.
  `SearchCountFitsUInt` shows that the model is exact for every smaller
  budget.
- AStar.SearchFrom: the same budget wrap is not modelled.
- NodeArrayAStar.SearchFrom: the same budget wrap is not modelled.
- NodeArrayAStar.Search: the same budget wrap is not modelled.
- GoalBoundAStar.GoalBoundSearch: the same budget wrap is not modelled.
- GoalBoundNodeArrayAStar.GoalBoundSearch: the same budget wrap is not
  modelled.
- NodeArrayAStar.RelaxBound: the bound has a third case, an Open slot with
  no equal heap member. A coherent engine never has such a slot, but the
  model states the relaxation without that heap/slot invariant.
- GoalBoundAStar.MapPreprocess: the boxes are stated to contain the
  labelled records of each fill and the cell's walkable king neighbours.
  They are not stated to be the least such boxes. Neighbour coverage is
  stated for positions all of whose records are walkable;
  `MapPreprocessLabelsNeighbours` states it in terms of the grid's records.
- GoalBoundAStar.FloodFrom: every record the fill labels lies in its edge's
  box, and the source's walkable king neighbours are labelled. The contract
  does not state that every cell the fill reaches gets an edge. That would
  need an invariant tying every record the fill touches to the grid's
  records, through every relaxation branch.

## Findings

| source | as written | input that shows it | evidently intended | confidence | as-written member | corrected member |
|---|---|---|---|---|---|---|
| Assets/Scripts/IAJ.Unity/Pathfinding/NodeArrayAStarPathfinding.cs:12-21 | The cell indices come from `index++` on a `static` counter that no instance resets. A second engine's records carry indices `w·h` and up, while its `NodeRecordArray` is addressed from 0 | A second 1×2 engine. Search from (0, 0) to (0, 1): processing (0, 1) calls `GetNodeRecord` with index 3 on a two-slot array, which throws | Each instance numbers its cells from 0, so that a record's index is the slot of its own position | not executed | NodeArrayAStar.NewNodeArrayAStarAsWritten, NodeArrayAStar.SecondInstanceOutOfRange, NodeArrayAStar.StartRoundThrows | NodeArrayAStar.NewNodeArrayAStar |
