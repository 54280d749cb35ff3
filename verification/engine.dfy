/** State and helpers shared by every pathfinding engine: the record grid and
    arena, the counters `Search` keeps, neighbour enumeration and
    parent-chain path reconstruction. The open/closed sets are the type
    parameter `S`, because each engine plugs in different ones. */
module Engines {
  import opened Common
  import opened Grids
  import opened NodeRecords
  import opened Movement
  import opened UnorderedNodeLists

  /** `IHeuristic.H(node, goal)`, read on the two records' positions, in
      half-units. The goal is None when the goal reference is null; the result
      None stands for the null dereference a heuristic that reads the goal
      raises then. With a goal present every heuristic gives a value. */
  type Heuristic = h: (Coord, Option<Coord>) -> Option<nat>
    | forall n: Coord, g: Coord :: h(n, Some(g)).Some?
    witness (n: Coord, g: Option<Coord>) => Some(0)

  /** `ZeroHeuristic`: 0 everywhere, whether or not there is a goal. */
  const ZeroHeuristic: Heuristic := (n: Coord, g: Option<Coord>) => Some(0)

  /** The default budget: `NodesPerSearch = 100`. */
  const DefaultNodesPerSearch: nat := 100

  /** `uint` arithmetic wraps modulo 2^32. */
  const UIntModulus: nat := 0x1_0000_0000

  /** The values a C# `uint` holds. */
  type UInt = n: nat | n < UIntModulus

  /** What one `Search` call ends with: `false` (suspended), `true` with a null
      solution, `true` with a path, or an exception. */
  datatype SearchResult = Suspended | NoPath | PathFound(path: seq<RecId>) | Crashed(error: Error)

  datatype Engine<S> = Engine(
    grid: Grid<RecId>,
    arena: Arena,
    next: nat,
    sets: S,
    nodesPerSearch: UInt,
    totalProcessedNodes: UInt,
    maxOpenNodes: int,
    inProgress: bool,
    startNode: Option<RecId>,
    goalNode: Option<RecId>,
    startX: int,
    startY: int,
    goalX: int,
    goalY: int)
  {
    /** The grid holds, at every cell, a record of that position; every record
        lies on the grid and was allocated below `next`; parent links and the
        start and goal references name stored records. */
    ghost predicate CellsWf() {
      && grid.Valid()
      && (forall x, y | 0 <= x < grid.width && 0 <= y < grid.height ::
            grid.cells[x][y] in arena && arena[grid.cells[x][y]].Position() == Coord(x, y))
      && (forall id | id in arena :: id < next && InBounds(arena[id].Position(), grid.width, grid.height))
      && ParentsStored(arena)
      && (startNode.Some? ==> startNode.value in arena)
      && (goalNode.Some? ==> goalNode.value in arena)
    }

    predicate OnGrid(c: Coord) {
      InBounds(c, grid.width, grid.height)
    }

    /** The record the grid holds at an on-grid cell. */
    function CellAt(c: Coord): (id: RecId)
      requires CellsWf() && OnGrid(c)
      ensures id in arena && arena[id].Position() == c
    {
      grid.cells[c.x][c.y]
    }

    /** The goal record's position, None while the goal reference is null. */
    function GoalPosition(): (g: Option<Coord>)
      requires CellsWf()
      ensures g.Some? <==> goalNode.Some?
      ensures g.Some? ==> g.value == arena[goalNode.value].Position()
    {
      if goalNode.Some? then Some(arena[goalNode.value].Position()) else None
    }

    /** The start record's position, None while the start reference is null. */
    function StartPosition(): (s: Option<Coord>)
      requires CellsWf()
      ensures s.Some? <==> startNode.Some?
      ensures s.Some? ==> s.value == arena[startNode.value].Position()
    {
      if startNode.Some? then Some(arena[startNode.value].Position()) else None
    }
  }

  /** The same engine state over other open and closed sets. */
  function WithSets<S, T>(e: Engine<S>, s: T): (r: Engine<T>)
    ensures r.sets == s
    ensures r.grid == e.grid && r.arena == e.arena && r.next == e.next
    ensures r.nodesPerSearch == e.nodesPerSearch && r.totalProcessedNodes == e.totalProcessedNodes
    ensures r.maxOpenNodes == e.maxOpenNodes && r.inProgress == e.inProgress
    ensures r.startNode == e.startNode && r.goalNode == e.goalNode
    ensures r.startX == e.startX && r.startY == e.startY && r.goalX == e.goalX && r.goalY == e.goalY
    ensures r.CellsWf() <==> e.CellsWf()
  {
    Engine(e.grid, e.arena, e.next, s, e.nodesPerSearch, e.totalProcessedNodes, e.maxOpenNodes,
           e.inProgress, e.startNode, e.goalNode, e.startX, e.startY, e.goalX, e.goalY)
  }

  /** Well-formedness reads only the grid, the arena, the allocation counter
      and the start and goal references, which need only name stored
      records. */
  lemma CellsWfFrame<S, T>(e: Engine<S>, r: Engine<T>)
    requires e.CellsWf()
    requires r.grid == e.grid && r.arena == e.arena && r.next == e.next
    requires r.startNode.Some? ==> r.startNode.value in e.arena
    requires r.goalNode.Some? ==> r.goalNode.value in e.arena
    ensures r.CellsWf()
  {
  }

  /** The grid constructor for a record grid: record `make(x, y, k)` for the
      k-th cell created is stored under id k, with x as the outer loop. */
  method NewCells(width: nat, height: nat, make: (int, int, nat) -> NodeRecord) returns (grid: Grid<RecId>, arena: Arena)
    requires forall x, y, k :: make(x, y, k).Position() == Coord(x, y) && make(x, y, k).parent.None?
    ensures grid.Valid() && grid.width == width && grid.height == height && grid.changes == []
    ensures forall x, y | 0 <= x < width && 0 <= y < height ::
              grid.cells[x][y] == x * height + y
              && grid.cells[x][y] in arena
              && arena[grid.cells[x][y]] == make(x, y, x * height + y)
    ensures forall id | id in arena ::
              id < width * height && InBounds(arena[id].Position(), width, height) && arena[id].parent.None?
              && id == arena[id].x * height + arena[id].y && arena[id] == make(arena[id].x, arena[id].y, id)
  {
    grid := New(width, height, (x, y, k) => k);
    arena := map[];
    var x := 0;
    while x < width
      invariant 0 <= x <= width
      invariant forall id | id in arena ::
                  id < width * height && InBounds(arena[id].Position(), width, height) && arena[id].parent.None?
                  && id == arena[id].x * height + arena[id].y && arena[id] == make(arena[id].x, arena[id].y, id)
      invariant forall a, b | 0 <= a < x && 0 <= b < height ::
                  grid.cells[a][b] in arena && arena[grid.cells[a][b]] == make(a, b, grid.cells[a][b])
    {
      var y := 0;
      while y < height
        invariant 0 <= y <= height
        invariant forall id | id in arena ::
                    id < width * height && InBounds(arena[id].Position(), width, height) && arena[id].parent.None?
                    && id == arena[id].x * height + arena[id].y && arena[id] == make(arena[id].x, arena[id].y, id)
        invariant forall a, b | 0 <= a < width && 0 <= b < height && (a < x || (a == x && b < y)) ::
                    grid.cells[a][b] in arena && arena[grid.cells[a][b]] == make(a, b, grid.cells[a][b])
      {
        CellIdBound(x, y, width, height);
        forall a, b | 0 <= a < width && 0 <= b < height && (a < x || (a == x && b < y))
          ensures grid.cells[a][b] != grid.cells[x][y]
        {
          if grid.cells[a][b] == grid.cells[x][y] {
            CellIdUnique(a, b, x, y, height);
          }
        }
        arena := arena[grid.cells[x][y] := make(x, y, grid.cells[x][y])];
        y := y + 1;
      }
      x := x + 1;
    }
  }

  /** Cell ids stay below width·height. */
  lemma CellIdBound(x: int, y: int, width: int, height: int)
    requires 0 <= x < width && 0 <= y < height
    ensures x * height + y < width * height
  {
    MulMono(x + 1, width, height);
  }

  /** Cell ids x·height + y name one cell each. */
  lemma CellIdUnique(x: int, y: int, x': int, y': int, height: int)
    requires 0 <= y < height && 0 <= y' < height && 0 <= x && 0 <= x'
    requires x * height + y == x' * height + y'
    ensures x == x' && y == y'
  {
    if x < x' {
      assert (x + 1) * height <= x' * height by {
        MulMono(x + 1, x', height);
      }
    } else if x' < x {
      assert (x' + 1) * height <= x * height by {
        MulMono(x' + 1, x, height);
      }
    }
  }

  lemma MulMono(a: int, b: int, h: int)
    requires a <= b && 0 <= h
    ensures a * h <= b * h
  {
    assert b * h - a * h == (b - a) * h;
  }

  /** The walkable records at the given cells, in order. */
  function WalkableCells<S>(e: Engine<S>, cs: seq<Coord>): (r: seq<RecId>)
    requires e.CellsWf() && forall c | c in cs :: e.OnGrid(c)
    ensures |r| <= |cs|
    ensures forall id | id in r ::
              id in e.arena && e.arena[id].isWalkable && e.arena[id].Position() in cs
              && id == e.CellAt(e.arena[id].Position())
    ensures forall c | c in cs :: e.arena[e.CellAt(c)].isWalkable ==> e.CellAt(c) in r
  {
    if |cs| == 0 then []
    else
      assert cs[0] in cs;
      var id := e.CellAt(cs[0]);
      var rest := WalkableCells(e, cs[1..]);
      if e.arena[id].isWalkable then [id] + rest else rest
  }

  /** Distinct cells give records of distinct positions. */
  lemma {:induction false} WalkableCellsDistinct<S>(e: Engine<S>, cs: seq<Coord>)
    requires e.CellsWf() && forall c | c in cs :: e.OnGrid(c)
    requires forall i, j | 0 <= i < j < |cs| :: cs[i] != cs[j]
    ensures Stored(WalkableCells(e, cs), e.arena) && UniquePositions(WalkableCells(e, cs), e.arena)
    decreases |cs|
  {
    if |cs| > 0 {
      assert cs[0] in cs;
      var tail := cs[1..];
      assert forall c | c in tail :: c in cs;
      WalkableCellsDistinct(e, tail);
      var rest := WalkableCells(e, tail);
      var id := e.CellAt(cs[0]);
      if e.arena[id].isWalkable {
        assert WalkableCells(e, cs) == [id] + rest;
        assert cs[0] !in tail;
        ConsUnique(e.arena, id, rest);
      }
    }
  }

  /** Prepending a record whose position the list lacks keeps positions unique. */
  lemma ConsUnique(a: Arena, id: RecId, l: NodeList)
    requires id in a && Stored(l, a) && UniquePositions(l, a)
    requires forall k | 0 <= k < |l| :: a[l[k]].Position() != a[id].Position()
    ensures Stored([id] + l, a) && UniquePositions([id] + l, a)
  {
    var r := [id] + l;
    forall i, j | 0 <= i < j < |r|
      ensures a[r[i]].Position() != a[r[j]].Position()
    {
      if i > 0 {
        assert r[i] == l[i - 1];
      }
      assert r[j] == l[j - 1];
    }
  }

  /** Every parent link names a stored record. */
  ghost predicate ParentsStored(a: Arena) {
    forall id | id in a && a[id].parent.Some? :: a[id].parent.value in a
  }

  /** Storing new costs and a stored parent keeps parent links stored. */
  lemma UpdateParentsStored(a: Arena, id: RecId, g: int, h: int, p: RecId)
    requires ParentsStored(a) && id in a && p in a
    ensures ParentsStored(UpdateCosts(a, id, g, h, p))
  {
  }

  /** Status changes keep parent links stored. */
  lemma StatusParentsStored(a: Arena, id: RecId, s: NodeStatus)
    requires ParentsStored(a) && id in a
    ensures ParentsStored(SetStatus(a, id, s))
  {
  }

  /** Parent links copied over the same ids, or cleared, stay stored. */
  lemma SameParentsStored(a: Arena, a': Arena)
    requires ParentsStored(a) && a'.Keys == a.Keys
    requires forall id | id in a' :: a'[id].parent.None? || a'[id].parent == a[id].parent
    ensures ParentsStored(a')
  {
    forall id | id in a' && a'[id].parent.Some?
      ensures a'[id].parent.value in a'
    {
      assert id in a && a[id].parent.Some?;
    }
  }

  /** Replacing the arena by one holding the same records in place, with its
      parent links stored, keeps the record grid well formed. */
  lemma ArenaSwapCellsWf<S>(e: Engine<S>, a': Arena)
    requires e.CellsWf() && SameNodes(e.arena, a') && ParentsStored(a')
    ensures e.(arena := a').CellsWf()
  {
    var r := e.(arena := a');
    assert r.grid == e.grid && r.next == e.next;
    forall x, y | 0 <= x < e.grid.width && 0 <= y < e.grid.height
      ensures e.grid.cells[x][y] in a' && a'[e.grid.cells[x][y]].Position() == Coord(x, y)
    {
      var id := e.grid.cells[x][y];
      assert id in e.arena && a'[id].Position() == e.arena[id].Position();
    }
    forall id | id in a'
      ensures id < e.next && InBounds(a'[id].Position(), e.grid.width, e.grid.height)
    {
      assert id in e.arena && a'[id].Position() == e.arena[id].Position();
    }
    assert e.startNode.Some? ==> e.startNode.value in a';
    assert e.goalNode.Some? ==> e.goalNode.value in a';
  }

  /** `GetNeighbourList`: the walkable grid records one king move away from the
      current record, each once. */
  function GetNeighbourList<S>(e: Engine<S>, current: RecId): (r: seq<RecId>)
    requires e.CellsWf() && current in e.arena
    ensures |r| <= 8
    ensures forall id | id in r ::
              && id in e.arena && e.arena[id].isWalkable
              && e.OnGrid(e.arena[id].Position())
              && id == e.CellAt(e.arena[id].Position())
              && Chebyshev(e.arena[current].Position(), e.arena[id].Position()) == 1
  {
    var p := e.arena[current];
    NeighbourCoordsExact(p.x, p.y, e.grid.width, e.grid.height);
    WalkableCells(e, NeighbourCoords(p.x, p.y, e.grid.width, e.grid.height))
  }

  /** The neighbour list is exactly the walkable records one king move away,
      with no position twice. */
  lemma GetNeighbourListExact<S>(e: Engine<S>, current: RecId)
    requires e.CellsWf() && current in e.arena
    ensures var r := GetNeighbourList(e, current);
            && (forall c | e.OnGrid(c) && Chebyshev(e.arena[current].Position(), c) == 1 ::
                  e.CellAt(c) in r <==> e.arena[e.CellAt(c)].isWalkable)
            && Stored(r, e.arena) && UniquePositions(r, e.arena)
  {
    var p := e.arena[current];
    NeighbourCoordsExact(p.x, p.y, e.grid.width, e.grid.height);
    WalkableCellsDistinct(e, NeighbourCoords(p.x, p.y, e.grid.width, e.grid.height));
  }

  /** `p`, start first, is what `CalculatePath` builds for `node`: it ends at
      `node`, each entry is the parent of the next, its first entry equals the
      start record and no later one does. */
  ghost predicate IsPathTo(a: Arena, start: Option<RecId>, p: seq<RecId>, node: RecId) {
    && |p| > 0 && p[|p| - 1] == node
    && (forall i | 0 <= i < |p| :: p[i] in a)
    && start.Some? && start.value in a
    && a[p[0]].Equals(a[start.value])
    && (forall i | 1 <= i < |p| :: !a[p[i]].Equals(a[start.value]))
    && (forall i | 0 <= i < |p| - 1 :: a[p[i + 1]].parent == Some(p[i]))
  }

  /** The loop of `CalculatePath`, from `node` upwards. A missing parent ends in
      a null dereference; running out of `fuel` stands for a parent chain that
      never reaches the start. */
  function PathFrom(a: Arena, start: Option<RecId>, node: RecId, fuel: nat): (r: Result<seq<RecId>>)
    requires node in a && ParentsStored(a) && (start.Some? ==> start.value in a)
    ensures r.Success? ==> IsPathTo(a, start, r.value, node) && |r.value| <= fuel + 1
    ensures r.Failure? ==> r.error in {NullReference, OutOfFuel}
    decreases fuel
  {
    if start.Some? && a[node].Equals(a[start.value]) then Success([node])
    else if fuel == 0 then Failure(OutOfFuel)
    else match a[node].parent
      case None => Failure(NullReference)
      case Some(p) =>
        match PathFrom(a, start, p, fuel - 1)
        case Success(path) => Success(path + [node])
        case Failure(err) => Failure(err)
  }

  /** `CalculatePath`: the walk is given as many steps as there are records. */
  function CalculatePath<S>(e: Engine<S>, endNode: RecId): (r: Result<seq<RecId>>)
    requires e.CellsWf() && endNode in e.arena
    ensures r.Success? ==> IsPathTo(e.arena, e.startNode, r.value, endNode)
  {
    PathFrom(e.arena, e.startNode, endNode, |e.arena|)
  }

  /** The path is determined by the records: any sequence with the shape of a
      `CalculatePath` result is the one the walk returns, given enough fuel. */
  lemma {:induction false} PathFromComplete(a: Arena, start: Option<RecId>, p: seq<RecId>, node: RecId, fuel: nat)
    requires ParentsStored(a) && node in a && IsPathTo(a, start, p, node) && |p| <= fuel + 1
    ensures PathFrom(a, start, node, fuel) == Success(p)
    decreases |p|
  {
    if |p| > 1 {
      assert !a[p[|p| - 1]].Equals(a[start.value]);
      assert a[p[|p| - 1]].parent == Some(p[|p| - 2]);
      var q := p[..|p| - 1];
      assert IsPathTo(a, start, q, p[|p| - 2]);
      PathFromComplete(a, start, q, p[|p| - 2], fuel - 1);
      assert p == q + [node];
    } else {
      assert p == [node];
    }
  }
}
