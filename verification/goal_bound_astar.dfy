/** `GoalBoundAStarPathfinding`: the list-based engine plus a preprocessing
    pass that flood-fills the grid from every cell and records, for each
    first move out of that cell, a box around the cells whose cheapest route
    starts with that move. `Search` then relaxes only the neighbours that
    share such a box with the goal. */
module GoalBoundAStar {
  import opened Common
  import opened Grids
  import opened NodeRecords
  import opened Movement
  import opened Engines
  import opened AStar
  import L = UnorderedNodeLists
  import GB = GoalBounds

  /** The flood fill's state: the engine and the bounds table. */
  datatype Flood = Flood(engine: Engine<ListSets>, bounds: GB.Bounds)

  /** Two tables with the same keys, and under each key the same directions. */
  ghost predicate SameShape(b: GB.Bounds, b': GB.Bounds) {
    && b'.Keys == b.Keys
    && forall k | k in b :: b'[k].Keys == b[k].Keys
  }

  /** A record's edge names a box of `bounds[source]` that takes its position in. */
  ghost predicate Covered(b: GB.Bounds, source: Coord, r: NodeRecord) {
    var d := GB.DirectionName(r.bestGoalBoundEdge);
    source in b && d in b[source] && b[source][d].Contains(r.Position())
  }

  /** Every record that had an edge still has that edge. */
  ghost predicate KeepsEdges(a: Arena, b: Arena) {
    forall id | id in a && id in b && a[id].bestGoalBoundEdge != NoEdge ::
      b[id].bestGoalBoundEdge == a[id].bestGoalBoundEdge
  }

  /** What every part of the flood fill keeps, from engine `e` and bounds `b`:
      the engine invariant and frame, the counters, boxes that only grow
      over an unchanged key set, and every record whose edge it (re)labels
      lies in the box of its new label. */
  ghost predicate FloodStep(e: Engine<ListSets>, b: GB.Bounds, source: Coord, r: Flood) {
    && Wf(r.engine) && Frame(e, r.engine)
    && r.engine.totalProcessedNodes == e.totalProcessedNodes && r.engine.maxOpenNodes == e.maxOpenNodes
    && r.engine.inProgress == e.inProgress
    && GB.BoundsEnclose(b, r.bounds) && SameShape(b, r.bounds)
    && (forall k | k in b && k != source :: r.bounds[k] == b[k])
    && forall id | id in e.arena && id in r.engine.arena
                   && r.engine.arena[id].bestGoalBoundEdge != e.arena[id].bestGoalBoundEdge
                   && r.engine.arena[id].bestGoalBoundEdge != NoEdge ::
         Covered(r.bounds, source, r.engine.arena[id])
  }

  /** A heuristic that gives a value whether or not there is a goal, as
      `ZeroHeuristic` does. */
  ghost predicate Total(h: Heuristic) {
    forall c: Coord, g: Option<Coord> :: h(c, g).Some?
  }

  lemma ZeroHeuristicTotal()
    ensures Total(ZeroHeuristic)
  {
  }

  /** The exceptions the flood fill can end with: a missing bounds entry, the
      fuel running out, or a heuristic that reads the null goal. */
  ghost predicate FloodError(h: Heuristic, e: Engine<ListSets>, err: Error) {
    || err == KeyNotFound || err == OutOfFuel
    || (err == NullReference && e.goalNode.None? && !Total(h))
  }

  /** Relaxation moves costs, parents and statuses, never edges. */
  lemma RelaxKeepsEdges(e: Engine<ListSets>, hn: nat, parent: RecId, node: RecId)
    requires Wf(e) && parent in e.arena && node in e.arena
    ensures forall id | id in e.arena ::
              Relax(e, hn, parent, node).arena[id].bestGoalBoundEdge == e.arena[id].bestGoalBoundEdge
  {
    var a := e.arena;
    var g := OfferedCost(a, parent, node);
    var closedNode := SearchClosed(e.sets.closed, a, node);
    var openNode := L.Search(e.sets.open, a, node);
    if closedNode.Some? && a[closedNode.value].fCost >= g + hn {
      ReopenKeepsEdges(e, hn, parent, node);
    } else if openNode.Some? && a[openNode.value].fCost >= g + hn {
      UpdateInPlaceKeepsEdges(e, hn, parent, node);
    } else if closedNode.None? && openNode.None? {
      OpenNewKeepsEdges(e, hn, parent, node);
    } else {
      RelaxKeepOutcome(e, hn, parent, node);
    }
  }

  lemma ReopenKeepsEdges(e: Engine<ListSets>, hn: nat, parent: RecId, node: RecId)
    requires Wf(e) && parent in e.arena && node in e.arena
    requires var c := SearchClosed(e.sets.closed, e.arena, node);
             c.Some? && e.arena[c.value].fCost >= OfferedCost(e.arena, parent, node) + hn
    ensures forall id | id in e.arena ::
              Relax(e, hn, parent, node).arena[id].bestGoalBoundEdge == e.arena[id].bestGoalBoundEdge
  {
    var a := e.arena;
    var g := OfferedCost(a, parent, node);
    var c := SearchClosed(e.sets.closed, a, node).value;
    assert Relax(e, hn, parent, node).arena == SetStatus(UpdateCosts(a, c, g, hn, parent), c, Open);
    UpdateKeepsEdges(a, c, g, hn, parent, Open);
  }

  lemma UpdateInPlaceKeepsEdges(e: Engine<ListSets>, hn: nat, parent: RecId, node: RecId)
    requires Wf(e) && parent in e.arena && node in e.arena
    requires var c := SearchClosed(e.sets.closed, e.arena, node);
             !(c.Some? && e.arena[c.value].fCost >= OfferedCost(e.arena, parent, node) + hn)
    requires var o := L.Search(e.sets.open, e.arena, node);
             o.Some? && e.arena[o.value].fCost >= OfferedCost(e.arena, parent, node) + hn
    ensures forall id | id in e.arena ::
              Relax(e, hn, parent, node).arena[id].bestGoalBoundEdge == e.arena[id].bestGoalBoundEdge
  {
    RelaxUpdateOutcome(e, hn, parent, node);
  }

  lemma OpenNewKeepsEdges(e: Engine<ListSets>, hn: nat, parent: RecId, node: RecId)
    requires Wf(e) && parent in e.arena && node in e.arena
    requires SearchClosed(e.sets.closed, e.arena, node).None? && L.Search(e.sets.open, e.arena, node).None?
    ensures forall id | id in e.arena ::
              Relax(e, hn, parent, node).arena[id].bestGoalBoundEdge == e.arena[id].bestGoalBoundEdge
  {
    var a := e.arena;
    var g := OfferedCost(a, parent, node);
    assert Relax(e, hn, parent, node).arena == SetStatus(UpdateCosts(a, node, g, hn, parent), node, Open);
    UpdateKeepsEdges(a, node, g, hn, parent, Open);
  }

  lemma UpdateKeepsEdges(a: Arena, n: RecId, g: int, h: int, parent: RecId, s: NodeStatus)
    requires n in a
    ensures forall id | id in a :: UpdateCosts(a, n, g, h, parent)[id].bestGoalBoundEdge == a[id].bestGoalBoundEdge
    ensures forall id | id in a :: SetStatus(UpdateCosts(a, n, g, h, parent), n, s)[id].bestGoalBoundEdge == a[id].bestGoalBoundEdge
  {
  }

  /** Replacing the arena by one with the same records, parents and walkability
      keeps the invariant. */
  lemma EdgeWriteWf(e: Engine<ListSets>, a': Arena)
    requires Wf(e) && SameNodes(e.arena, a')
    requires forall id | id in a' :: a'[id].parent == e.arena[id].parent
    ensures Wf(e.(arena := a')) && Frame(e, e.(arena := a'))
  {
    SetsWfFrame(e.sets, e.arena, a');
    SameParentsStored(e.arena, a');
    ArenaSwapCellsWf(e, a');
  }

  lemma FloodStepRefl(e: Engine<ListSets>, b: GB.Bounds, source: Coord)
    requires Wf(e)
    ensures FloodStep(e, b, source, Flood(e, b))
  {
  }

  /** A box that takes a record in still does once the boxes have grown. */
  lemma CoveredMono(b: GB.Bounds, b': GB.Bounds, source: Coord, r: NodeRecord)
    requires Covered(b, source, r) && GB.BoundsEnclose(b, b')
    ensures Covered(b', source, r)
  {
    var d := GB.DirectionName(r.bestGoalBoundEdge);
    GB.EnclosesContains(b[source][d], b'[source][d], r.Position());
  }

  lemma FloodStepTrans(e: Engine<ListSets>, b: GB.Bounds, source: Coord, f1: Flood, f2: Flood)
    requires FloodStep(e, b, source, f1) && FloodStep(f1.engine, f1.bounds, source, f2)
    ensures FloodStep(e, b, source, f2)
  {
    SameNodesTransitive(e.arena, f1.engine.arena, f2.engine.arena);
    GB.BoundsEncloseTransitive(b, f1.bounds, f2.bounds);
    forall id | id in e.arena && id in f2.engine.arena
                && f2.engine.arena[id].bestGoalBoundEdge != e.arena[id].bestGoalBoundEdge
                && f2.engine.arena[id].bestGoalBoundEdge != NoEdge
      ensures Covered(f2.bounds, source, f2.engine.arena[id])
    {
      assert id in f1.engine.arena;
      if f2.engine.arena[id].bestGoalBoundEdge == f1.engine.arena[id].bestGoalBoundEdge {
        assert f2.engine.arena[id].Position() == f1.engine.arena[id].Position();
        CoveredMono(f1.bounds, f2.bounds, source, f1.engine.arena[id]);
      }
    }
  }

  /** `PopulateStartingNeighboursWithBestEdge` on the engine: the neighbour
      takes its label and the box of that label grows to take it in. */
  function PopulateStep(e: Engine<ListSets>, b: GB.Bounds, source: Coord, n: RecId): (r: Result<Flood>)
    requires Wf(e) && n in e.arena
    ensures r.Success? ==> FloodStep(e, b, source, r.value)
    ensures r.Success? ==> r.value.engine.arena[n].bestGoalBoundEdge == GB.Label(source, e.arena[n].Position())
    ensures r.Success? ==> GB.FirstMoveCovered(r.value.bounds, source, e.arena[n].Position())
    ensures r.Failure? ==> r.error == KeyNotFound
  {
    match GB.Populate(e.arena, b, source, n)
    case Failure(err) => Failure(err)
    case Success((a2, b2)) =>
      EdgeWriteWf(e, a2);
      Success(Flood(e.(arena := a2), b2))
  }

  /** The propagation branch on the engine: only a neighbour without an edge
      changes, and it takes the expanding record's edge. */
  function PropagateStep(e: Engine<ListSets>, b: GB.Bounds, source: Coord, current: RecId, n: RecId): (r: Result<Flood>)
    requires Wf(e) && current in e.arena && n in e.arena
    ensures r.Success? ==> FloodStep(e, b, source, r.value) && KeepsEdges(e.arena, r.value.engine.arena)
    ensures r.Failure? ==> r.error == KeyNotFound
  {
    match GB.Propagate(e.arena, b, source, current, n)
    case Failure(err) => Failure(err)
    case Success((a2, b2)) =>
      EdgeWriteWf(e, a2);
      Success(Flood(e.(arena := a2), b2))
  }

  /** A relaxation leaves the flood-fill state as it was but for costs,
      parents, statuses and the grid. */
  lemma RelaxStep(e: Engine<ListSets>, b: GB.Bounds, source: Coord, h: Heuristic, current: RecId, n: RecId)
    requires Wf(e) && current in e.arena && n in e.arena
    requires ProcessChildNode(e, h, current, n).Success?
    ensures var e1 := ProcessChildNode(e, h, current, n).value;
            FloodStep(e, b, source, Flood(e1, b)) && KeepsEdges(e.arena, e1.arena)
  {
    RelaxKeepsEdges(e, h(e.arena[n].Position(), e.GoalPosition()).value, current, n);
  }

  /** One neighbour of the flood fill: `ProcessChildNode`, then, when the
      expanding record is at the source, `PopulateStartingNeighboursWithBestEdge`,
      and otherwise the propagation of its edge to a neighbour without one. */
  function LabelNeighbour(e: Engine<ListSets>, b: GB.Bounds, source: Coord, h: Heuristic, current: RecId, n: RecId): (r: Result<Flood>)
    requires Wf(e) && current in e.arena && n in e.arena
    ensures r.Success? ==> FloodStep(e, b, source, r.value)
    ensures r.Success? && e.arena[current].Position() != source ==> KeepsEdges(e.arena, r.value.engine.arena)
    ensures r.Success? && e.arena[current].Position() == source ==>
              GB.FirstMoveCovered(r.value.bounds, source, e.arena[n].Position())
    ensures r.Failure? ==> FloodError(h, e, r.error)
  {
    match ProcessChildNode(e, h, current, n)
    case Failure(err) => Failure(err)
    case Success(e1) =>
      RelaxStep(e, b, source, h, current, n);
      var labelled :=
        if e1.arena[current].Position() == source then PopulateStep(e1, b, source, n)
        else PropagateStep(e1, b, source, current, n);
      match labelled
      case Failure(err) => Failure(err)
      case Success(f) =>
        FloodStepTrans(e, b, source, Flood(e1, b), f);
        Success(f)
  }

  /** The neighbour loop of one flood-fill expansion. */
  function LabelAll(e: Engine<ListSets>, b: GB.Bounds, source: Coord, h: Heuristic, current: RecId, nbrs: seq<RecId>): (r: Result<Flood>)
    requires Wf(e) && current in e.arena && forall i | 0 <= i < |nbrs| :: nbrs[i] in e.arena
    ensures r.Success? ==> FloodStep(e, b, source, r.value)
    ensures r.Success? && e.arena[current].Position() != source ==> KeepsEdges(e.arena, r.value.engine.arena)
    ensures r.Success? && e.arena[current].Position() == source ==>
              forall i | 0 <= i < |nbrs| :: GB.FirstMoveCovered(r.value.bounds, source, e.arena[nbrs[i]].Position())
    ensures r.Failure? ==> FloodError(h, e, r.error)
    decreases |nbrs|
  {
    if |nbrs| == 0 then
      FloodStepRefl(e, b, source);
      Success(Flood(e, b))
    else
      match LabelNeighbour(e, b, source, h, current, nbrs[0])
      case Failure(err) => Failure(err)
      case Success(f1) =>
        match LabelAll(f1.engine, f1.bounds, source, h, current, nbrs[1..])
        case Failure(err) => Failure(err)
        case Success(f2) =>
          FloodStepTrans(e, b, source, f1, f2);
          if e.arena[current].Position() == source then
            LabelAllCovers(e, source, nbrs, f1, f2);
            Success(f2)
          else
            Success(f2)
  }

  /** The first neighbour's box, covered after its own step, stays covered
      while the rest are labelled; the others keep their positions. */
  lemma LabelAllCovers(e: Engine<ListSets>, source: Coord, nbrs: seq<RecId>, f1: Flood, f2: Flood)
    requires |nbrs| > 0 && forall i | 0 <= i < |nbrs| :: nbrs[i] in e.arena
    requires SameNodes(e.arena, f1.engine.arena) && GB.BoundsEnclose(f1.bounds, f2.bounds)
    requires GB.FirstMoveCovered(f1.bounds, source, e.arena[nbrs[0]].Position())
    requires forall i | 0 <= i < |nbrs[1..]| ::
               GB.FirstMoveCovered(f2.bounds, source, f1.engine.arena[nbrs[1..][i]].Position())
    ensures forall i | 0 <= i < |nbrs| :: GB.FirstMoveCovered(f2.bounds, source, e.arena[nbrs[i]].Position())
  {
    GB.FirstMoveCoveredMono(f1.bounds, f2.bounds, source, e.arena[nbrs[0]].Position());
    forall i | 0 < i < |nbrs|
      ensures GB.FirstMoveCovered(f2.bounds, source, e.arena[nbrs[i]].Position())
    {
      assert nbrs[1..][i - 1] == nbrs[i];
    }
  }

  /** One round of `Floodfill` on a non-empty open list: take the best record,
      close it, write it into its cell, label its neighbours. */
  function FloodRound(e: Engine<ListSets>, b: GB.Bounds, source: Coord, h: Heuristic): (r: Result<Flood>)
    requires Wf(e) && |e.sets.open| > 0
    ensures r.Success? ==> FloodStep(e, b, source, r.value)
    ensures r.Failure? ==> FloodError(h, e, r.error)
  {
    var popped := L.GetBestAndRemove(e.sets.open, e.arena);
    PopWf(e);
    var e1 := e.(sets := e.sets.(open := popped.1));
    var r := CloseAndLabel(e1, b, source, h, popped.0);
    if r.Success? then PopFloodStep(e, e1, b, source, r.value); r else r
  }

  /** The rest of a round once the best record is off the open list. */
  function CloseAndLabel(e: Engine<ListSets>, b: GB.Bounds, source: Coord, h: Heuristic, best: RecId): (r: Result<Flood>)
    requires Wf(e) && best in e.arena
    requires !L.HasPosition(e.sets.open, e.arena, e.arena[best].Position())
    requires !ClosedHas(e.sets.closed, e.arena, e.arena[best].Position())
    ensures r.Success? ==> FloodStep(e, b, source, r.value)
    ensures r.Failure? ==> FloodError(h, e, r.error)
  {
    var e2 := Close(e, best);
    CloseStep(e, b, source, best);
    var labelled := LabelAll(e2, b, source, h, best, GetNeighbourList(e2, best));
    if labelled.Failure? then labelled
    else
      FloodStepTrans(e, b, source, Flood(e2, b), labelled.value);
      labelled
  }

  /** The first round of a fill whose open list holds one record, at the
      source: that record is the one expanded, so every walkable king
      neighbour of the source gets its first move's label and lies in that
      box. */
  lemma FirstRoundCovers(e: Engine<ListSets>, b: GB.Bounds, source: Coord, h: Heuristic)
    requires Wf(e) && |e.sets.open| == 1 && e.arena[e.sets.open[0]].Position() == source
    requires FloodRound(e, b, source, h).Success?
    ensures forall p | e.OnGrid(p) && Chebyshev(source, p) == 1 && WalkableAt(e.arena, p) ::
              GB.FirstMoveCovered(FloodRound(e, b, source, h).value.bounds, source, p)
  {
    var s := e.sets.open[0];
    var popped := L.GetBestAndRemove(e.sets.open, e.arena);
    assert popped.0 == s;
    PopWf(e);
    var e1 := e.(sets := e.sets.(open := popped.1));
    var e2 := Close(e1, s);
    var nbrs := GetNeighbourList(e2, s);
    GetNeighbourListExact(e2, s);
    var f := LabelAll(e2, b, source, h, s, nbrs).value;
    assert FloodRound(e, b, source, h).value == f;
    forall p | e.OnGrid(p) && Chebyshev(source, p) == 1 && WalkableAt(e.arena, p)
      ensures GB.FirstMoveCovered(f.bounds, source, p)
    {
      var id := e2.CellAt(p);
      assert e2.arena[id].isWalkable;
      assert id in nbrs;
      var i :| 0 <= i < |nbrs| && nbrs[i] == id;
    }
  }

  /** Taking a record off the open list moves nothing a flood step speaks of. */
  lemma PopFloodStep(e: Engine<ListSets>, e1: Engine<ListSets>, b: GB.Bounds, source: Coord, f: Flood)
    requires e1 == e.(sets := e.sets.(open := e1.sets.open))
    requires FloodStep(e1, b, source, f)
    ensures FloodStep(e, b, source, f)
  {
  }

  /** Closing the popped record and writing it into its cell moves no edge. */
  lemma CloseStep(e: Engine<ListSets>, b: GB.Bounds, source: Coord, best: RecId)
    requires Wf(e) && best in e.arena
    requires !L.HasPosition(e.sets.open, e.arena, e.arena[best].Position())
    requires !ClosedHas(e.sets.closed, e.arena, e.arena[best].Position())
    ensures FloodStep(e, b, source, Flood(Close(e, best), b))
  {
  }

  /** `Floodfill`: rounds until the open list is empty. The source never
      increments its `ProcessedNodes`, so its budget test never fails and the
      call returns only with the map filled (or an exception); `fuel` bounds
      the number of rounds instead. */
  function FloodFrom(e: Engine<ListSets>, b: GB.Bounds, source: Coord, h: Heuristic, fuel: nat): (r: Result<Flood>)
    requires Wf(e)
    ensures r.Success? ==> FloodStep(e, b, source, r.value) && |r.value.engine.sets.open| == 0
    ensures r.Failure? ==> FloodError(h, e, r.error)
    decreases fuel
  {
    if |e.sets.open| == 0 then
      FloodStepRefl(e, b, source);
      Success(Flood(e, b))
    else if fuel == 0 then
      Failure(OutOfFuel)
    else
      match FloodRound(e, b, source, h)
      case Failure(err) => Failure(err)
      case Success(f1) =>
        match FloodFrom(f1.engine, f1.bounds, source, h, fuel - 1)
        case Failure(err) => Failure(err)
        case Success(f2) =>
          FloodStepTrans(e, b, source, f1, f2);
          Success(f2)
  }

  /** A fill that starts from one open record at the source covers, in the
      table it ends with, every walkable king neighbour of the source: the
      first round labels them, and the later rounds only grow boxes. */
  lemma FillCovers(e: Engine<ListSets>, b: GB.Bounds, source: Coord, h: Heuristic, fuel: nat)
    requires Wf(e) && |e.sets.open| == 1 && e.arena[e.sets.open[0]].Position() == source
    requires FloodFrom(e, b, source, h, fuel).Success?
    ensures forall p | e.OnGrid(p) && Chebyshev(source, p) == 1 && WalkableAt(e.arena, p) ::
              GB.FirstMoveCovered(FloodFrom(e, b, source, h, fuel).value.bounds, source, p)
  {
    var f1 := FloodRound(e, b, source, h).value;
    FirstRoundCovers(e, b, source, h);
    var f2 := FloodFrom(f1.engine, f1.bounds, source, h, fuel - 1).value;
    assert FloodFrom(e, b, source, h, fuel).value == f2;
    forall p | e.OnGrid(p) && Chebyshev(source, p) == 1 && WalkableAt(e.arena, p)
      ensures GB.FirstMoveCovered(f2.bounds, source, p)
    {
      GB.FirstMoveCoveredMono(f1.bounds, f2.bounds, source, p);
    }
  }

  /** The records the grid holds. */
  function CellIds<S>(e: Engine<S>): (ids: set<RecId>)
    requires e.grid.Valid()
    ensures forall x, y | 0 <= x < e.grid.width && 0 <= y < e.grid.height :: e.grid.cells[x][y] in ids
  {
    set x, y | 0 <= x < e.grid.width && 0 <= y < e.grid.height :: e.grid.cells[x][y]
  }

  /** `ResetMapPreprocess`: every record the grid holds gets back the search
      fields of a fresh record, goal-bound edge included; records off the
      grid are not touched. */
  function ResetMapPreprocess<S>(e: Engine<S>): (r: Engine<S>)
    requires e.CellsWf()
    ensures r == e.(arena := r.arena) && r.CellsWf() && SameNodes(e.arena, r.arena)
    ensures forall c | e.OnGrid(c) :: r.arena[e.CellAt(c)] == e.arena[e.CellAt(c)].Reset()
    ensures forall c | e.OnGrid(c) ::
              var n := r.arena[e.CellAt(c)];
              n.bestGoalBoundEdge == NoEdge && n.status == Unvisited && n.parent.None? && n.gCost == UnreachedCost
    ensures forall id | id in e.arena && id !in CellIds(e) :: r.arena[id] == e.arena[id]
  {
    ResetArenaSpec(e);
    e.(arena := ResetArena(e))
  }

  function ResetArena<S>(e: Engine<S>): Arena
    requires e.grid.Valid()
  {
    map id | id in e.arena :: if id in CellIds(e) then e.arena[id].Reset() else e.arena[id]
  }

  lemma ResetArenaSpec<S>(e: Engine<S>)
    requires e.CellsWf()
    ensures var a := ResetArena(e);
            && SameNodes(e.arena, a)
            && (forall id | id in e.arena && id in CellIds(e) :: a[id] == e.arena[id].Reset())
            && (forall id | id in e.arena && id !in CellIds(e) :: a[id] == e.arena[id])
            && e.(arena := a).CellsWf()
  {
    ResetArenaNodes(e);
    ResetArenaCells(e);
  }

  lemma ResetArenaNodes<S>(e: Engine<S>)
    requires e.CellsWf()
    ensures var a := ResetArena(e);
            && SameNodes(e.arena, a)
            && (forall id | id in e.arena && id in CellIds(e) :: a[id] == e.arena[id].Reset())
            && (forall id | id in e.arena && id !in CellIds(e) :: a[id] == e.arena[id])
            && (forall id | id in a :: a[id].parent.None? || a[id].parent == e.arena[id].parent)
  {
  }

  lemma ResetArenaCells<S>(e: Engine<S>)
    requires e.CellsWf()
    ensures e.(arena := ResetArena(e)).CellsWf()
  {
    var a := ResetArena(e);
    ResetArenaNodes(e);
    SameParentsStored(e.arena, a);
    ArenaSwapCellsWf(e, a);
  }

  /** Resetting is idempotent. */
  lemma ResetMapPreprocessTwice<S>(e: Engine<S>)
    requires e.CellsWf()
    ensures ResetMapPreprocess(ResetMapPreprocess(e)) == ResetMapPreprocess(e)
  {
    var r := ResetMapPreprocess(e);
    var r2 := ResetMapPreprocess(r);
    assert CellIds(r) == CellIds(e);
    forall id | id in r.arena
      ensures r2.arena[id] == r.arena[id]
    {
      if id in CellIds(e) {
        var x, y :| 0 <= x < e.grid.width && 0 <= y < e.grid.height && e.grid.cells[x][y] == id;
        assert e.CellAt(Coord(x, y)) == id;
        ResetIdempotent(e.arena[id]);
      }
    }
  }

  /** The list sets read positions only, so the reset keeps the invariant. */
  lemma ResetWf(e: Engine<ListSets>)
    requires Wf(e)
    ensures Wf(ResetMapPreprocess(e))
  {
    SetsWfFrame(e.sets, e.arena, ResetMapPreprocess(e).arena);
  }

  /** `InitializePrecomputation`: look up the start cell; if it is on the grid,
      zero the counters and restart the open list with a fresh record at the
      start with g = h = 0 and the closed set empty. Unlike
      `InitializePathfindingSearch` it leaves the goal and `InProgress` alone. */
  function InitializePrecomputation(e: Engine<ListSets>, startX: int, startY: int): (r: Engine<ListSets>)
    requires Wf(e)
    ensures Wf(r)
    ensures r.startX == startX && r.startY == startY
    ensures r.startNode.Some? <==> e.OnGrid(Coord(startX, startY))
    ensures r.startNode.Some? ==> r.startNode.value == e.CellAt(Coord(startX, startY))
    ensures r.grid == e.grid && r.nodesPerSearch == e.nodesPerSearch && r.goalNode == e.goalNode
    ensures r.inProgress == e.inProgress && r.goalX == e.goalX && r.goalY == e.goalY
    ensures r.startNode.None? ==> r == e.(startX := startX, startY := startY, startNode := None)
    ensures r.startNode.Some? ==>
              var start := e.arena[e.CellAt(Coord(startX, startY))];
              && r.totalProcessedNodes == 0 && r.maxOpenNodes == 0
              && e.next !in e.arena && r.next == e.next + 1
              && r.sets.open == [e.next]
              && ClosedSize(r.sets.closed) == 0 && r.sets.closed.ClosedList? == e.sets.closed.ClosedList?
              && r.arena == e.arena[e.next := InitialRecord(start, 0)]
  {
    var e1 := e.(startX := startX, startY := startY, startNode := e.grid.GetGridObject(startX, startY));
    if e1.startNode.None? then
      e1
    else
      var start := e.arena[e1.startNode.value];
      var r := e1.(totalProcessedNodes := 0, maxOpenNodes := 0,
                   arena := e.arena[e.next := InitialRecord(start, 0)], next := e.next + 1,
                   sets := ListSets([e.next], InitializeClosed(e.sets.closed)));
      InitWf(e, r);
      r
  }

  /** The four direction names. */
  const DirectionSet: set<string> := {"up", "down", "left", "right"}

  /** Cell a comes before cell b in the preprocessing loops: rows (y) outer,
      columns (x) inner. */
  predicate RowMajorBefore(a: Coord, b: Coord) {
    a.y < b.y || (a.y == b.y && a.x < b.x)
  }

  /** The cells `MapPreprocess` visits, in its loop order: every cell of a
      width×height grid once, row by row. */
  function PreprocessOrder(width: nat, height: nat): (r: seq<Coord>)
    ensures |r| == width * height
    ensures forall c :: c in r <==> InBounds(c, width, height)
    ensures forall i, j | 0 <= i < j < |r| :: RowMajorBefore(r[i], r[j])
    ensures width > 0 && height > 0 ==> r[0] == Coord(0, 0)
  {
    if height == 0 then []
    else
      var prev := PreprocessOrder(width, height - 1);
      var row := seq(width, x => Coord(x, height - 1));
      var r := prev + row;
      assert |r| == width * height by {
        assert width * (height - 1) + width == width * height;
      }
      forall c
        ensures c in r <==> InBounds(c, width, height)
      {
        if c.y == height - 1 && 0 <= c.x < width {
          assert row[c.x] == c;
        }
      }
      forall i, j | 0 <= i < j < |r|
        ensures RowMajorBefore(r[i], r[j])
      {
        if j >= |prev| && i < |prev| {
          assert r[i] in prev;
        }
      }
      r
  }

  /** Cells listed in row-major order are distinct. */
  lemma RowMajorDistinct(cells: seq<Coord>)
    requires forall i, j | 0 <= i < j < |cells| :: RowMajorBefore(cells[i], cells[j])
    ensures forall i, j | 0 <= i < j < |cells| :: cells[i] != cells[j]
  {
  }

  /** What preprocessing keeps of the engine. */
  ghost predicate EngineKept(e: Engine<ListSets>, r: Engine<ListSets>) {
    && Wf(r)
    && r.grid.width == e.grid.width && r.grid.height == e.grid.height
    && r.nodesPerSearch == e.nodesPerSearch && r.goalNode == e.goalNode && r.inProgress == e.inProgress
  }

  /** A new entry for c with the four directions, every other entry
      untouched (there was no entry for c), the engine kept, its records
      kept in place and every added record walkable. */
  ghost predicate CellAdded(e: Engine<ListSets>, b: GB.Bounds, c: Coord, f: Flood) {
    && EngineKept(e, f.engine)
    && Grown(e.arena, f.engine.arena) && AddsWalkable(e.arena, f.engine.arena)
    && c !in b && f.bounds.Keys == b.Keys + {c}
    && (forall k | k in b :: f.bounds[k] == b[k])
    && f.bounds[c].Keys == DirectionSet
  }

  /** What the fill from cell c leaves: the open list empty, the records kept
      in place, a new entry for c with the four directions grown out of its
      starting boxes, every other entry untouched (there was no entry for c),
      every record the grid held when the fill began that now carries an
      edge inside that edge's box of c, and every walkable king neighbour of
      c inside the box of its first move. */
  ghost predicate CellDone(e: Engine<ListSets>, b: GB.Bounds, c: Coord, boxes: GB.DirectionBoxes, f: Flood)
    requires Wf(e)
  {
    && CellAdded(e, b, c, f)
    && |f.engine.sets.open| == 0
    && GB.BoundsEnclose(map[c := boxes], f.bounds)
    && (forall p | e.OnGrid(p) ::
          var n := f.engine.arena[e.CellAt(p)];
          n.bestGoalBoundEdge != NoEdge ==> Covered(f.bounds, c, n))
    && (forall p | e.OnGrid(p) && Chebyshev(c, p) == 1 && WalkableAt(e.arena, p) :: GB.FirstMoveCovered(f.bounds, c, p))
  }

  /** The body of the loops of `MapPreprocess` for one cell: register its four
      starting boxes (throwing if the key is already present), reset the grid,
      initialise from the cell and flood-fill with the zero heuristic. */
  function PreprocessCell(e: Engine<ListSets>, b: GB.Bounds, c: Coord, boxes: GB.DirectionBoxes, fuel: nat): (r: Result<Flood>)
    requires Wf(e) && e.OnGrid(c) && boxes.Keys == DirectionSet
    ensures c in b ==> r == Failure(DuplicateKey)
    ensures r.Failure? ==> r.error in {DuplicateKey, KeyNotFound, OutOfFuel}
    ensures r.Success? ==> CellDone(e, b, c, boxes, r.value)
    ensures r.Success? && AllWalkable(e.arena) ==> AllWalkable(r.value.engine.arena)
  {
    if c in b then Failure(DuplicateKey)
    else
      var b1 := b[c := boxes];
      assert GB.HasAllDirections(boxes) by {
        assert forall i | 0 <= i < |GB.Directions| :: GB.Directions[i] in DirectionSet;
      }
      var e1 := ResetMapPreprocess(e);
      ResetWf(e);
      var e2 := InitializePrecomputation(e1, c.x, c.y);
      ZeroHeuristicTotal();
      match FloodFrom(e2, b1, c, ZeroHeuristic, fuel)
      case Failure(err) => Failure(err)
      case Success(f) =>
        FillKeepsWalkable(e.arena, e1.arena, e1.next, e2.arena[e1.next], f.engine.arena);
        FillCovers(e2, b1, c, ZeroHeuristic, fuel);
        PreprocessCellDone(e, e1, e2, b, c, boxes, f);
        Success(f)
  }

  /** Every grid record had no edge when the fill began, so the fill's
      labelling guarantee covers each grid record that has one at the end. */
  lemma PreprocessCellDone(e: Engine<ListSets>, e1: Engine<ListSets>, e2: Engine<ListSets>, b: GB.Bounds, c: Coord, boxes: GB.DirectionBoxes, f: Flood)
    requires Wf(e) && e.OnGrid(c) && c !in b && e1 == ResetMapPreprocess(e)
    requires Wf(e1) && e2 == InitializePrecomputation(e1, c.x, c.y)
    requires FloodStep(e2, b[c := boxes], c, f) && |f.engine.sets.open| == 0
    requires boxes.Keys == DirectionSet
    requires AddsWalkable(e.arena, f.engine.arena) && forall p :: WalkableAt(e.arena, p) ==> WalkableAt(e2.arena, p)
    requires forall p | e2.OnGrid(p) && Chebyshev(c, p) == 1 && WalkableAt(e2.arena, p) :: GB.FirstMoveCovered(f.bounds, c, p)
    ensures CellDone(e, b, c, boxes, f)
  {
    PreprocessCellGrown(e, e1, e2, c, f.engine);
    PreprocessCellCovered(e, e1, e2, b[c := boxes], c, f);
    PreprocessCellBounds(b, c, boxes, f.bounds);
    assert EngineKept(e, f.engine) by {
      assert Frame(e2, f.engine) && Wf(f.engine);
    }
  }

  /** The table after one cell's fill: a new entry for c grown from its
      starting boxes, the others as they were. */
  lemma PreprocessCellBounds(b: GB.Bounds, c: Coord, boxes: GB.DirectionBoxes, fb: GB.Bounds)
    requires c !in b && boxes.Keys == DirectionSet
    requires GB.BoundsEnclose(b[c := boxes], fb) && SameShape(b[c := boxes], fb)
    requires forall k | k in b[c := boxes] && k != c :: fb[k] == b[c := boxes][k]
    ensures fb.Keys == b.Keys + {c} && fb[c].Keys == DirectionSet
    ensures forall k | k in b :: fb[k] == b[k]
    ensures GB.BoundsEnclose(map[c := boxes], fb)
  {
    var b1 := b[c := boxes];
    forall k | k in b
      ensures fb[k] == b[k]
    {
      assert k != c && b1[k] == b[k];
    }
    assert b1[c] == boxes;
  }

  lemma PreprocessCellCovered(e: Engine<ListSets>, e1: Engine<ListSets>, e2: Engine<ListSets>, b1: GB.Bounds, c: Coord, f: Flood)
    requires Wf(e) && e.OnGrid(c) && e1 == ResetMapPreprocess(e)
    requires Wf(e1) && e2 == InitializePrecomputation(e1, c.x, c.y)
    requires FloodStep(e2, b1, c, f)
    ensures forall p | e.OnGrid(p) ::
              var n := f.engine.arena[e.CellAt(p)];
              n.bestGoalBoundEdge != NoEdge ==> Covered(f.bounds, c, n)
  {
    forall p | e.OnGrid(p)
      ensures var n := f.engine.arena[e.CellAt(p)];
              n.bestGoalBoundEdge != NoEdge ==> Covered(f.bounds, c, n)
    {
      var id := e.CellAt(p);
      assert e1.arena[id].bestGoalBoundEdge == NoEdge;
      assert id in e2.arena && e2.arena[id] == e1.arena[id];
    }
  }

  /** Reset and flood keep walkability, and the one record initialisation
      adds is walkable: a fill over an all-walkable arena leaves it so, and
      a position all of whose records are walkable stays so. */
  lemma FillKeepsWalkable(a: Arena, a1: Arena, n: RecId, r: NodeRecord, a3: Arena)
    requires SameNodes(a, a1) && r.isWalkable && SameNodes(a1[n := r], a3)
    ensures AllWalkable(a) ==> AllWalkable(a3)
    ensures AddsWalkable(a, a3)
    ensures forall p :: WalkableAt(a, p) ==> WalkableAt(a1[n := r], p)
  {
  }

  /** Reset and flood keep every record in place; initialisation adds one
      fresh record at the cell's position with the cell's index. */
  lemma PreprocessCellGrown(e: Engine<ListSets>, e1: Engine<ListSets>, e2: Engine<ListSets>, c: Coord, r: Engine<ListSets>)
    requires Wf(e) && e.OnGrid(c) && e1 == ResetMapPreprocess(e)
    requires Wf(e1) && e2 == InitializePrecomputation(e1, c.x, c.y)
    requires SameNodes(e2.arena, r.arena)
    ensures Grown(e.arena, r.arena)
  {
    SameNodesGrown(e.arena, e1.arena);
    GrownByCopy(e1.arena, e1.next, e2.arena[e1.next], e1.CellAt(c));
    SameNodesGrown(e2.arena, r.arena);
    GrownTransitive(e.arena, e1.arena, e2.arena);
    GrownTransitive(e.arena, e2.arena, r.arena);
  }

  /** What the loops leave after the cells `cells`, down to every walkable
      king neighbour of a listed cell lying in the box of its first move. */
  ghost predicate CellsDone(e: Engine<ListSets>, b: GB.Bounds, cells: seq<Coord>, f: Flood) {
    && EngineKept(e, f.engine)
    && Grown(e.arena, f.engine.arena) && AddsWalkable(e.arena, f.engine.arena)
    && (forall i, j | 0 <= i < j < |cells| :: cells[i] != cells[j])
    && (forall c | c in cells :: c !in b)
    && f.bounds.Keys == b.Keys + (set c | c in cells)
    && (forall k | k in b :: f.bounds[k] == b[k])
    && (forall c | c in cells :: f.bounds[c].Keys == DirectionSet)
    && CellsCovered(e, cells, f.bounds)
  }

  /** Every walkable king neighbour of a listed cell lies in the box of its
      first move from that cell. */
  ghost predicate CellsCovered(e: Engine<ListSets>, cells: seq<Coord>, b: GB.Bounds) {
    forall c, p | c in cells && e.OnGrid(p) && Chebyshev(c, p) == 1 && WalkableAt(e.arena, p) ::
      GB.FirstMoveCovered(b, c, p)
  }

  /** The loops of `MapPreprocess` over a list of cells. */
  function PreprocessCells(e: Engine<ListSets>, b: GB.Bounds, cells: seq<Coord>, fuel: nat): (r: Result<Flood>)
    requires Wf(e) && forall c | c in cells :: e.OnGrid(c)
    ensures |cells| > 0 && cells[0] in b ==> r == Failure(DuplicateKey)
    ensures r.Failure? ==> r.error in {DuplicateKey, KeyNotFound, OutOfFuel}
    ensures r.Success? ==> CellsDone(e, b, cells, r.value)
    decreases |cells|
  {
    if |cells| == 0 then
      assert (set c | c in cells) == {};
      SameNodesGrown(e.arena, e.arena);
      Success(Flood(e, b))
    else
      TailOnGrid(e, e, cells);
      var first := PreprocessCell(e, b, cells[0], GB.EmptySideBoxes(cells[0]), fuel);
      if first.Failure? then Failure(first.error)
      else
        var f := first.value;
        TailOnGrid(e, f.engine, cells);
        var rest := PreprocessCells(f.engine, f.bounds, cells[1..], fuel);
        if rest.Failure? then Failure(rest.error)
        else
          PreprocessCellsStep(e, b, cells, f, rest.value);
          rest
  }

  /** The cells after the first are on the grid of any engine with the
      same dimensions. */
  lemma TailOnGrid<S, T>(e: Engine<S>, e': Engine<T>, cells: seq<Coord>)
    requires |cells| > 0 && forall c | c in cells :: e.OnGrid(c)
    requires e'.grid.width == e.grid.width && e'.grid.height == e.grid.height
    ensures e.OnGrid(cells[0]) && forall c | c in cells[1..] :: e'.OnGrid(c)
  {
    assert cells[0] in cells;
    assert forall c | c in cells[1..] :: c in cells;
  }

  lemma PreprocessCellsStep(e: Engine<ListSets>, b: GB.Bounds, cells: seq<Coord>, f1: Flood, f2: Flood)
    requires |cells| > 0 && CellAdded(e, b, cells[0], f1) && CellsDone(f1.engine, f1.bounds, cells[1..], f2)
    requires forall p | e.OnGrid(p) && Chebyshev(cells[0], p) == 1 && WalkableAt(e.arena, p) ::
               GB.FirstMoveCovered(f1.bounds, cells[0], p)
    ensures CellsDone(e, b, cells, f2)
  {
    GrownTransitive(e.arena, f1.engine.arena, f2.engine.arena);
    CellsCoveredStep(e, cells, f1, f2);
    assert f1.bounds.Keys == b.Keys + {cells[0]} && f1.bounds[cells[0]].Keys == DirectionSet;
    assert forall k | k in b :: f1.bounds[k] == b[k];
    ConsDistinct(b, f1.bounds, cells);
    ConsKeys(b, f1.bounds, f2.bounds, cells);
    assert EngineKept(e, f2.engine);
  }

  /** The first cell's entry is not touched by the later fills, and a
      position all of whose records are walkable stays so for them. */
  lemma CellsCoveredStep(e: Engine<ListSets>, cells: seq<Coord>, f1: Flood, f2: Flood)
    requires |cells| > 0 && EngineKept(e, f1.engine)
    requires Grown(e.arena, f1.engine.arena) && AddsWalkable(e.arena, f1.engine.arena)
    requires Grown(f1.engine.arena, f2.engine.arena) && AddsWalkable(f1.engine.arena, f2.engine.arena)
    requires cells[0] in f1.bounds && forall k | k in f1.bounds :: k in f2.bounds && f2.bounds[k] == f1.bounds[k]
    requires forall p | e.OnGrid(p) && Chebyshev(cells[0], p) == 1 && WalkableAt(e.arena, p) ::
               GB.FirstMoveCovered(f1.bounds, cells[0], p)
    requires CellsCovered(f1.engine, cells[1..], f2.bounds)
    ensures AddsWalkable(e.arena, f2.engine.arena)
    ensures CellsCovered(e, cells, f2.bounds)
  {
    forall c, p | c in cells && e.OnGrid(p) && Chebyshev(c, p) == 1 && WalkableAt(e.arena, p)
      ensures GB.FirstMoveCovered(f2.bounds, c, p)
    {
      if c == cells[0] {
        assert GB.FirstMoveCovered(f1.bounds, c, p);
      } else {
        assert c in cells[1..];
        WalkableAtGrown(e.arena, f1.engine.arena, p);
        assert f1.engine.OnGrid(p);
      }
    }
  }

  lemma ConsDistinct(b: GB.Bounds, b1: GB.Bounds, cells: seq<Coord>)
    requires |cells| > 0 && cells[0] !in b && b1.Keys == b.Keys + {cells[0]}
    requires forall i, j | 0 <= i < j < |cells[1..]| :: cells[1..][i] != cells[1..][j]
    requires forall c | c in cells[1..] :: c !in b1
    ensures forall i, j | 0 <= i < j < |cells| :: cells[i] != cells[j]
    ensures forall c | c in cells :: c !in b
  {
    forall i, j | 0 <= i < j < |cells|
      ensures cells[i] != cells[j]
    {
      if i > 0 {
        assert cells[i] == cells[1..][i - 1] && cells[j] == cells[1..][j - 1];
      } else {
        assert cells[j] in cells[1..];
      }
    }
    forall c | c in cells
      ensures c !in b
    {
      if c != cells[0] {
        var i :| 0 <= i < |cells| && cells[i] == c;
        assert cells[1..][i - 1] == c;
      }
    }
  }

  lemma ConsKeys(b: GB.Bounds, b1: GB.Bounds, b2: GB.Bounds, cells: seq<Coord>)
    requires |cells| > 0 && cells[0] !in b
    requires b1.Keys == b.Keys + {cells[0]} && (forall k | k in b :: b1[k] == b[k]) && b1[cells[0]].Keys == DirectionSet
    requires b2.Keys == b1.Keys + (set c | c in cells[1..])
    requires forall k | k in b1 :: b2[k] == b1[k]
    requires forall c | c in cells[1..] :: b2[c].Keys == DirectionSet
    ensures b2.Keys == b.Keys + (set c | c in cells)
    ensures forall k | k in b :: b2[k] == b[k]
    ensures forall c | c in cells :: b2[c].Keys == DirectionSet
  {
    forall c | c in cells
      ensures b2[c].Keys == DirectionSet
    {
      if c != cells[0] {
        var i :| 0 <= i < |cells| && cells[i] == c;
        assert cells[1..][i - 1] == c;
      }
    }
    assert (set c | c in cells) == {cells[0]} + (set c | c in cells[1..]);
  }

  /** `GoalBoundAStarPathfinding`'s state: the list engine, the goal-bounds
      table and `PreComputationInProgress`. The heuristic is a parameter of
      each operation, so the swap to `ZeroHeuristic` during preprocessing is
      the zero heuristic being passed to the flood fill. */
  datatype GoalBoundEngine = GoalBoundEngine(engine: Engine<ListSets>, bounds: GB.Bounds, preComputationInProgress: bool)

  /** `MapPreprocess`: the per-cell body over every cell, rows outer. An
      exception leaves `PreComputationInProgress` set in the source; here it
      ends the operation. On success every cell of the grid has an entry with
      the four directions, entries that were there before are untouched, and
      in the entry of each cell the box of the first move to each walkable
      king neighbour takes that neighbour in; a cell that already had an
      entry makes `Dictionary.Add` throw. */
  function MapPreprocess(g: GoalBoundEngine, fuel: nat): (r: Result<GoalBoundEngine>)
    requires Wf(g.engine)
    ensures r.Failure? ==> r.error in {DuplicateKey, KeyNotFound, OutOfFuel}
    ensures g.engine.OnGrid(Coord(0, 0)) && Coord(0, 0) in g.bounds ==> r == Failure(DuplicateKey)
    ensures r.Success? ==>
              && Wf(r.value.engine) && !r.value.preComputationInProgress
              && r.value.engine.grid.width == g.engine.grid.width && r.value.engine.grid.height == g.engine.grid.height
              && r.value.engine.goalNode == g.engine.goalNode && r.value.engine.inProgress == g.engine.inProgress
              && (forall c | g.engine.OnGrid(c) :: c !in g.bounds && c in r.value.bounds && r.value.bounds[c].Keys == DirectionSet)
              && (forall k | k in r.value.bounds :: k in g.bounds || g.engine.OnGrid(k))
              && g.bounds.Keys <= r.value.bounds.Keys
              && (forall k | k in g.bounds :: r.value.bounds[k] == g.bounds[k])
    ensures r.Success? ==>
              forall c, p | g.engine.OnGrid(c) && g.engine.OnGrid(p) && Chebyshev(c, p) == 1 && WalkableAt(g.engine.arena, p) ::
                GB.FirstMoveCovered(r.value.bounds, c, p)
  {
    var order := PreprocessOrder(g.engine.grid.width, g.engine.grid.height);
    match PreprocessCells(g.engine, g.bounds, order, fuel)
    case Failure(err) => Failure(err)
    case Success(f) =>
      MapPreprocessDone(g, order, f);
      Success(GoalBoundEngine(f.engine, f.bounds, false))
  }

  lemma MapPreprocessDone(g: GoalBoundEngine, order: seq<Coord>, f: Flood)
    requires Wf(g.engine) && order == PreprocessOrder(g.engine.grid.width, g.engine.grid.height)
    requires CellsDone(g.engine, g.bounds, order, f)
    ensures forall c | g.engine.OnGrid(c) :: c !in g.bounds && c in f.bounds && f.bounds[c].Keys == DirectionSet
    ensures forall k | k in f.bounds :: k in g.bounds || g.engine.OnGrid(k)
    ensures forall c, p | g.engine.OnGrid(c) && g.engine.OnGrid(p) && Chebyshev(c, p) == 1 && WalkableAt(g.engine.arena, p) ::
              GB.FirstMoveCovered(f.bounds, c, p)
  {
    OrderCovered(g.engine, order, f.bounds);
    forall c | g.engine.OnGrid(c)
      ensures c in order
    {
    }
  }

  /** The loops visit every cell, so the coverage of the visited cells is
      the coverage of the grid. */
  lemma OrderCovered(e: Engine<ListSets>, order: seq<Coord>, b: GB.Bounds)
    requires order == PreprocessOrder(e.grid.width, e.grid.height) && CellsCovered(e, order, b)
    ensures forall c, p | e.OnGrid(c) && e.OnGrid(p) && Chebyshev(c, p) == 1 && WalkableAt(e.arena, p) ::
              GB.FirstMoveCovered(b, c, p)
  {
    forall c, p | e.OnGrid(c) && e.OnGrid(p) && Chebyshev(c, p) == 1 && WalkableAt(e.arena, p)
      ensures GB.FirstMoveCovered(b, c, p)
    {
      assert c in order;
    }
  }

  /** Every record is as walkable as the record the grid holds at its
      position: records at one cell agree, as in an engine fresh from its
      constructor, whose records are all walkable. */
  ghost predicate CellWalkability<S>(e: Engine<S>)
    requires e.CellsWf()
  {
    forall id | id in e.arena :: e.arena[id].isWalkable == e.arena[e.CellAt(e.arena[id].Position())].isWalkable
  }

  /** Then a position's records are all walkable exactly when the cell's
      record is. */
  lemma WalkableAtCell<S>(e: Engine<S>, p: Coord)
    requires e.CellsWf() && CellWalkability(e) && e.OnGrid(p)
    ensures WalkableAt(e.arena, p) <==> e.arena[e.CellAt(p)].isWalkable
  {
  }

  /** On an engine whose records agree with their cells on walkability,
      the table `MapPreprocess` builds holds, in the entry of every cell,
      each walkable king neighbour inside the box of the first move to it. */
  lemma MapPreprocessLabelsNeighbours(g: GoalBoundEngine, fuel: nat)
    requires Wf(g.engine) && CellWalkability(g.engine) && MapPreprocess(g, fuel).Success?
    ensures forall c, p | g.engine.OnGrid(c) && g.engine.OnGrid(p) && Chebyshev(c, p) == 1
                          && g.engine.arena[g.engine.CellAt(p)].isWalkable ::
              GB.FirstMoveCovered(MapPreprocess(g, fuel).value.bounds, c, p)
  {
    forall p | g.engine.OnGrid(p) && g.engine.arena[g.engine.CellAt(p)].isWalkable
      ensures WalkableAt(g.engine.arena, p)
    {
      WalkableAtCell(g.engine, p);
    }
  }

  /** The table is never cleared: on a non-empty grid a second
      `MapPreprocess` throws on its first cell. */
  lemma MapPreprocessTwice(g: GoalBoundEngine, fuel: nat, fuel2: nat)
    requires Wf(g.engine) && g.engine.grid.width > 0 && g.engine.grid.height > 0
    requires MapPreprocess(g, fuel).Success?
    ensures MapPreprocess(MapPreprocess(g, fuel).value, fuel2) == Failure(DuplicateKey)
  {
    assert g.engine.OnGrid(Coord(0, 0));
  }

  /** The constructor: the base engine's grid and sets, an empty table, no
      preprocessing in progress. */
  method NewGoalBoundAStar(width: nat, height: nat, kind: ClosedKind) returns (g: GoalBoundEngine)
    ensures Wf(g.engine) && g.bounds == map[] && !g.preComputationInProgress
    ensures g.engine.grid.width == width && g.engine.grid.height == height
    ensures forall x, y | 0 <= x < width && 0 <= y < height :: g.engine.arena[g.engine.grid.cells[x][y]] == NewNodeRecord(x, y)
    ensures g.engine.sets.open == [] && ClosedSize(g.engine.sets.closed) == 0
    ensures !g.engine.inProgress && g.engine.nodesPerSearch == DefaultNodesPerSearch
    ensures g.engine.startNode.None? && g.engine.goalNode.None?
  {
    var e := NewAStar(width, height, kind);
    g := GoalBoundEngine(e, map[], false);
  }

  /** `GoalBoundAStarPathfinding.Search`: the loop of `Search`, relaxing only
      the neighbours for which `GoalBoundBothInside(StartNode, neighbour,
      GoalNode)` holds, and counting only those. */
  function GoalBoundSearch(g: GoalBoundEngine, h: Heuristic): (r: Outcome)
    requires Wf(g.engine)
    ensures Returned(g.engine, InsideGoalBounds(g.bounds), r)
    ensures r.result.Suspended? ==> g.engine.nodesPerSearch < r.processed <= g.engine.nodesPerSearch + 8
    ensures r.processed <= g.engine.nodesPerSearch + 8
  {
    SearchFrom(g.engine, h, InsideGoalBounds(g.bounds), 0)
  }

  /** The filter lets every cell of the grid through. */
  ghost predicate AdmitsAll(f: NeighbourFilter, e: Engine<ListSets>)
    requires e.CellsWf()
  {
    forall c | e.OnGrid(c) :: Keep(f, e.StartPosition(), e.GoalPosition(), c) == Success(true)
  }

  lemma AdmitsAllFrame(f: NeighbourFilter, e: Engine<ListSets>, e': Engine<ListSets>)
    requires Wf(e) && Wf(e') && Frame(e, e') && AdmitsAll(f, e)
    ensures AdmitsAll(f, e')
  {
    assert e'.StartPosition() == e.StartPosition() && e'.GoalPosition() == e.GoalPosition();
  }

  /** A neighbour loop whose filter admits the whole grid is the unfiltered one. */
  lemma {:induction false} RelaxAllAdmitsAll(e: Engine<ListSets>, h: Heuristic, f: NeighbourFilter, parent: RecId, nbrs: seq<RecId>, processed: nat)
    requires Wf(e) && parent in e.arena && forall i | 0 <= i < |nbrs| :: nbrs[i] in e.arena
    requires AdmitsAll(f, e)
    ensures RelaxAll(e, h, f, parent, nbrs, processed) == RelaxAll(e, h, KeepAll, parent, nbrs, processed)
    decreases |nbrs|
  {
    if |nbrs| > 0 {
      assert e.OnGrid(e.arena[nbrs[0]].Position());
      match RelaxCounted(e, h, parent, nbrs[0])
      case Failure(_) =>
      case Success(e2) =>
        AdmitsAllFrame(f, e, e2);
        RelaxAllAdmitsAll(e2, h, f, parent, nbrs[1..], processed + 1);
    }
  }

  lemma ExpandAdmitsAll(e: Engine<ListSets>, h: Heuristic, f: NeighbourFilter, best: RecId, processed: nat)
    requires Wf(e) && best in e.arena && processed <= e.nodesPerSearch
    requires !L.HasPosition(e.sets.open, e.arena, e.arena[best].Position())
    requires !ClosedHas(e.sets.closed, e.arena, e.arena[best].Position())
    requires AdmitsAll(f, e)
    ensures Expand(e, h, f, best, processed) == Expand(e, h, KeepAll, best, processed)
  {
    var e2 := Close(e, best);
    AdmitsAllFrame(f, e, e2);
    RelaxAllAdmitsAll(e2, h, f, best, GetNeighbourList(e2, best), processed);
  }

  lemma SearchRoundAdmitsAll(e: Engine<ListSets>, h: Heuristic, f: NeighbourFilter, processed: nat)
    requires Wf(e) && processed <= e.nodesPerSearch && |e.sets.open| > 0
    requires AdmitsAll(f, e)
    ensures SearchRound(e, h, f, processed) == SearchRound(e, h, KeepAll, processed)
  {
    var popped := L.GetBestAndRemove(e.sets.open, e.arena);
    var best := popped.0;
    PopWf(e);
    var e1 := e.(sets := e.sets.(open := popped.1));
    AdmitsAllFrame(f, e, e1);
    if !(e.goalNode.Some? && e.arena[best].Equals(e.arena[e.goalNode.value])) {
      ExpandAdmitsAll(e1, h, f, best, processed);
    }
  }

  /** When the filter admits the whole grid, the filtered loop is the
      unfiltered one: it returns what `AStarPathfinding.Search` returns. */
  lemma {:induction false} SearchFromAdmitsAll(e: Engine<ListSets>, h: Heuristic, f: NeighbourFilter, processed: nat)
    requires Wf(e) && AdmitsAll(f, e)
    ensures SearchFrom(e, h, f, processed) == SearchFrom(e, h, KeepAll, processed)
    decreases if processed <= e.nodesPerSearch then e.nodesPerSearch + 1 - processed else 0, |e.sets.open|
  {
    if processed <= e.nodesPerSearch && |e.sets.open| > 0 {
      SearchRoundAdmitsAll(e, h, f, processed);
      SearchFromStep(e, h, f, processed);
      SearchFromStep(e, h, KeepAll, processed);
      var round := SearchRound(e, h, f, processed);
      if round.Continue? {
        AdmitsAllFrame(f, e, round.engine);
        SearchFromAdmitsAll(round.engine, h, f, round.processed);
      }
    }
  }

  /** Goal bounding that prunes nothing is plain A*: a table whose boxes
      admit every cell of the grid makes the goal-bounded `Search` return
      exactly what the unbounded one does. */
  lemma GoalBoundSearchAdmitsAll(g: GoalBoundEngine, h: Heuristic)
    requires Wf(g.engine) && AdmitsAll(InsideGoalBounds(g.bounds), g.engine)
    ensures GoalBoundSearch(g, h) == Search(g.engine, h)
  {
    SearchFromAdmitsAll(g.engine, h, InsideGoalBounds(g.bounds), 0);
  }
}
