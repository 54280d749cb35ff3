/** `GoalBoundNodeArrayAStarPathfinding`: the node-array engine with the
    goal-bounding preprocessing of `GoalBoundAStarPathfinding`, run over a
    pair of unordered lists of its own (`PreprocessingOpen`,
    `PreprocessingClosed`) so that the node array is left alone. Two things
    differ from the list-based engine: only cells whose grid record is
    walkable are preprocessed, and each cell's four boxes start as the cell
    itself rather than as empty boxes beside it. */
module GoalBoundNodeArrayAStar {
  import opened Common
  import opened NodeRecords
  import opened Movement
  import opened Engines
  import AStar
  import A = NodeRecordArrays
  import NA = NodeArrayAStar
  import GBA = GoalBoundAStar
  import GB = GoalBounds

  /** The engine's state: the node-array engine (grid, arena, counters, the
      array and its heap), the preprocessing lists, the goal-bounds table and
      `PreComputationInProgress`. `PreprocessingHeuristic` is always
      `ZeroHeuristic`, which the fill is given directly. */
  datatype GoalBoundArrayEngine = GoalBoundArrayEngine(
    engine: NA.ArrayEngine,
    preprocessing: AStar.ListSets,
    bounds: GB.Bounds,
    preComputationInProgress: bool)

  /** The node-array invariant, with the preprocessing lists stored in the
      same arena. */
  ghost predicate Wf(g: GoalBoundArrayEngine) {
    NA.Wf(g.engine) && AStar.SetsWf(g.preprocessing, g.engine.arena)
  }

  /** The engine as the preprocessing sees it: the shared grid, arena and
      counters, with the preprocessing lists where the node array was. */
  function Preprocessing(g: GoalBoundArrayEngine): Engine<AStar.ListSets> {
    WithSets(g.engine, g.preprocessing)
  }

  lemma PreprocessingWf(g: GoalBoundArrayEngine)
    requires Wf(g)
    ensures AStar.Wf(Preprocessing(g))
  {
  }

  /** Putting the node array back over a state the preprocessing reached:
      the arena only grew, so the array's slots are still stored and every
      record's index still names the slot of its own position. */
  lemma RestoreWf(e: NA.ArrayEngine, f: Engine<AStar.ListSets>)
    requires NA.Wf(e) && AStar.Wf(f) && Grown(e.arena, f.arena)
    ensures NA.Wf(WithSets(f, e.sets))
  {
    A.CoherentGrown(e.sets, e.arena, f.arena, e.sets.open);
    assert e.sets.(open := e.sets.open) == e.sets;
  }

  /** `InitializePrecomputation`: the list engine's, on the preprocessing
      lists. If the start is on the grid the counters are zeroed, the
      preprocessing open list holds one fresh record at the start (g = h =
      0, the start's index) and the preprocessing closed list is emptied;
      the node array is not touched. */
  function InitializePrecomputation(g: GoalBoundArrayEngine, startX: int, startY: int): (r: GoalBoundArrayEngine)
    requires Wf(g)
    ensures Wf(r)
    ensures Preprocessing(r) == GBA.InitializePrecomputation(Preprocessing(g), startX, startY)
    ensures r.engine.sets == g.engine.sets && r.bounds == g.bounds
    ensures r.preComputationInProgress == g.preComputationInProgress
    ensures r.engine.startNode.Some? <==> g.engine.OnGrid(Coord(startX, startY))
    ensures r.engine.startNode.Some? ==>
              && r.preprocessing.open == [g.engine.next] && AStar.ClosedSize(r.preprocessing.closed) == 0
              && r.engine.arena[g.engine.next].Position() == Coord(startX, startY)
              && r.engine.arena[g.engine.next].gCost == 0 && r.engine.arena[g.engine.next].hCost == 0
  {
    var e := Preprocessing(g);
    var f := GBA.InitializePrecomputation(e, startX, startY);
    InitGrown(e, f, startX, startY);
    RestoreWf(g.engine, f);
    var r := g.(engine := WithSets(f, g.engine.sets), preprocessing := f.sets);
    assert Preprocessing(r) == f;
    r
  }

  lemma InitGrown(e: Engine<AStar.ListSets>, f: Engine<AStar.ListSets>, startX: int, startY: int)
    requires AStar.Wf(e) && f == GBA.InitializePrecomputation(e, startX, startY)
    ensures Grown(e.arena, f.arena)
  {
    if f.startNode.Some? {
      var c := e.CellAt(Coord(startX, startY));
      GrownByCopy(e.arena, e.next, AStar.InitialRecord(e.arena[c], 0), c);
    } else {
      SameNodesGrown(e.arena, f.arena);
    }
  }

  /** `ResetMapPreprocess` (the list engine's, over every grid record) keeps
      the invariant: it changes search fields only. */
  lemma ResetKeepsWf(g: GoalBoundArrayEngine)
    requires Wf(g)
    ensures Wf(g.(engine := GBA.ResetMapPreprocess(g.engine)))
    ensures GBA.ResetMapPreprocess(g.engine).sets == g.engine.sets
  {
    var r := GBA.ResetMapPreprocess(g.engine);
    SameNodesGrown(g.engine.arena, r.arena);
    A.CoherentGrown(g.engine.sets, g.engine.arena, r.arena, g.engine.sets.open);
    assert g.engine.sets.(open := g.engine.sets.open) == g.engine.sets;
    AStar.SetsWfFrame(g.preprocessing, g.engine.arena, r.arena);
  }

  /** Every box of the entry for `k` has four directions and takes in `k`
      itself: what a fill started from point boxes leaves. */
  ghost predicate OwnBoxes(b: GB.Bounds, k: Coord)
    requires k in b
  {
    b[k].Keys == GBA.DirectionSet && forall d | d in b[k] :: b[k][d].Contains(k)
  }

  /** What the loops leave after the cells `cells`: the engine kept, the
      arena only grown by walkable records, the entries that were there
      untouched, every new entry for a listed cell and holding its own cell
      in each box, every listed cell all of whose records are walkable with
      an entry that covers its walkable king neighbours; and over an arena
      of walkable records, every listed cell has an entry. */
  ghost predicate WalkableDone(e: Engine<AStar.ListSets>, b: GB.Bounds, cells: seq<Coord>, f: GBA.Flood) {
    && GBA.EngineKept(e, f.engine)
    && Grown(e.arena, f.engine.arena) && AddsWalkable(e.arena, f.engine.arena)
    && WalkableCovered(e, cells, f.bounds)
    && b.Keys <= f.bounds.Keys
    && (forall k | k in b :: f.bounds[k] == b[k])
    && (forall k | k in f.bounds && k !in b :: k in cells && OwnBoxes(f.bounds, k))
    && (AllWalkable(e.arena) ==> AllWalkable(f.engine.arena) && forall c | c in cells :: c in f.bounds)
  }

  /** Every listed cell all of whose records are walkable has an entry, and
      in it the box of the first move to each walkable king neighbour takes
      that neighbour in. */
  ghost predicate WalkableCovered(e: Engine<AStar.ListSets>, cells: seq<Coord>, b: GB.Bounds) {
    && (forall c | c in cells && WalkableAt(e.arena, c) :: c in b)
    && (forall c, p | c in cells && WalkableAt(e.arena, c) && e.OnGrid(p) && Chebyshev(c, p) == 1 && WalkableAt(e.arena, p) ::
          GB.FirstMoveCovered(b, c, p))
  }

  /** The loops of `MapPreprocess` over a list of cells: a cell whose grid
      record is not walkable is passed over; any other gets its four point
      boxes (throwing if it already has an entry), a reset, an
      initialisation and a fill with the zero heuristic, exactly as in the
      list engine. */
  function PreprocessWalkable(e: Engine<AStar.ListSets>, b: GB.Bounds, cells: seq<Coord>, fuel: nat): (r: Result<GBA.Flood>)
    requires AStar.Wf(e) && forall c | c in cells :: e.OnGrid(c)
    ensures r.Failure? ==> r.error in {DuplicateKey, KeyNotFound, OutOfFuel}
    ensures |cells| > 0 && e.arena[e.CellAt(cells[0])].isWalkable && cells[0] in b ==> r == Failure(DuplicateKey)
    ensures r.Success? ==> WalkableDone(e, b, cells, r.value)
    decreases |cells|
  {
    if |cells| == 0 then
      SameNodesGrown(e.arena, e.arena);
      Success(GBA.Flood(e, b))
    else
      var c := cells[0];
      GBA.TailOnGrid(e, e, cells);
      if !e.arena[e.CellAt(c)].isWalkable then
        match PreprocessWalkable(e, b, cells[1..], fuel)
        case Failure(err) => Failure(err)
        case Success(f) =>
          WalkableSkip(e, b, cells, f);
          Success(f)
      else
        match GBA.PreprocessCell(e, b, c, GB.PointBoxes(c), fuel)
        case Failure(err) => Failure(err)
        case Success(f1) =>
          GBA.TailOnGrid(e, f1.engine, cells);
          match PreprocessWalkable(f1.engine, f1.bounds, cells[1..], fuel)
          case Failure(err) => Failure(err)
          case Success(f2) =>
            PointCellDoneOf(e, b, c, f1);
            WalkableStep(e, b, cells, f1, f2);
            Success(f2)
  }

  lemma WalkableSkip(e: Engine<AStar.ListSets>, b: GB.Bounds, cells: seq<Coord>, f: GBA.Flood)
    requires AStar.Wf(e) && |cells| > 0 && e.OnGrid(cells[0])
    requires !e.arena[e.CellAt(cells[0])].isWalkable
    requires WalkableDone(e, b, cells[1..], f)
    ensures WalkableDone(e, b, cells, f)
  {
    assert forall k | k in cells[1..] :: k in cells;
    assert !WalkableAt(e.arena, cells[0]) by {
      assert e.arena[e.CellAt(cells[0])].Position() == cells[0];
    }
    forall c | c in cells && WalkableAt(e.arena, c)
      ensures c in cells[1..]
    {
    }
  }

  /** What the fill from one cell started from point boxes leaves, in the
      terms the loop needs. */
  ghost predicate PointCellDone(e: Engine<AStar.ListSets>, b: GB.Bounds, c: Coord, f: GBA.Flood) {
    && GBA.CellAdded(e, b, c, f) && c in f.bounds && OwnBoxes(f.bounds, c)
    && forall p | e.OnGrid(p) && Chebyshev(c, p) == 1 && WalkableAt(e.arena, p) :: GB.FirstMoveCovered(f.bounds, c, p)
  }

  lemma PointCellDoneOf(e: Engine<AStar.ListSets>, b: GB.Bounds, c: Coord, f: GBA.Flood)
    requires AStar.Wf(e) && e.OnGrid(c)
    requires GBA.CellDone(e, b, c, GB.PointBoxes(c), f)
    ensures PointCellDone(e, b, c, f)
  {
    PointEntryOwnBoxes(f.bounds, c);
  }

  lemma WalkableStep(e: Engine<AStar.ListSets>, b: GB.Bounds, cells: seq<Coord>, f1: GBA.Flood, f2: GBA.Flood)
    requires |cells| > 0 && PointCellDone(e, b, cells[0], f1)
    requires AllWalkable(e.arena) ==> AllWalkable(f1.engine.arena)
    requires WalkableDone(f1.engine, f1.bounds, cells[1..], f2)
    ensures WalkableDone(e, b, cells, f2)
  {
    var c := cells[0];
    GrownTransitive(e.arena, f1.engine.arena, f2.engine.arena);
    WalkableCoveredStep(e, cells, f1, f2);
    assert f2.bounds[c] == f1.bounds[c];
    forall k | k in f2.bounds && k !in b
      ensures k in cells && OwnBoxes(f2.bounds, k)
    {
      if k != c {
        assert k !in f1.bounds;
        assert k in cells[1..];
      }
    }
    assert forall k | k in cells[1..] :: k in cells;
  }

  /** The first cell's entry is not touched by the later fills, and a
      position all of whose records are walkable stays so for them. */
  lemma WalkableCoveredStep(e: Engine<AStar.ListSets>, cells: seq<Coord>, f1: GBA.Flood, f2: GBA.Flood)
    requires |cells| > 0 && GBA.EngineKept(e, f1.engine)
    requires Grown(e.arena, f1.engine.arena) && AddsWalkable(e.arena, f1.engine.arena)
    requires Grown(f1.engine.arena, f2.engine.arena) && AddsWalkable(f1.engine.arena, f2.engine.arena)
    requires cells[0] in f1.bounds && forall k | k in f1.bounds :: k in f2.bounds && f2.bounds[k] == f1.bounds[k]
    requires forall p | e.OnGrid(p) && Chebyshev(cells[0], p) == 1 && WalkableAt(e.arena, p) ::
               GB.FirstMoveCovered(f1.bounds, cells[0], p)
    requires WalkableCovered(f1.engine, cells[1..], f2.bounds)
    ensures AddsWalkable(e.arena, f2.engine.arena)
    ensures WalkableCovered(e, cells, f2.bounds)
  {
    forall c | c in cells && WalkableAt(e.arena, c)
      ensures c in f2.bounds
    {
      if c != cells[0] {
        assert c in cells[1..];
        WalkableAtGrown(e.arena, f1.engine.arena, c);
      }
    }
    forall c, p | c in cells && WalkableAt(e.arena, c) && e.OnGrid(p) && Chebyshev(c, p) == 1 && WalkableAt(e.arena, p)
      ensures GB.FirstMoveCovered(f2.bounds, c, p)
    {
      if c == cells[0] {
        assert GB.FirstMoveCovered(f1.bounds, c, p);
      } else {
        assert c in cells[1..];
        WalkableAtGrown(e.arena, f1.engine.arena, c);
        WalkableAtGrown(e.arena, f1.engine.arena, p);
        assert f1.engine.OnGrid(p);
      }
    }
  }

  /** An entry enclosing the point boxes of its own cell holds that cell in
      every box. */
  lemma PointEntryOwnBoxes(b: GB.Bounds, c: Coord)
    requires c in b && b[c].Keys == GBA.DirectionSet
    requires GB.BoundsEnclose(map[c := GB.PointBoxes(c)], b)
    ensures OwnBoxes(b, c)
  {
    forall d | d in b[c]
      ensures b[c][d].Contains(c)
    {
      GB.EnclosesContains(GB.PointBoxes(c)[d], b[c][d], c);
    }
  }

  /** No grid record is walkable. */
  ghost predicate NoCellWalkable(e: Engine<AStar.ListSets>)
    requires e.CellsWf()
  {
    forall c | e.OnGrid(c) :: !e.arena[e.CellAt(c)].isWalkable
  }

  /** With no walkable cell the loops register nothing and change nothing. */
  lemma {:induction false} PreprocessNoneWalkable(e: Engine<AStar.ListSets>, b: GB.Bounds, cells: seq<Coord>, fuel: nat)
    requires AStar.Wf(e) && (forall c | c in cells :: e.OnGrid(c)) && NoCellWalkable(e)
    ensures PreprocessWalkable(e, b, cells, fuel) == Success(GBA.Flood(e, b))
    decreases |cells|
  {
    if |cells| > 0 {
      assert cells[0] in cells;
      assert forall d | d in cells[1..] :: d in cells;
      PreprocessNoneWalkable(e, b, cells[1..], fuel);
    }
  }

  /** `MapPreprocess`: the loops over every cell, rows outer, on the
      preprocessing lists; the node array is put back afterwards. An
      exception leaves `PreComputationInProgress` set in the source; here it
      ends the operation. */
  function MapPreprocess(g: GoalBoundArrayEngine, fuel: nat): (r: Result<GoalBoundArrayEngine>)
    requires Wf(g)
    ensures r.Failure? ==> r.error in {DuplicateKey, KeyNotFound, OutOfFuel}
    ensures var e := g.engine;
            e.OnGrid(Coord(0, 0)) && e.arena[e.CellAt(Coord(0, 0))].isWalkable && Coord(0, 0) in g.bounds ==>
              r == Failure(DuplicateKey)
    ensures r.Success? ==>
              && Wf(r.value) && !r.value.preComputationInProgress
              && r.value.engine.sets == g.engine.sets
              && r.value.engine.grid.width == g.engine.grid.width && r.value.engine.grid.height == g.engine.grid.height
              && r.value.engine.goalNode == g.engine.goalNode && r.value.engine.inProgress == g.engine.inProgress
              && g.bounds.Keys <= r.value.bounds.Keys
              && (forall k | k in g.bounds :: r.value.bounds[k] == g.bounds[k])
              && (forall k | k in r.value.bounds && k !in g.bounds :: g.engine.OnGrid(k) && OwnBoxes(r.value.bounds, k))
              && (AllWalkable(g.engine.arena) ==>
                    AllWalkable(r.value.engine.arena) && forall c | g.engine.OnGrid(c) :: c in r.value.bounds)
    ensures r.Success? ==>
              && (forall c | g.engine.OnGrid(c) && WalkableAt(g.engine.arena, c) :: c in r.value.bounds)
              && (forall c, p | g.engine.OnGrid(c) && WalkableAt(g.engine.arena, c) && g.engine.OnGrid(p)
                                && Chebyshev(c, p) == 1 && WalkableAt(g.engine.arena, p) ::
                    GB.FirstMoveCovered(r.value.bounds, c, p))
  {
    var e := Preprocessing(g);
    var order := GBA.PreprocessOrder(e.grid.width, e.grid.height);
    match PreprocessWalkable(e, g.bounds, order, fuel)
    case Failure(err) => Failure(err)
    case Success(f) =>
      OrderWalkableCovered(e, order, f.bounds);
      RestoreWf(g.engine, f.engine);
      var r := GoalBoundArrayEngine(WithSets(f.engine, g.engine.sets), f.engine.sets, f.bounds, false);
      assert forall c | g.engine.OnGrid(c) :: c in order;
      Success(r)
  }

  /** The loops visit every cell, so the coverage of the visited cells is
      the coverage of the grid. */
  lemma OrderWalkableCovered(e: Engine<AStar.ListSets>, order: seq<Coord>, b: GB.Bounds)
    requires order == GBA.PreprocessOrder(e.grid.width, e.grid.height) && WalkableCovered(e, order, b)
    ensures forall c | e.OnGrid(c) && WalkableAt(e.arena, c) :: c in b
    ensures forall c, p | e.OnGrid(c) && WalkableAt(e.arena, c) && e.OnGrid(p) && Chebyshev(c, p) == 1 && WalkableAt(e.arena, p) ::
              GB.FirstMoveCovered(b, c, p)
  {
    forall c | e.OnGrid(c)
      ensures c in order
    {
    }
  }

  /** On an engine whose records agree with their cells on walkability,
      every cell whose record is walkable gets an entry, and in it each
      walkable king neighbour lies in the box of the first move to it. */
  lemma MapPreprocessCoversWalkable(g: GoalBoundArrayEngine, fuel: nat)
    requires Wf(g) && GBA.CellWalkability(g.engine) && MapPreprocess(g, fuel).Success?
    ensures var e, r := g.engine, MapPreprocess(g, fuel).value;
            && (forall c | e.OnGrid(c) && e.arena[e.CellAt(c)].isWalkable :: c in r.bounds)
            && (forall c, p | e.OnGrid(c) && e.arena[e.CellAt(c)].isWalkable && e.OnGrid(p) && Chebyshev(c, p) == 1
                              && e.arena[e.CellAt(p)].isWalkable ::
                  GB.FirstMoveCovered(r.bounds, c, p))
  {
    forall c | g.engine.OnGrid(c) && g.engine.arena[g.engine.CellAt(c)].isWalkable
      ensures WalkableAt(g.engine.arena, c)
    {
      GBA.WalkableAtCell(g.engine, c);
    }
  }

  /** A grid with no walkable cell is left as it was: `MapPreprocess` only
      clears the in-progress flag. */
  lemma MapPreprocessNoneWalkable(g: GoalBoundArrayEngine, fuel: nat)
    requires Wf(g) && NoCellWalkable(Preprocessing(g))
    ensures MapPreprocess(g, fuel) == Success(g.(preComputationInProgress := false))
  {
    var e := Preprocessing(g);
    var order := GBA.PreprocessOrder(e.grid.width, e.grid.height);
    PreprocessNoneWalkable(e, g.bounds, order, fuel);
    assert WithSets(e, g.engine.sets) == g.engine;
  }

  /** The table is never cleared: when every record is walkable, a second
      `MapPreprocess` on a non-empty grid throws on its first cell. */
  lemma MapPreprocessTwice(g: GoalBoundArrayEngine, fuel: nat, fuel2: nat)
    requires Wf(g) && g.engine.grid.width > 0 && g.engine.grid.height > 0 && AllWalkable(g.engine.arena)
    requires MapPreprocess(g, fuel).Success?
    ensures MapPreprocess(MapPreprocess(g, fuel).value, fuel2) == Failure(DuplicateKey)
  {
    var r := MapPreprocess(g, fuel).value;
    assert g.engine.OnGrid(Coord(0, 0)) && r.engine.OnGrid(Coord(0, 0));
  }

  /** The constructor: the node-array engine (with the index counter fresh
      for this instance), empty preprocessing lists, an empty table, no
      preprocessing in progress. */
  method NewGoalBoundNodeArrayAStar(width: nat, height: nat) returns (g: GoalBoundArrayEngine)
    ensures Wf(g) && NA.Built(g.engine, width, height, 0)
    ensures g.preprocessing == AStar.ListSets([], AStar.ClosedList([]))
    ensures g.bounds == map[] && !g.preComputationInProgress
  {
    var e := NA.NewNodeArrayAStar(width, height);
    g := GoalBoundArrayEngine(e, AStar.ListSets([], AStar.ClosedList([])), map[], false);
  }

  /** `Search`: the loop of the node-array engine, relaxing only the
      neighbours for which `GoalBoundBothInside(StartNode, neighbour,
      GoalNode)` holds, and counting only those. On a coherent engine the
      only exceptions are a null start or goal, a missing table entry and an
      unfinished parent walk. */
  ghost function GoalBoundSearch(g: GoalBoundArrayEngine, h: Heuristic): (r: NA.Outcome)
    requires NA.ArrayStored(g.engine)
    ensures NA.Returned(g.engine, AStar.InsideGoalBounds(g.bounds), r)
    ensures r.result.Suspended? ==> g.engine.nodesPerSearch < r.processed <= g.engine.nodesPerSearch + 8
    ensures r.processed <= g.engine.nodesPerSearch + 8
    ensures NA.Coherent(g.engine) ==> NA.Coherent(r.engine)
    ensures NA.Coherent(g.engine) && r.result.Crashed? ==> r.result.error in {NullReference, KeyNotFound, OutOfFuel}
  {
    var r := NA.SearchFrom(g.engine, h, AStar.InsideGoalBounds(g.bounds), 0);
    NA.KeptCoherent(g.engine, r.engine);
    r
  }

  /** The filter lets every cell of the grid through. */
  ghost predicate AdmitsAll(f: AStar.NeighbourFilter, e: NA.ArrayEngine)
    requires e.CellsWf()
  {
    forall c | e.OnGrid(c) :: AStar.Keep(f, e.StartPosition(), e.GoalPosition(), c) == Success(true)
  }

  lemma AdmitsAllFrame(f: AStar.NeighbourFilter, e: NA.ArrayEngine, e': NA.ArrayEngine)
    requires NA.ArrayStored(e) && NA.ArrayStored(e') && NA.Kept(e, e') && AdmitsAll(f, e)
    ensures AdmitsAll(f, e')
  {
    assert e'.StartPosition() == e.StartPosition() && e'.GoalPosition() == e.GoalPosition();
  }

  /** A neighbour loop whose filter admits the whole grid is the unfiltered one. */
  lemma {:induction false} RelaxAllAdmitsAll(e: NA.ArrayEngine, h: Heuristic, f: AStar.NeighbourFilter, parent: RecId, nbrs: seq<RecId>, processed: nat)
    requires NA.ArrayStored(e) && parent in e.arena && forall i | 0 <= i < |nbrs| :: nbrs[i] in e.arena
    requires AdmitsAll(f, e)
    ensures NA.RelaxAll(e, h, f, parent, nbrs, processed) == NA.RelaxAll(e, h, AStar.KeepAll, parent, nbrs, processed)
    decreases |nbrs|
  {
    if |nbrs| > 0 {
      assert e.OnGrid(e.arena[nbrs[0]].Position());
      match NA.RelaxCounted(e, h, parent, nbrs[0])
      case Failure(_) =>
      case Success(e2) =>
        AdmitsAllFrame(f, e, e2);
        RelaxAllAdmitsAll(e2, h, f, parent, nbrs[1..], processed + 1);
    }
  }

  lemma ExpandAdmitsAll(e: NA.ArrayEngine, h: Heuristic, f: AStar.NeighbourFilter, best: RecId, processed: nat)
    requires NA.ArrayStored(e) && best in e.arena && processed <= e.nodesPerSearch
    requires AdmitsAll(f, e)
    ensures NA.Expand(e, h, f, best, processed) == NA.Expand(e, h, AStar.KeepAll, best, processed)
  {
    var e2 := NA.Close(e, best);
    AdmitsAllFrame(f, e, e2);
    RelaxAllAdmitsAll(e2, h, f, best, GetNeighbourList(e2, best), processed);
  }

  lemma SearchRoundAdmitsAll(e: NA.ArrayEngine, h: Heuristic, f: AStar.NeighbourFilter, processed: nat)
    requires NA.ArrayStored(e) && processed <= e.nodesPerSearch && |e.sets.open| > 0
    requires AdmitsAll(f, e)
    ensures NA.SearchRound(e, h, f, processed) == NA.SearchRound(e, h, AStar.KeepAll, processed)
  {
    var popped := A.GetBestAndRemove(e.sets, e.arena);
    var best := popped.0;
    NA.PopStored(e);
    var e1 := e.(sets := popped.1);
    AdmitsAllFrame(f, e, e1);
    if !(e.goalNode.Some? && e.arena[best].Equals(e.arena[e.goalNode.value])) {
      ExpandAdmitsAll(e1, h, f, best, processed);
    }
  }

  lemma {:induction false} SearchFromAdmitsAll(e: NA.ArrayEngine, h: Heuristic, f: AStar.NeighbourFilter, processed: nat)
    requires NA.ArrayStored(e) && AdmitsAll(f, e)
    ensures NA.SearchFrom(e, h, f, processed) == NA.SearchFrom(e, h, AStar.KeepAll, processed)
    decreases if processed <= e.nodesPerSearch then e.nodesPerSearch + 1 - processed else 0, |e.sets.open|
  {
    if processed <= e.nodesPerSearch && A.CountOpen(e.sets) > 0 {
      SearchRoundAdmitsAll(e, h, f, processed);
      NA.SearchFromStep(e, h, f, processed);
      NA.SearchFromStep(e, h, AStar.KeepAll, processed);
      var round := NA.SearchRound(e, h, f, processed);
      if round.Continue? {
        AdmitsAllFrame(f, e, round.engine);
        SearchFromAdmitsAll(round.engine, h, f, round.processed);
      }
    }
  }

  /** Goal bounding that prunes nothing is the plain node-array search: a
      table whose boxes admit every cell of the grid makes `Search` return
      exactly what `NodeArrayAStarPathfinding.Search` returns. */
  lemma GoalBoundSearchAdmitsAll(g: GoalBoundArrayEngine, h: Heuristic)
    requires NA.ArrayStored(g.engine) && AdmitsAll(AStar.InsideGoalBounds(g.bounds), g.engine)
    ensures GoalBoundSearch(g, h) == NA.Search(g.engine, h)
  {
    SearchFromAdmitsAll(g.engine, h, AStar.InsideGoalBounds(g.bounds), 0);
  }
}
