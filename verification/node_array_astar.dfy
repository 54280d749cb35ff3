/** `NodeArrayAStarPathfinding`: the loop of `AStarPathfinding.Search` run over
    a `NodeRecordArray`, which serves as both the open set (its heap) and the
    closed set (its slots' status), with its own `ProcessChildNode`. The heap's
    choices are not fixed by the model, so the engine's functions are ghost. */
module NodeArrayAStar {
  import opened Common
  import opened Grids
  import opened NodeRecords
  import opened Movement
  import opened Engines
  import A = NodeRecordArrays
  import AStar

  type ArrayEngine = Engine<A.NodeRecordArray>

  /** The record grid is well formed and the slots and heap name stored records. */
  ghost predicate ArrayStored(e: ArrayEngine) {
    e.CellsWf() && A.Stored(e.sets, e.arena)
  }

  /** Every record's index names the slot of its own position, so that
      `GetNodeRecord` never leaves the array. */
  ghost predicate Coherent(e: ArrayEngine) {
    A.Coherent(e.sets, e.arena)
  }

  ghost predicate Wf(e: ArrayEngine) {
    ArrayStored(e) && Coherent(e)
  }

  /** `GetNodeRecord` on this record stays inside the array. */
  predicate InRange(e: ArrayEngine, id: RecId)
    requires id in e.arena
  {
    0 <= e.arena[id].index < |e.sets.nodeRecords|
  }

  /** A coherent engine has every record in range. */
  lemma CoherentInRange(e: ArrayEngine, id: RecId)
    requires Coherent(e) && id in e.arena
    ensures InRange(e, id)
  {
  }

  /** The relaxation of the node-array `ProcessChildNode`, with `hn = H(node,
      GoalNode)` already evaluated and the neighbour's slot inside the array:
      a Closed slot the new path does not beat is marked Unvisited, updated
      and added to the heap; otherwise a heap member equal to the neighbour
      that the new path does not beat is updated in place; otherwise an
      Unvisited slot is updated and added to the heap. In every case the grid
      cell is rewritten with the neighbour. */
  ghost function Relax(e: ArrayEngine, hn: nat, parent: RecId, node: RecId): (r: ArrayEngine)
    requires ArrayStored(e) && parent in e.arena && node in e.arena && InRange(e, node)
    ensures AStar.Frame(e, r) && r.sets.nodeRecords == e.sets.nodeRecords
    ensures r.totalProcessedNodes == e.totalProcessedNodes && r.maxOpenNodes == e.maxOpenNodes
    ensures r.inProgress == e.inProgress
    ensures r.grid == e.grid.SetGridObject(e.arena[node].x, e.arena[node].y, node)
  {
    var a := e.arena;
    var g := AStar.OfferedCost(a, parent, node);
    var closedNode := A.SearchInClosed(e.sets, a, node);
    var openNode := A.SearchInOpen(e.sets, a, node);
    var slot := A.GetNodeRecord(e.sets, a, node);
    var grid' := e.grid.SetGridObject(a[node].x, a[node].y, node);
    if closedNode.Some? && a[closedNode.value].fCost >= g + hn then
      var c := closedNode.value;
      var a1 := A.RemoveFromClosed(a, c);
      var added := A.AddToOpen(e.sets, UpdateCosts(a1, c, g, hn, parent), c);
      SameNodesTransitive(a, a1, UpdateCosts(a1, c, g, hn, parent));
      SameNodesTransitive(a, UpdateCosts(a1, c, g, hn, parent), added.1);
      e.(grid := grid', arena := added.1, sets := added.0)
    else if openNode.Some? && a[openNode.value].fCost >= g + hn then
      e.(grid := grid', arena := UpdateCosts(a, openNode.value, g, hn, parent))
    else if a[slot].status == Unvisited then
      var added := A.AddToOpen(e.sets, UpdateCosts(a, slot, g, hn, parent), slot);
      SameNodesTransitive(a, UpdateCosts(a, slot, g, hn, parent), added.1);
      e.(grid := grid', arena := added.1, sets := added.0)
    else
      e.(grid := grid')
  }

  /** What every step of this engine keeps: the list-engine frame and the
      array's slots. */
  ghost predicate Kept(e: ArrayEngine, r: ArrayEngine) {
    AStar.Frame(e, r) && r.sets.nodeRecords == e.sets.nodeRecords
  }

  /** Kept slots and records keep coherence. */
  lemma KeptCoherent(e: ArrayEngine, r: ArrayEngine)
    requires Kept(e, r) && A.Stored(r.sets, r.arena)
    ensures Coherent(e) ==> Coherent(r)
  {
    if Coherent(e) {
      A.CoherentFrame(e.sets, e.arena, r.arena, r.sets.open);
      assert r.sets == e.sets.(open := r.sets.open);
    }
  }

  lemma KeptTransitive(e: ArrayEngine, e1: ArrayEngine, e2: ArrayEngine)
    requires Kept(e, e1) && Kept(e1, e2)
    ensures Kept(e, e2)
  {
    SameNodesTransitive(e.arena, e1.arena, e2.arena);
  }

  /** Relaxation keeps the slots and heap stored. */
  lemma RelaxStored(e: ArrayEngine, hn: nat, parent: RecId, node: RecId)
    requires ArrayStored(e) && parent in e.arena && node in e.arena && InRange(e, node)
    ensures ArrayStored(Relax(e, hn, parent, node))
  {
    var r := Relax(e, hn, parent, node);
    var a := e.arena;
    var g := AStar.OfferedCost(a, parent, node);
    var closedNode := A.SearchInClosed(e.sets, a, node);
    var openNode := A.SearchInOpen(e.sets, a, node);
    var slot := A.GetNodeRecord(e.sets, a, node);
    if closedNode.Some? && a[closedNode.value].fCost >= g + hn {
      var c := closedNode.value;
      StatusParentsStored(a, c, Unvisited);
      UpdateParentsStored(SetStatus(a, c, Unvisited), c, g, hn, parent);
      StatusParentsStored(UpdateCosts(SetStatus(a, c, Unvisited), c, g, hn, parent), c, Open);
      assert r.sets.open == e.sets.open + multiset{c};
    } else if openNode.Some? && a[openNode.value].fCost >= g + hn {
      UpdateParentsStored(a, openNode.value, g, hn, parent);
    } else if a[slot].status == Unvisited {
      UpdateParentsStored(a, slot, g, hn, parent);
      StatusParentsStored(UpdateCosts(a, slot, g, hn, parent), slot, Open);
      assert r.sets.open == e.sets.open + multiset{slot};
    }
    AStar.WriteBackKeepsCells(e, r, node);
  }

  /** The slot `GetNodeRecord` reads for a record in range. */
  function SlotOf(e: ArrayEngine, id: RecId): (s: RecId)
    requires ArrayStored(e) && id in e.arena && InRange(e, id)
    ensures s in e.arena && s == A.GetNodeRecord(e.sets, e.arena, id)
  {
    e.sets.nodeRecords[e.arena[id].index]
  }

  /** After relaxing `node` with its slot `s`: a heap member equal to it has
      an fCost of at most `bound`, or its slot is Closed with an fCost of at
      most `bound`, or its slot is Open while no heap member equals it. */
  ghost predicate HeldAtMost(r: ArrayEngine, node: RecId, s: RecId, bound: int) {
    && node in r.arena && s in r.arena
    && (|| (exists m | m in r.sets.open :: m in r.arena && r.arena[m].Equals(r.arena[node]) && r.arena[m].fCost <= bound)
        || (r.arena[s].status == Closed && r.arena[s].fCost <= bound)
        || (r.arena[s].status == Open &&
            forall m | m in r.sets.open :: m in r.arena && !r.arena[m].Equals(r.arena[node])))
  }

  /** The new path's f value. */
  function NewF(e: ArrayEngine, hn: nat, parent: RecId, node: RecId): int
    requires parent in e.arena && node in e.arena
  {
    AStar.OfferedCost(e.arena, parent, node) + hn
  }

  /** Whichever branch runs, the neighbour's position ends up held no worse
      than the new path, unless its slot is Open without a heap member
      equal to it. */
  lemma RelaxBound(e: ArrayEngine, hn: nat, parent: RecId, node: RecId)
    requires Wf(e) && parent in e.arena && node in e.arena
    ensures InRange(e, node)
    ensures HeldAtMost(Relax(e, hn, parent, node), node, SlotOf(e, node), NewF(e, hn, parent, node))
  {
    CoherentInRange(e, node);
    var a := e.arena;
    var newF := NewF(e, hn, parent, node);
    var s := SlotOf(e, node);
    var openNode := A.SearchInOpen(e.sets, a, node);
    var r := Relax(e, hn, parent, node);
    if a[s].status == Closed && a[s].fCost >= newF {
      ReopenBound(e, hn, parent, node);
    } else if openNode.Some? && a[openNode.value].fCost >= newF {
      UpdateBound(e, hn, parent, node);
    } else if a[s].status == Unvisited {
      OpenSlotBound(e, hn, parent, node);
    } else {
      RelaxKeepOutcome(e, hn, parent, node);
      RelaxKeepBound(e, hn, parent, node);
    }
  }

  lemma ReopenBound(e: ArrayEngine, hn: nat, parent: RecId, node: RecId)
    requires ArrayStored(e) && parent in e.arena && node in e.arena && InRange(e, node)
    requires var s := SlotOf(e, node); e.arena[s].status == Closed && e.arena[s].fCost >= NewF(e, hn, parent, node)
    requires e.arena[SlotOf(e, node)].Equals(e.arena[node])
    ensures HeldAtMost(Relax(e, hn, parent, node), node, SlotOf(e, node), NewF(e, hn, parent, node))
  {
    RelaxReopenOutcome(e, hn, parent, node);
    assert SlotOf(e, node) in Relax(e, hn, parent, node).sets.open;
  }

  lemma UpdateBound(e: ArrayEngine, hn: nat, parent: RecId, node: RecId)
    requires ArrayStored(e) && parent in e.arena && node in e.arena && InRange(e, node)
    requires var s := SlotOf(e, node); !(e.arena[s].status == Closed && e.arena[s].fCost >= NewF(e, hn, parent, node))
    requires var o := A.SearchInOpen(e.sets, e.arena, node); o.Some? && e.arena[o.value].fCost >= NewF(e, hn, parent, node)
    ensures HeldAtMost(Relax(e, hn, parent, node), node, SlotOf(e, node), NewF(e, hn, parent, node))
  {
    RelaxUpdateOutcome(e, hn, parent, node);
    assert A.SearchInOpen(e.sets, e.arena, node).value in Relax(e, hn, parent, node).sets.open;
  }

  lemma OpenSlotBound(e: ArrayEngine, hn: nat, parent: RecId, node: RecId)
    requires ArrayStored(e) && parent in e.arena && node in e.arena && InRange(e, node)
    requires e.arena[SlotOf(e, node)].status == Unvisited
    requires var o := A.SearchInOpen(e.sets, e.arena, node); !(o.Some? && e.arena[o.value].fCost >= NewF(e, hn, parent, node))
    requires e.arena[SlotOf(e, node)].Equals(e.arena[node])
    ensures HeldAtMost(Relax(e, hn, parent, node), node, SlotOf(e, node), NewF(e, hn, parent, node))
  {
    RelaxOpenSlotOutcome(e, hn, parent, node);
    assert SlotOf(e, node) in Relax(e, hn, parent, node).sets.open;
  }

  /** In the branch that changes nothing but the grid, the bound comes from
      the heap's search or from the Closed slot. */
  lemma RelaxKeepBound(e: ArrayEngine, hn: nat, parent: RecId, node: RecId)
    requires Wf(e) && parent in e.arena && node in e.arena && InRange(e, node)
    requires var s := SlotOf(e, node);
             && !(e.arena[s].status == Closed && e.arena[s].fCost >= NewF(e, hn, parent, node))
             && e.arena[s].status != Unvisited
    requires var o := A.SearchInOpen(e.sets, e.arena, node); !(o.Some? && e.arena[o.value].fCost >= NewF(e, hn, parent, node))
    ensures HeldAtMost(e, node, SlotOf(e, node), NewF(e, hn, parent, node))
  {
    var o := A.SearchInOpen(e.sets, e.arena, node);
    if o.Some? {
      assert o.value in e.sets.open;
    }
  }

  /** Reopening: a Closed slot the new path does not beat goes back on the
      heap, Open, with the new costs and parent. */
  lemma RelaxReopenOutcome(e: ArrayEngine, hn: nat, parent: RecId, node: RecId)
    requires ArrayStored(e) && parent in e.arena && node in e.arena && InRange(e, node)
    requires var s := SlotOf(e, node); e.arena[s].status == Closed && e.arena[s].fCost >= NewF(e, hn, parent, node)
    ensures var s := SlotOf(e, node);
            var r := Relax(e, hn, parent, node);
            && r.sets.open == e.sets.open + multiset{s}
            && r.arena[s].status == Open && r.arena[s].parent == Some(parent)
            && r.arena[s].gCost == AStar.OfferedCost(e.arena, parent, node) && r.arena[s].hCost == hn
            && r.arena[s].fCost == NewF(e, hn, parent, node)
            && (forall id | id in e.arena && id != s :: r.arena[id] == e.arena[id])
  {
  }

  /** Updating in place: a heap member equal to the neighbour that the new
      path does not beat takes the new costs and parent; the heap and the
      statuses are unchanged. */
  lemma RelaxUpdateOutcome(e: ArrayEngine, hn: nat, parent: RecId, node: RecId)
    requires ArrayStored(e) && parent in e.arena && node in e.arena && InRange(e, node)
    requires var s := SlotOf(e, node); !(e.arena[s].status == Closed && e.arena[s].fCost >= NewF(e, hn, parent, node))
    requires var o := A.SearchInOpen(e.sets, e.arena, node); o.Some? && e.arena[o.value].fCost >= NewF(e, hn, parent, node)
    ensures var o := A.SearchInOpen(e.sets, e.arena, node).value;
            var r := Relax(e, hn, parent, node);
            && o in e.sets.open && e.arena[o].Equals(e.arena[node])
            && r.sets == e.sets
            && r.arena == UpdateCosts(e.arena, o, AStar.OfferedCost(e.arena, parent, node), hn, parent)
  {
  }

  /** Opening the slot: when neither earlier branch applies and the slot is
      Unvisited, it goes on the heap, Open, with the new costs and parent. */
  lemma RelaxOpenSlotOutcome(e: ArrayEngine, hn: nat, parent: RecId, node: RecId)
    requires ArrayStored(e) && parent in e.arena && node in e.arena && InRange(e, node)
    requires e.arena[SlotOf(e, node)].status == Unvisited
    requires var o := A.SearchInOpen(e.sets, e.arena, node); !(o.Some? && e.arena[o.value].fCost >= NewF(e, hn, parent, node))
    ensures var s := SlotOf(e, node);
            var r := Relax(e, hn, parent, node);
            && r.sets.open == e.sets.open + multiset{s}
            && r.arena[s].status == Open && r.arena[s].parent == Some(parent)
            && r.arena[s].gCost == AStar.OfferedCost(e.arena, parent, node) && r.arena[s].hCost == hn
            && r.arena[s].fCost == NewF(e, hn, parent, node)
            && (forall id | id in e.arena && id != s :: r.arena[id] == e.arena[id])
  {
  }

  /** Otherwise only the grid cell is rewritten. */
  lemma RelaxKeepOutcome(e: ArrayEngine, hn: nat, parent: RecId, node: RecId)
    requires ArrayStored(e) && parent in e.arena && node in e.arena && InRange(e, node)
    requires var s := SlotOf(e, node);
             && !(e.arena[s].status == Closed && e.arena[s].fCost >= NewF(e, hn, parent, node))
             && e.arena[s].status != Unvisited
    requires var o := A.SearchInOpen(e.sets, e.arena, node); !(o.Some? && e.arena[o.value].fCost >= NewF(e, hn, parent, node))
    ensures var r := Relax(e, hn, parent, node);
            r.sets == e.sets && r.arena == e.arena
  {
  }

  /** A record outside the array betrays an incoherent engine. */
  lemma OutOfRangeIncoherent(e: ArrayEngine, id: RecId)
    requires id in e.arena
    ensures !InRange(e, id) ==> !Coherent(e)
  {
  }

  /** The node-array `ProcessChildNode`: `H(neighbour, GoalNode)` is evaluated
      first and throws on a null goal; then `SearchInClosed` reads the
      neighbour's slot, which throws when its index is outside the array (a
      coherent engine never is); then the relaxation runs. */
  ghost function ProcessChildNode(e: ArrayEngine, h: Heuristic, parent: RecId, node: RecId): (r: Result<ArrayEngine>)
    requires ArrayStored(e) && parent in e.arena && node in e.arena
    ensures r.Failure? <==> h(e.arena[node].Position(), e.GoalPosition()).None? || !InRange(e, node)
    ensures r.Failure? ==> (r.error == NullReference && e.goalNode.None?) || (r.error == IndexOutOfRange && !Coherent(e))
    ensures r.Success? ==>
              && ArrayStored(r.value) && Kept(e, r.value)
              && r.value == Relax(e, h(e.arena[node].Position(), e.GoalPosition()).value, parent, node)
  {
    match h(e.arena[node].Position(), e.GoalPosition())
    case None => Failure(NullReference)
    case Some(hn) =>
      if !InRange(e, node) then
        OutOfRangeIncoherent(e, node);
        Failure(IndexOutOfRange)
      else
        RelaxStored(e, hn, parent, node);
        Success(Relax(e, hn, parent, node))
  }

  /** The exceptions the neighbour loop of this engine can raise: those of the
      list engines, and an out-of-range slot of an incoherent engine. */
  ghost predicate ArrayLoopError(f: AStar.NeighbourFilter, e: ArrayEngine, err: Error) {
    AStar.LoopError(f, e, err) || (err == IndexOutOfRange && !Coherent(e))
  }

  /** The loop's exceptions are read off the frame and the slots. */
  lemma ArrayLoopErrorFrame(f: AStar.NeighbourFilter, e: ArrayEngine, e': ArrayEngine)
    requires Kept(e, e') && A.Stored(e'.sets, e'.arena)
    ensures forall err :: ArrayLoopError(f, e', err) ==> ArrayLoopError(f, e, err)
  {
    AStar.LoopErrorFrame(f, e, e');
    KeptCoherent(e, e');
  }

  /** What one counted relaxation keeps: the slots, the frame and the search
      counters, with `MaxOpenNodes` caught up with the heap's count. */
  ghost predicate Stepped(e: ArrayEngine, r: ArrayEngine) {
    && ArrayStored(r) && Kept(e, r)
    && r.totalProcessedNodes == e.totalProcessedNodes && r.inProgress == e.inProgress
    && r.maxOpenNodes >= e.maxOpenNodes && r.maxOpenNodes >= |r.sets.open|
  }

  /** One counted relaxation: `ProcessChildNode`, then `MaxOpenNodes` catches
      up with the heap's count. */
  ghost function RelaxCounted(e: ArrayEngine, h: Heuristic, parent: RecId, node: RecId): (r: Result<ArrayEngine>)
    requires ArrayStored(e) && parent in e.arena && node in e.arena
    ensures r.Failure? ==> ArrayLoopError(AStar.KeepAll, e, r.error)
    ensures r.Success? ==> Stepped(e, r.value)
  {
    match ProcessChildNode(e, h, parent, node)
    case Failure(err) => Failure(err)
    case Success(e1) =>
      var r := e1.(maxOpenNodes := Max(e1.maxOpenNodes, A.CountOpen(e1.sets)));
      CellsWfFrame(e1, r);
      Success(r)
  }

  datatype Relaxed = Relaxed(engine: ArrayEngine, processed: nat, error: Option<Error>)

  /** What the neighbour loop guarantees, given the engine `e` it started
      from and the running count `processed` it started with. */
  ghost predicate RelaxedWell(e: ArrayEngine, f: AStar.NeighbourFilter, nbrs: seq<RecId>, processed: nat, r: Relaxed)
    requires e.CellsWf() && forall i | 0 <= i < |nbrs| :: nbrs[i] in e.arena
  {
    && ArrayStored(r.engine) && Kept(e, r.engine)
    && r.engine.totalProcessedNodes == e.totalProcessedNodes && r.engine.inProgress == e.inProgress
    && processed <= r.processed <= processed + |nbrs|
    && (r.error.None? ==> r.processed == processed + AStar.KeptCount(f, e.StartPosition(), e.GoalPosition(), e.arena, nbrs))
    && (r.error.Some? ==> ArrayLoopError(f, e, r.error.value))
    && (r.processed == processed ==> r.engine == e)
    && r.engine.maxOpenNodes >= e.maxOpenNodes
  }

  /** The neighbour loop of `Search` with this engine's `ProcessChildNode`. */
  ghost function RelaxAll(e: ArrayEngine, h: Heuristic, f: AStar.NeighbourFilter, parent: RecId, nbrs: seq<RecId>, processed: nat): (r: Relaxed)
    requires ArrayStored(e) && parent in e.arena && forall i | 0 <= i < |nbrs| :: nbrs[i] in e.arena
    ensures RelaxedWell(e, f, nbrs, processed, r)
    decreases |nbrs|
  {
    if |nbrs| == 0 then Relaxed(e, processed, None)
    else
      var keep := AStar.Keep(f, e.StartPosition(), e.GoalPosition(), e.arena[nbrs[0]].Position());
      if keep.Failure? then Relaxed(e, processed, Some(keep.error))
      else if !keep.value then
        var r := RelaxAll(e, h, f, parent, nbrs[1..], processed);
        RelaxedSkip(e, f, nbrs, processed, r);
        r
      else
        var counted := RelaxCounted(e, h, parent, nbrs[0]);
        if counted.Failure? then Relaxed(e, processed, Some(counted.error))
        else
          var r := RelaxAll(counted.value, h, f, parent, nbrs[1..], processed + 1);
          RelaxedStep(e, counted.value, f, nbrs, processed, r);
          r
  }

  lemma RelaxedSkip(e: ArrayEngine, f: AStar.NeighbourFilter, nbrs: seq<RecId>, processed: nat, r: Relaxed)
    requires ArrayStored(e) && |nbrs| > 0 && forall i | 0 <= i < |nbrs| :: nbrs[i] in e.arena
    requires AStar.Keep(f, e.StartPosition(), e.GoalPosition(), e.arena[nbrs[0]].Position()) == Success(false)
    requires RelaxedWell(e, f, nbrs[1..], processed, r)
    ensures RelaxedWell(e, f, nbrs, processed, r)
  {
  }

  lemma RelaxedStep(e: ArrayEngine, e2: ArrayEngine, f: AStar.NeighbourFilter, nbrs: seq<RecId>, processed: nat, r: Relaxed)
    requires ArrayStored(e) && |nbrs| > 0 && forall i | 0 <= i < |nbrs| :: nbrs[i] in e.arena
    requires AStar.Keep(f, e.StartPosition(), e.GoalPosition(), e.arena[nbrs[0]].Position()) == Success(true)
    requires Stepped(e, e2)
    requires RelaxedWell(e2, f, nbrs[1..], processed + 1, r)
    ensures RelaxedWell(e, f, nbrs, processed, r)
  {
    AStar.KeptCountFrame(f, e.StartPosition(), e.GoalPosition(), e.arena, e2.arena, nbrs[1..]);
    KeptTransitive(e, e2, r.engine);
    ArrayLoopErrorFrame(f, e, e2);
  }

  /** What one `Search` call ends with, the engine it leaves, and its local
      `ProcessedNodes` count at the return. */
  datatype Outcome = Outcome(result: SearchResult, engine: ArrayEngine, processed: nat)

  datatype Round = Finished(outcome: Outcome) | Continue(engine: ArrayEngine, processed: nat)

  /** The guarantees every way out of `Search` gives, given the engine `e` the
      call started with. */
  ghost predicate Returned(e: ArrayEngine, f: AStar.NeighbourFilter, r: Outcome) {
    && ArrayStored(r.engine) && Kept(e, r.engine)
    && (r.result.Suspended? ==> r.processed > e.nodesPerSearch)
    && (r.result.NoPath? || r.result.PathFound? ==> r.processed <= e.nodesPerSearch)
    && (r.result.Suspended? ==>
          r.engine.totalProcessedNodes == (e.totalProcessedNodes + r.processed) % UIntModulus)
    && (!r.result.Suspended? ==> r.engine.totalProcessedNodes == e.totalProcessedNodes)
    && (r.result.NoPath? ==> |r.engine.sets.open| == 0)
    && (r.result.PathFound? ==>
          var p := r.result.path;
          && |p| > 0 && e.goalNode.Some?
          && IsPathTo(r.engine.arena, e.startNode, p, p[|p| - 1])
          && r.engine.arena[p[|p| - 1]].Equals(r.engine.arena[e.goalNode.value])
          && !r.engine.inProgress)
    && (!r.result.PathFound? ==> r.engine.inProgress == e.inProgress)
    && (r.result.Crashed? ==> r.result.error in {NullReference, OutOfFuel} || ArrayLoopError(f, e, r.result.error))
    && r.engine.maxOpenNodes >= e.maxOpenNodes
  }

  /** Taking the heap's best member out keeps the slots and heap stored. */
  lemma PopStored(e: ArrayEngine)
    requires ArrayStored(e) && |e.sets.open| > 0
    ensures var popped := A.GetBestAndRemove(e.sets, e.arena);
            popped.0 in e.arena && ArrayStored(e.(sets := popped.1)) && Kept(e, e.(sets := popped.1))
  {
    var popped := A.GetBestAndRemove(e.sets, e.arena);
    var arr' := popped.1;
    assert A.Stored(arr', e.arena) by {
      forall m | m in arr'.open
        ensures m in e.arena
      {
        assert m in e.sets.open;
      }
    }
    assert e.(sets := arr') == WithSets(e, arr');
  }

  /** The body of the loop of `Search`: pop the heap's best member; if it is
      the goal, end with its path; otherwise expand it. */
  ghost function SearchRound(e: ArrayEngine, h: Heuristic, f: AStar.NeighbourFilter, processed: nat): (r: Round)
    requires ArrayStored(e) && processed <= e.nodesPerSearch && |e.sets.open| > 0
    ensures RoundWell(e, f, processed, |e.sets.open| - 1, r)
  {
    var popped := A.GetBestAndRemove(e.sets, e.arena);
    var best := popped.0;
    PopStored(e);
    var e1 := e.(sets := popped.1);
    var r := if e.goalNode.Some? && e.arena[best].Equals(e.arena[e.goalNode.value])
             then Finished(FinishAtGoal(e1, f, best, processed))
             else Expand(e1, h, f, best, processed);
    RoundEnds(e, e1, f, processed, r);
    r
  }

  /** What a round promises, given the engine it started from: an ending
      gives `Returned`; a hand-back keeps the slots and the frame, and a
      round that counted no neighbour leaves at most `openBound` members in
      the heap. */
  ghost predicate RoundWell(e: ArrayEngine, f: AStar.NeighbourFilter, processed: nat, openBound: int, r: Round) {
    && (r.Finished? ==> Returned(e, f, r.outcome) && processed <= r.outcome.processed <= processed + 8)
    && (r.Continue? ==>
          && ArrayStored(r.engine) && Kept(e, r.engine)
          && r.engine.totalProcessedNodes == e.totalProcessedNodes
          && r.engine.inProgress == e.inProgress
          && r.engine.maxOpenNodes >= e.maxOpenNodes
          && processed <= r.processed <= processed + 8
          && (r.processed == processed ==> |r.engine.sets.open| <= openBound))
  }

  /** What a round promises about the engine after the pop carries over to
      the engine before it, whose heap had one more member. */
  lemma RoundEnds(e: ArrayEngine, e1: ArrayEngine, f: AStar.NeighbourFilter, processed: nat, r: Round)
    requires ArrayStored(e) && ArrayStored(e1) && Kept(e, e1) && e1 == e.(sets := e1.sets)
    requires |e1.sets.open| < |e.sets.open|
    requires RoundWell(e1, f, processed, |e1.sets.open|, r)
    ensures RoundWell(e, f, processed, |e.sets.open| - 1, r)
  {
    if r.Finished? {
      ReturnedChain(e, e1, f, r.outcome);
    } else {
      KeptTransitive(e, e1, r.engine);
    }
  }

  /** The popped record is the goal: `CalculatePath` and, if it returns, clear
      `InProgress`. */
  ghost function FinishAtGoal(e: ArrayEngine, f: AStar.NeighbourFilter, best: RecId, processed: nat): (r: Outcome)
    requires ArrayStored(e) && best in e.arena && processed <= e.nodesPerSearch
    requires e.goalNode.Some? && e.arena[best].Equals(e.arena[e.goalNode.value])
    ensures Returned(e, f, r) && r.processed == processed
  {
    match CalculatePath(e, best)
    case Success(path) =>
      ReturnedPath(e, f, best, path, processed);
      Outcome(PathFound(path), e.(inProgress := false), processed)
    case Failure(err) =>
      ReturnedWalkFailure(e, f, best, err, processed);
      Outcome(Crashed(err), e, processed)
  }

  lemma ReturnedPath(e: ArrayEngine, f: AStar.NeighbourFilter, best: RecId, path: seq<RecId>, processed: nat)
    requires ArrayStored(e) && best in e.arena && processed <= e.nodesPerSearch
    requires e.goalNode.Some? && e.arena[best].Equals(e.arena[e.goalNode.value])
    requires CalculatePath(e, best) == Success(path)
    ensures Returned(e, f, Outcome(PathFound(path), e.(inProgress := false), processed))
  {
    CellsWfFrame(e, e.(inProgress := false));
  }

  lemma ReturnedWalkFailure(e: ArrayEngine, f: AStar.NeighbourFilter, best: RecId, err: Error, processed: nat)
    requires ArrayStored(e) && best in e.arena
    requires CalculatePath(e, best) == Failure(err)
    ensures Returned(e, f, Outcome(Crashed(err), e, processed))
  {
  }

  /** The popped record is not the goal: `Closed.AddToClosed` marks it Closed,
      its cell is rewritten with it, and each neighbour is relaxed. */
  ghost function Expand(e: ArrayEngine, h: Heuristic, f: AStar.NeighbourFilter, best: RecId, processed: nat): (r: Round)
    requires ArrayStored(e) && best in e.arena && processed <= e.nodesPerSearch
    ensures RoundWell(e, f, processed, |e.sets.open|, r)
  {
    var e2 := Close(e, best);
    var nbrs := GetNeighbourList(e2, best);
    var rx := RelaxAll(e2, h, f, best, nbrs, processed);
    KeptTransitive(e, e2, rx.engine);
    ArrayLoopErrorFrame(f, e, e2);
    if rx.error.Some? then
      ReturnedCrash(e, f, rx.engine, rx.processed, rx.error.value);
      Finished(Outcome(Crashed(rx.error.value), rx.engine, rx.processed))
    else
      Continue(rx.engine, rx.processed)
  }

  /** `Closed.AddToClosed(best)`, which only marks it Closed, and the write of
      `best` into its cell. */
  function Close(e: ArrayEngine, best: RecId): (r: ArrayEngine)
    requires ArrayStored(e) && best in e.arena
    ensures ArrayStored(r) && Kept(e, r)
    ensures r.sets == e.sets && r.arena[best].status == Closed
    ensures forall id | id in e.arena && id != best :: r.arena[id] == e.arena[id]
    ensures r.grid == e.grid.SetGridObject(e.arena[best].x, e.arena[best].y, best)
    ensures r == e.(arena := r.arena, grid := r.grid)
  {
    var a' := A.AddToClosed(e.arena, best);
    var r := e.(arena := a', grid := e.grid.SetGridObject(a'[best].x, a'[best].y, best));
    StatusParentsStored(e.arena, best, Closed);
    AStar.WriteBackKeepsCells(e, r, best);
    r
  }

  /** The loop of `Search` from a running count of `processed`. */
  ghost function SearchFrom(e: ArrayEngine, h: Heuristic, f: AStar.NeighbourFilter, processed: nat): (r: Outcome)
    requires ArrayStored(e)
    ensures Returned(e, f, r)
    ensures r.processed >= processed
    ensures processed <= e.nodesPerSearch ==> r.processed <= e.nodesPerSearch + 8
    decreases if processed <= e.nodesPerSearch then e.nodesPerSearch + 1 - processed else 0, |e.sets.open|
  {
    if processed > e.nodesPerSearch then
      ReturnedSuspended(e, f, processed);
      Outcome(Suspended, e.(totalProcessedNodes := (e.totalProcessedNodes + processed) % UIntModulus), processed)
    else if A.CountOpen(e.sets) == 0 then
      ReturnedNoPath(e, f, processed);
      Outcome(NoPath, e, processed)
    else
      match SearchRound(e, h, f, processed)
      case Finished(o) => o
      case Continue(e', p') =>
        var r := SearchFrom(e', h, f, p');
        ReturnedChain(e, e', f, r);
        r
  }

  /** Within budget and with open records, the loop is one round followed,
      if the round hands back, by the loop from where it left off. */
  lemma SearchFromStep(e: ArrayEngine, h: Heuristic, f: AStar.NeighbourFilter, processed: nat)
    requires ArrayStored(e) && processed <= e.nodesPerSearch && A.CountOpen(e.sets) > 0
    ensures var round := SearchRound(e, h, f, processed);
            SearchFrom(e, h, f, processed) ==
              if round.Finished? then round.outcome else SearchFrom(round.engine, h, f, round.processed)
  {
  }

  /** Over budget: the call suspends and adds its count to the total. */
  lemma ReturnedSuspended(e: ArrayEngine, f: AStar.NeighbourFilter, processed: nat)
    requires ArrayStored(e) && processed > e.nodesPerSearch
    ensures Returned(e, f, Outcome(Suspended, e.(totalProcessedNodes := (e.totalProcessedNodes + processed) % UIntModulus), processed))
  {
    CellsWfFrame(e, e.(totalProcessedNodes := (e.totalProcessedNodes + processed) % UIntModulus));
  }

  /** An empty heap within budget: the call ends with a null solution. */
  lemma ReturnedNoPath(e: ArrayEngine, f: AStar.NeighbourFilter, processed: nat)
    requires ArrayStored(e) && processed <= e.nodesPerSearch && |e.sets.open| == 0
    ensures Returned(e, f, Outcome(NoPath, e, processed))
  {
  }

  /** An exception of the neighbour loop ends the call with it. */
  lemma ReturnedCrash(e: ArrayEngine, f: AStar.NeighbourFilter, r: ArrayEngine, processed: nat, err: Error)
    requires ArrayStored(e) && ArrayStored(r) && Kept(e, r)
    requires r.totalProcessedNodes == e.totalProcessedNodes && r.inProgress == e.inProgress
    requires r.maxOpenNodes >= e.maxOpenNodes && ArrayLoopError(f, e, err)
    ensures Returned(e, f, Outcome(Crashed(err), r, processed))
  {
  }

  /** A return that is good for a later state of the same call is good for
      its start. */
  lemma ReturnedChain(e: ArrayEngine, e': ArrayEngine, f: AStar.NeighbourFilter, r: Outcome)
    requires ArrayStored(e) && ArrayStored(e') && Kept(e, e') && Returned(e', f, r)
    requires e'.totalProcessedNodes == e.totalProcessedNodes && e'.inProgress == e.inProgress
    requires e'.maxOpenNodes >= e.maxOpenNodes
    ensures Returned(e, f, r)
  {
    KeptTransitive(e, e', r.engine);
    ArrayLoopErrorFrame(f, e, e');
  }

  /** `Search`, inherited unchanged: the loop from `ProcessedNodes = 0`. A
      coherent engine stays coherent, and its only exceptions are the null
      goal and an unfinished parent walk: `GetNodeRecord` never leaves the
      array. */
  ghost function Search(e: ArrayEngine, h: Heuristic): (r: Outcome)
    requires ArrayStored(e)
    ensures Returned(e, AStar.KeepAll, r)
    ensures r.result.Suspended? ==> e.nodesPerSearch < r.processed <= e.nodesPerSearch + 8
    ensures r.processed <= e.nodesPerSearch + 8
    ensures Coherent(e) ==> Coherent(r.engine)
    ensures Coherent(e) && r.result.Crashed? ==> r.result.error in {NullReference, OutOfFuel}
  {
    var r := SearchFrom(e, h, AStar.KeepAll, 0);
    KeptCoherent(e, r.engine);
    r
  }

  /** `InitializePathfindingSearch` over the node array: record the
      coordinates and look up the start and goal cells; if either lies off the
      grid, stop there. Otherwise mark the search in progress, zero the
      counters, `Open.Initialize` (heap emptied, walkable slots Unvisited),
      open a fresh start record carrying the start cell's index, and
      `Closed.Initialize`, which does nothing. */
  function InitializePathfindingSearch(e: ArrayEngine, h: Heuristic, startX: int, startY: int, goalX: int, goalY: int): (r: ArrayEngine)
    requires ArrayStored(e)
    ensures ArrayStored(r) && (Coherent(e) ==> Coherent(r))
    ensures r.startX == startX && r.startY == startY && r.goalX == goalX && r.goalY == goalY
    ensures r.startNode.Some? <==> e.OnGrid(Coord(startX, startY))
    ensures r.startNode.Some? ==> r.startNode.value == e.CellAt(Coord(startX, startY))
    ensures r.goalNode.Some? <==> e.OnGrid(Coord(goalX, goalY))
    ensures r.goalNode.Some? ==> r.goalNode.value == e.CellAt(Coord(goalX, goalY))
    ensures r.grid == e.grid && r.nodesPerSearch == e.nodesPerSearch && r.sets.nodeRecords == e.sets.nodeRecords
    ensures r.startNode.None? || r.goalNode.None? ==>
              && r.arena == e.arena && r.sets == e.sets && r.next == e.next && r.inProgress == e.inProgress
              && r.totalProcessedNodes == e.totalProcessedNodes && r.maxOpenNodes == e.maxOpenNodes
    ensures r.startNode.Some? && r.goalNode.Some? ==>
              var start := e.arena[e.CellAt(Coord(startX, startY))];
              && r.inProgress && r.totalProcessedNodes == 0 && r.maxOpenNodes == 0
              && e.next !in e.arena && r.next == e.next + 1 && r.sets.open == multiset{e.next}
              && r.arena == A.InitializeOpen(e.sets, e.arena).1[e.next := AStar.InitialRecord(start, h(Coord(startX, startY), Some(Coord(goalX, goalY))).value)]
  {
    var e1 := e.(startX := startX, startY := startY, goalX := goalX, goalY := goalY,
                 startNode := e.grid.GetGridObject(startX, startY), goalNode := e.grid.GetGridObject(goalX, goalY));
    CellsWfFrame(e, e1);
    if e1.startNode.None? || e1.goalNode.None? then
      e1
    else
      var start := e1.startNode.value;
      var goal := e.arena[e1.goalNode.value];
      var initial := AStar.InitialRecord(e.arena[start], h(e.arena[start].Position(), Some(goal.Position())).value);
      var (arr, a) := A.InitializeOpen(e.sets, e.arena);
      var (arr', a') := A.AddToOpen(arr, a[e.next := initial], e.next);
      assert a' == a[e.next := initial];
      var r := e1.(inProgress := true, totalProcessedNodes := 0, maxOpenNodes := 0,
                   arena := a', next := e.next + 1, sets := A.InitializeClosed(arr'));
      InitCells(e, r, a, initial);
      InitCoherent(e, initial, start);
      r
  }

  /** The grid and the arena after a successful initialisation: `a` is the
      arena with only statuses changed, and the fresh start record is added
      under the next id. */
  lemma InitCells(e: ArrayEngine, r: ArrayEngine, a: Arena, initial: NodeRecord)
    requires ArrayStored(e) && e.OnGrid(initial.Position()) && initial.parent.None?
    requires a.Keys == e.arena.Keys && forall id | id in a :: a[id] == e.arena[id].(status := a[id].status)
    requires r.grid == e.grid && r.next == e.next + 1 && r.arena == a[e.next := initial]
    requires r.sets.nodeRecords == e.sets.nodeRecords && r.sets.open == multiset{e.next}
    requires r.startNode.Some? ==> r.startNode.value in e.arena
    requires r.goalNode.Some? ==> r.goalNode.value in e.arena
    ensures ArrayStored(r)
  {
    assert e.next !in e.arena;
    InitGridCells(e, r, a, initial);
    InitArenaBounds(e, r, a, initial);
    assert r.grid.Valid();
    assert r.startNode.Some? ==> r.startNode.value in r.arena;
    assert r.goalNode.Some? ==> r.goalNode.value in r.arena;
    assert r.CellsWf();
    assert A.Stored(r.sets, r.arena) by {
      forall i | 0 <= i < |r.sets.nodeRecords|
        ensures r.sets.nodeRecords[i] in r.arena
      {
        assert e.sets.nodeRecords[i] in e.arena;
      }
    }
  }

  lemma InitGridCells(e: ArrayEngine, r: ArrayEngine, a: Arena, initial: NodeRecord)
    requires e.CellsWf() && e.next !in e.arena
    requires a.Keys == e.arena.Keys && forall id | id in a :: a[id] == e.arena[id].(status := a[id].status)
    requires r.grid == e.grid && r.arena == a[e.next := initial]
    ensures forall x, y | 0 <= x < r.grid.width && 0 <= y < r.grid.height ::
              r.grid.cells[x][y] in r.arena && r.arena[r.grid.cells[x][y]].Position() == Coord(x, y)
  {
    forall x, y | 0 <= x < r.grid.width && 0 <= y < r.grid.height
      ensures r.grid.cells[x][y] in r.arena && r.arena[r.grid.cells[x][y]].Position() == Coord(x, y)
    {
      var id := r.grid.cells[x][y];
      assert id in e.arena && r.arena[id] == a[id];
    }
  }

  lemma InitArenaBounds(e: ArrayEngine, r: ArrayEngine, a: Arena, initial: NodeRecord)
    requires e.CellsWf() && e.next !in e.arena && e.OnGrid(initial.Position()) && initial.parent.None?
    requires a.Keys == e.arena.Keys && forall id | id in a :: a[id] == e.arena[id].(status := a[id].status)
    requires r.grid == e.grid && r.next == e.next + 1 && r.arena == a[e.next := initial]
    ensures forall id | id in r.arena :: id < r.next && InBounds(r.arena[id].Position(), r.grid.width, r.grid.height)
    ensures ParentsStored(r.arena)
  {
    forall id | id in r.arena
      ensures id < r.next && InBounds(r.arena[id].Position(), r.grid.width, r.grid.height)
      ensures r.arena[id].parent.Some? ==> r.arena[id].parent.value in r.arena
    {
      if id != e.next {
        assert r.arena[id] == e.arena[id].(status := r.arena[id].status);
      }
    }
  }

  /** The fresh start record copies the start cell's position and index, so
      coherence survives initialisation. */
  lemma InitCoherent(e: ArrayEngine, initial: NodeRecord, start: RecId)
    requires ArrayStored(e) && start in e.arena && e.next !in e.arena
    requires initial.Position() == e.arena[start].Position() && initial.index == e.arena[start].index
    ensures var (arr, a) := A.InitializeOpen(e.sets, e.arena);
            Coherent(e) ==> A.Coherent(arr.(open := multiset{e.next}), a[e.next := initial])
  {
    var (arr, a) := A.InitializeOpen(e.sets, e.arena);
    if Coherent(e) {
      SameNodesGrown(e.arena, a);
      GrownByCopy(a, e.next, initial, start);
      GrownTransitive(e.arena, a, a[e.next := initial]);
      A.CoherentGrown(e.sets, e.arena, a[e.next := initial], multiset{e.next});
      assert arr.(open := multiset{e.next}) == e.sets.(open := multiset{e.next});
    }
  }

  /** The grid records as the constructor leaves them: cell (x, y) holds a
      fresh record with index `counter + x·height + y`, slot i is a fresh
      record at cell (i / height, i % height) with index i, and the heap is
      empty. */
  ghost predicate Built(e: ArrayEngine, width: nat, height: nat, counter: nat) {
    && e.grid.Valid() && e.grid.width == width && e.grid.height == height
    && (forall x, y | 0 <= x < width && 0 <= y < height ::
          e.grid.cells[x][y] in e.arena
          && e.arena[e.grid.cells[x][y]] == NewIndexedNodeRecord(x, y, counter + x * height + y))
    && |e.sets.nodeRecords| == width * height && e.sets.open == multiset{}
    && (forall i | 0 <= i < |e.sets.nodeRecords| ::
          height > 0 && e.sets.nodeRecords[i] in e.arena
          && e.arena[e.sets.nodeRecords[i]] == NewIndexedNodeRecord(i / height, i % height, i))
    && !e.inProgress && e.nodesPerSearch == DefaultNodesPerSearch
    && e.startNode.None? && e.goalNode.None?
    && e.totalProcessedNodes == 0 && e.maxOpenNodes == 0
  }

  /** The constructor as written: the grid's records are `new NodeRecord(x,
      y, index++)` where `index` is a static counter shared by every instance;
      `counter` is its value when this instance is built and `counter'` its
      value afterwards. The array's slots are numbered from 0, so the records
      of every instance but the first carry indices past the array's end. */
  method NewNodeArrayAStarAsWritten(width: nat, height: nat, counter: nat) returns (e: ArrayEngine, counter': nat)
    ensures counter' == counter + width * height
    ensures Built(e, width, height, counter) && ArrayStored(e)
    ensures Coherent(e) <==> counter == 0 || width * height == 0
  {
    var make := (x: int, y: int, k: nat) => NewIndexedNodeRecord(x, y, counter + k);
    forall x: int, y: int, k: nat
      ensures make(x, y, k).Position() == Coord(x, y) && make(x, y, k).parent.None?
    {
      NewIndexedShape(x, y, counter + k);
    }
    var grid, cells := NewCells(width, height, make);
    CellsShape(grid, cells, make, width, height, counter);
    e := Assemble(grid, cells, counter);
    counter' := counter + width * height;
    AssembledBuilt(grid, cells, counter);
    AssembledStored(grid, cells, counter);
    AssembledCoherence(grid, cells, counter);
  }

  /** The engine the constructor returns, around a grid and its cell records:
      the array's slots follow `getAll()`, and fresh ids start at twice the
      cell count. */
  function Assemble(grid: Grid<RecId>, cells: Arena, counter: nat): ArrayEngine
    requires CellsMade(grid, cells, grid.width, grid.height, counter)
  {
    GetAllIds(grid, cells, grid.width, grid.height, counter);
    var n := grid.width * grid.height;
    var built := A.New(grid.GetAll(), cells, n);
    Engine(grid, built.1, 2 * n, built.0, DefaultNodesPerSearch, 0, 0, false, None, None, 0, 0, 0, 0)
  }

  lemma AssembledBuilt(grid: Grid<RecId>, cells: Arena, counter: nat)
    requires CellsMade(grid, cells, grid.width, grid.height, counter)
    ensures Built(Assemble(grid, cells, counter), grid.width, grid.height, counter)
  {
    var e := Assemble(grid, cells, counter);
    GetAllIds(grid, cells, grid.width, grid.height, counter);
    BuiltGrid(grid, cells, e.arena, counter);
    BuiltSlots(grid, cells, grid.GetAll(), e.sets, e.arena, counter);
  }

  lemma AssembledStored(grid: Grid<RecId>, cells: Arena, counter: nat)
    requires CellsMade(grid, cells, grid.width, grid.height, counter)
    ensures ArrayStored(Assemble(grid, cells, counter))
  {
    var e := Assemble(grid, cells, counter);
    var n := grid.width * grid.height;
    GetAllIds(grid, cells, grid.width, grid.height, counter);
    var built := A.New(grid.GetAll(), cells, n);
    assert e.grid == grid && e.arena == built.1 && e.sets == built.0 && e.next == 2 * n;
    BuiltGrid(grid, cells, e.arena, counter);
    BuiltStored(cells, grid.GetAll(), e.sets, e.arena, grid.width, grid.height);
    assert e.grid.Valid();
    assert e.startNode.None? && e.goalNode.None?;
    assert e.CellsWf();
  }

  lemma AssembledCoherence(grid: Grid<RecId>, cells: Arena, counter: nat)
    requires CellsMade(grid, cells, grid.width, grid.height, counter)
    ensures Coherent(Assemble(grid, cells, counter)) <==> counter == 0 || grid.width * grid.height == 0
  {
    var e := Assemble(grid, cells, counter);
    var n := grid.width * grid.height;
    GetAllIds(grid, cells, grid.width, grid.height, counter);
    var built := A.New(grid.GetAll(), cells, n);
    assert e.arena == built.1 && e.sets == built.0;
    if counter == 0 {
      ConstructedCoherent(cells, grid.GetAll(), e.sets, e.arena, n);
    } else if n > 0 {
      ConstructedIncoherent(grid, cells, e.sets, e.arena, counter);
    } else {
      assert |e.sets.nodeRecords| == 0 && e.arena == cells;
    }
  }

  /** With the counter already past 0, the last cell's record carries an
      index at or past the end of the array. */
  lemma ConstructedIncoherent(grid: Grid<RecId>, cells: Arena, arr: A.NodeRecordArray, arena: Arena, counter: nat)
    requires CellsMade(grid, cells, grid.width, grid.height, counter)
    requires counter > 0 && grid.width * grid.height > 0
    requires forall i | 0 <= i < |grid.GetAll()| :: grid.GetAll()[i] in cells
    requires (arr, arena) == A.New(grid.GetAll(), cells, grid.width * grid.height)
    ensures !A.Coherent(arr, arena)
  {
    var (width, height) := (grid.width, grid.height);
    assert width > 0 && height > 0;
    var last := grid.cells[width - 1][height - 1];
    CellIdBound(width - 1, height - 1, width, height);
    assert (width - 1) * height + (height - 1) == width * height - 1;
    assert arena[last] == cells[last];
    assert arena[last].index == counter + width * height - 1 >= |arr.nodeRecords|;
  }

  lemma NewIndexedShape(x: int, y: int, k: int)
    ensures NewIndexedNodeRecord(x, y, k).Position() == Coord(x, y)
    ensures NewIndexedNodeRecord(x, y, k).parent.None? && NewIndexedNodeRecord(x, y, k).index == k
  {
  }

  /** What the constructor's cell factory leaves in the grid and the arena:
      cell x, y is record x·height + y, made with the counter's next value. */
  ghost predicate CellsMade(grid: Grid<RecId>, cells: Arena, width: nat, height: nat, counter: nat) {
    && grid.Valid() && grid.width == width && grid.height == height
    && (forall x, y | 0 <= x < width && 0 <= y < height ::
          grid.cells[x][y] == x * height + y && grid.cells[x][y] in cells
          && cells[grid.cells[x][y]] == NewIndexedNodeRecord(x, y, counter + x * height + y))
    && (forall id | id in cells ::
          id < width * height && InBounds(cells[id].Position(), width, height)
          && cells[id].parent.None? && cells[id].index == counter + id)
  }

  lemma CellsShape(grid: Grid<RecId>, cells: Arena, make: (int, int, nat) -> NodeRecord,
                   width: nat, height: nat, counter: nat)
    requires forall x: int, y: int, k: nat :: make(x, y, k) == NewIndexedNodeRecord(x, y, counter + k)
    requires grid.Valid() && grid.width == width && grid.height == height
    requires forall x, y | 0 <= x < width && 0 <= y < height ::
               grid.cells[x][y] == x * height + y
               && grid.cells[x][y] in cells
               && cells[grid.cells[x][y]] == make(x, y, x * height + y)
    requires forall id | id in cells ::
               id < width * height && InBounds(cells[id].Position(), width, height) && cells[id].parent.None?
               && id == cells[id].x * height + cells[id].y && cells[id] == make(cells[id].x, cells[id].y, id)
    ensures CellsMade(grid, cells, width, height, counter)
  {
  }

  /** The constructor's grid numbers its cells x·height + y, so `getAll()`
      lists the cell ids in order. */
  lemma GetAllIds(grid: Grid<RecId>, cells: Arena, width: nat, height: nat, counter: nat)
    requires CellsMade(grid, cells, width, height, counter)
    ensures forall i | 0 <= i < |grid.GetAll()| :: grid.GetAll()[i] == i && i in cells
    ensures forall i | 0 <= i < |grid.GetAll()| ::
              height > 0 && cells[i] == NewIndexedNodeRecord(i / height, i % height, counter + i)
  {
    forall i | 0 <= i < |grid.GetAll()|
      ensures grid.GetAll()[i] == i && i in cells
      ensures height > 0 && cells[i] == NewIndexedNodeRecord(i / height, i % height, counter + i)
    {
      GetAllIndex(grid, i);
    }
  }

  lemma BuiltGrid(grid: Grid<RecId>, cells: Arena, arena: Arena, counter: nat)
    requires CellsMade(grid, cells, grid.width, grid.height, counter)
    requires forall id | id in cells :: id in arena && arena[id] == cells[id]
    ensures forall x, y | 0 <= x < grid.width && 0 <= y < grid.height ::
              grid.cells[x][y] in arena
              && arena[grid.cells[x][y]] == NewIndexedNodeRecord(x, y, counter + x * grid.height + y)
              && arena[grid.cells[x][y]].Position() == Coord(x, y)
  {
    forall x, y | 0 <= x < grid.width && 0 <= y < grid.height
      ensures arena[grid.cells[x][y]].Position() == Coord(x, y)
    {
      NewIndexedShape(x, y, counter + x * grid.height + y);
    }
  }

  lemma BuiltSlots(grid: Grid<RecId>, cells: Arena, nodes: seq<RecId>, arr: A.NodeRecordArray, arena: Arena,
                   counter: nat)
    requires |nodes| == grid.width * grid.height
    requires forall id | id in cells :: id < grid.width * grid.height
    requires forall i | 0 <= i < |nodes| :: nodes[i] == i && i in cells
    requires forall i | 0 <= i < |nodes| ::
               grid.height > 0 && cells[i] == NewIndexedNodeRecord(i / grid.height, i % grid.height, counter + i)
    requires arr == A.New(nodes, cells, grid.width * grid.height).0
    requires arena == A.New(nodes, cells, grid.width * grid.height).1
    ensures |arr.nodeRecords| == grid.width * grid.height && arr.open == multiset{}
    ensures forall i | 0 <= i < |arr.nodeRecords| ::
              grid.height > 0 && arr.nodeRecords[i] in arena
              && arena[arr.nodeRecords[i]] == NewIndexedNodeRecord(i / grid.height, i % grid.height, i)
  {
    forall i | 0 <= i < |arr.nodeRecords|
      ensures grid.height > 0 && arr.nodeRecords[i] in arena
      ensures arena[arr.nodeRecords[i]] == NewIndexedNodeRecord(i / grid.height, i % grid.height, i)
    {
      assert nodes[i] == i;
    }
  }

  lemma BuiltStored(cells: Arena, nodes: seq<RecId>, arr: A.NodeRecordArray, arena: Arena, width: nat, height: nat)
    requires forall id | id in cells ::
               id < width * height && InBounds(cells[id].Position(), width, height) && cells[id].parent.None?
    requires forall i | 0 <= i < |nodes| :: nodes[i] in cells
    requires |nodes| == width * height
    requires (arr, arena) == A.New(nodes, cells, width * height)
    ensures forall id | id in arena ::
              id < 2 * (width * height) && InBounds(arena[id].Position(), width, height) && arena[id].parent.None?
    ensures ParentsStored(arena) && A.Stored(arr, arena)
  {
    forall id | id in arena
      ensures id < 2 * (width * height) && InBounds(arena[id].Position(), width, height) && arena[id].parent.None?
    {
      BuiltRecord(cells, nodes, arena, width * height, width, height, id);
    }
  }

  lemma BuiltRecord(cells: Arena, nodes: seq<RecId>, arena: Arena, n: nat, width: nat, height: nat, id: RecId)
    requires forall id | id in cells :: id < n && InBounds(cells[id].Position(), width, height) && cells[id].parent.None?
    requires forall i | 0 <= i < |nodes| :: nodes[i] in cells
    requires |nodes| == n
    requires arena == A.New(nodes, cells, n).1
    requires id in arena
    ensures id < 2 * n && InBounds(arena[id].Position(), width, height) && arena[id].parent.None?
  {
    if id in cells {
      assert arena[id] == cells[id];
    } else {
      var i := id - n;
      var c := cells[nodes[i]];
      assert 0 <= i < |nodes| && arena[id] == NewIndexedNodeRecord(c.x, c.y, i);
      NewIndexedShape(c.x, c.y, i);
      assert c.Position() == Coord(c.x, c.y);
    }
  }

  /** With the counter at 0, cell record k carries index k and slot k (id
      n + k) sits at cell record k's position; slot records carry their own
      slot number. */
  lemma ConstructedCoherent(cells: Arena, nodes: seq<RecId>, arr: A.NodeRecordArray, arena: Arena, n: nat)
    requires |nodes| == n && forall i | 0 <= i < n :: nodes[i] == i && i in cells
    requires forall id | id in cells :: id < n && cells[id].index == 0 + id
    requires (arr, arena) == A.New(nodes, cells, n)
    ensures A.Coherent(arr, arena)
  {
    forall i | 0 <= i < |arr.nodeRecords|
      ensures arena[arr.nodeRecords[i]].index == i
    {
      NewIndexedShape(cells[nodes[i]].x, cells[nodes[i]].y, i);
    }
    forall id | id in arena
      ensures 0 <= arena[id].index < |arr.nodeRecords|
      ensures arena[arr.nodeRecords[arena[id].index]].Position() == arena[id].Position()
    {
      ConstructedIndex(cells, nodes, arr, arena, n, id);
    }
  }

  lemma ConstructedIndex(cells: Arena, nodes: seq<RecId>, arr: A.NodeRecordArray, arena: Arena, n: nat, id: RecId)
    requires |nodes| == n && forall i | 0 <= i < n :: nodes[i] == i && i in cells
    requires forall id | id in cells :: id < n && cells[id].index == 0 + id
    requires (arr, arena) == A.New(nodes, cells, n)
    requires id in arena
    ensures 0 <= arena[id].index < |arr.nodeRecords|
    ensures arena[arr.nodeRecords[arena[id].index]].Position() == arena[id].Position()
  {
    if id in cells {
      assert arena[id] == cells[id] && nodes[id] == id;
      assert arr.nodeRecords[id] == n + id;
      NewIndexedShape(cells[id].x, cells[id].y, id);
    } else {
      var i := id - n;
      assert 0 <= i < n && arena[id] == NewIndexedNodeRecord(cells[nodes[i]].x, cells[nodes[i]].y, i);
      NewIndexedShape(cells[nodes[i]].x, cells[nodes[i]].y, i);
      assert arr.nodeRecords[i] == id;
    }
  }


  /** The constructor with the counter started afresh for the instance, so
      that cell (x, y) carries index x·height + y, the slot of its own
      position: the engine satisfies the invariant. */
  method NewNodeArrayAStar(width: nat, height: nat) returns (e: ArrayEngine)
    ensures Built(e, width, height, 0) && Wf(e)
  {
    var counter';
    e, counter' := NewNodeArrayAStarAsWritten(width, height, 0);
  }

  /** The second instance of a 1 × 2 grid, built with the shared counter at
      2: a search from (0, 0) to (0, 1) pops the fresh start record, closes
      it and relaxes its one neighbour (0, 1), whose index 3 reads past the
      end of the two-slot array, so `Search` throws. */
  lemma SecondInstanceOutOfRange(e: ArrayEngine, h: Heuristic)
    requires Built(e, 1, 2, 2) && ArrayStored(e)
    ensures var e1 := InitializePathfindingSearch(e, h, 0, 0, 0, 1);
            && e1.startNode.Some? && e1.goalNode.Some? && e1.goalNode.value in e1.arena
            && e1.arena[e1.goalNode.value].index == 3 && |e1.sets.nodeRecords| == 2
            && !Coherent(e1)
            && Search(e1, h).result == Crashed(IndexOutOfRange)
  {
    var e1 := InitializePathfindingSearch(e, h, 0, 0, 0, 1);
    var goal := e.grid.cells[0][1];
    assert e.OnGrid(Coord(0, 0)) && e.OnGrid(Coord(0, 1));
    assert e1.goalNode.value == goal && goal in e.arena && goal != e.next;
    assert e.arena[goal].index == 3;
    var a := A.InitializeOpen(e.sets, e.arena).1;
    assert a[goal].index == 3 && a[goal].isWalkable;
    assert e1.arena[goal] == a[goal];
    assert !InRange(e1, goal);
    OutOfRangeIncoherent(e1, goal);
    StartRoundThrows(e1, h, goal);
    SearchFromStep(e1, h, AStar.KeepAll, 0);
  }

  /** The first round of that search: the one heap member, at (0, 0), is
      popped and closed, and relaxing its neighbour, whose index lies
      outside the array, throws. */
  lemma StartRoundThrows(e1: ArrayEngine, h: Heuristic, goal: RecId)
    requires ArrayStored(e1) && e1.grid.width == 1 && e1.grid.height == 2
    requires e1.goalNode == Some(goal) && goal == e1.grid.cells[0][1]
    requires e1.arena[goal].isWalkable && !InRange(e1, goal)
    requires |e1.sets.open| == 1 && forall m | m in e1.sets.open :: e1.arena[m].Position() == Coord(0, 0)
    ensures var r := SearchRound(e1, h, AStar.KeepAll, 0);
            r.Finished? && r.outcome.result == Crashed(IndexOutOfRange)
  {
    var popped := A.GetBestAndRemove(e1.sets, e1.arena);
    var best := popped.0;
    assert best in e1.sets.open by {
      assert popped.1.open + multiset{best} == e1.sets.open;
    }
    PopStored(e1);
    var ep := e1.(sets := popped.1);
    assert e1.arena[goal].Position() == Coord(0, 1);
    assert !e1.arena[best].Equals(e1.arena[goal]);
    var e2 := Close(ep, best);
    var nbrs := GetNeighbourList(e2, best);
    GetNeighbourListExact(e2, best);
    assert e2.CellAt(Coord(0, 1)) == goal;
    assert e2.arena[goal] == e1.arena[goal];
    assert e2.OnGrid(Coord(0, 1)) && Chebyshev(e2.arena[best].Position(), Coord(0, 1)) == 1;
    assert goal in nbrs;
    assert nbrs[0] == goal by {
      var c := e2.arena[nbrs[0]].Position();
      assert e2.OnGrid(c) && Chebyshev(Coord(0, 0), c) == 1;
      assert c == Coord(0, 1);
    }
    assert !InRange(e2, goal);
    assert ProcessChildNode(e2, h, best, goal) == Failure(IndexOutOfRange);
    assert RelaxAll(e2, h, AStar.KeepAll, best, nbrs, 0).error == Some(IndexOutOfRange);
  }
}
