/** `AStarPathfinding` over list-based sets: the open set is a
    `SimpleUnorderedNodeList`, the closed set either another list or a
    `ClosedDictionary`. One `Search` call is a budgeted step that either
    finishes (no path, a path, an exception) or suspends for the next call. */
module AStar {
  import opened Common
  import opened Grids
  import opened NodeRecords
  import opened Movement
  import opened UnorderedNodeLists
  import L = UnorderedNodeLists
  import D = ClosedDictionaries
  import opened Engines
  import GB = GoalBounds

  /** The two closed-set backends the engine is built with. */
  datatype ClosedSet = ClosedList(list: NodeList) | ClosedDict(dict: D.ClosedDictionary)

  datatype ClosedKind = ListClosed | DictionaryClosed

  datatype ListSets = ListSets(open: NodeList, closed: ClosedSet)

  /** The closed set names stored records, at most one per position. */
  ghost predicate ClosedWf(c: ClosedSet, a: Arena) {
    match c
    case ClosedList(l) => Stored(l, a) && UniquePositions(l, a)
    case ClosedDict(d) => D.Consistent(d, a)
  }

  /** The closed set holds a record at position p. */
  ghost predicate ClosedHas(c: ClosedSet, a: Arena, p: Coord)
    requires ClosedWf(c, a)
  {
    match c
    case ClosedList(l) => HasPosition(l, a, p)
    case ClosedDict(d) => p in d
  }

  function ClosedSize(c: ClosedSet): nat {
    match c
    case ClosedList(l) => |l|
    case ClosedDict(d) => |d|
  }

  /** `Closed.Initialize()`: an empty set of the same backend. */
  function InitializeClosed(c: ClosedSet): (r: ClosedSet)
    ensures ClosedSize(r) == 0 && r.ClosedList? == c.ClosedList?
    ensures forall a: Arena :: ClosedWf(r, a)
  {
    match c
    case ClosedList(_) => ClosedList(Initialize())
    case ClosedDict(_) => ClosedDict(D.Initialize())
  }

  /** `Closed.SearchInClosed(node)`. */
  function SearchClosed(c: ClosedSet, a: Arena, id: RecId): (r: Option<RecId>)
    requires ClosedWf(c, a) && id in a
    ensures r.Some? <==> ClosedHas(c, a, a[id].Position())
    ensures r.Some? ==> r.value in a && a[r.value].Position() == a[id].Position()
  {
    match c
    case ClosedList(l) => L.Search(l, a, id)
    case ClosedDict(d) => D.SearchInClosed(d, a, id)
  }

  /** `Closed.AddToClosed(node)`: the list appends; the dictionary throws on a
      position it already holds. Either marks the record Closed. */
  function AddClosed(c: ClosedSet, a: Arena, id: RecId): (r: Result<(ClosedSet, Arena)>)
    requires id in a
    ensures r.Failure? <==> c.ClosedDict? && a[id].Position() in c.dict
    ensures r.Failure? ==> r.error == DuplicateKey
    ensures r.Success? ==> r.value.1 == SetStatus(a, id, Closed) && r.value.0.ClosedList? == c.ClosedList?
  {
    match c
    case ClosedList(l) =>
      var (l', a') := AddToClosed(l, a, id);
      Success((ClosedList(l'), a'))
    case ClosedDict(d) =>
      match D.AddToClosed(d, a, id)
      case Success((d', a')) => Success((ClosedDict(d'), a'))
      case Failure(err) => Failure(err)
  }

  /** `Closed.RemoveFromClosed(node)`; status is not touched. */
  function RemoveClosed(c: ClosedSet, a: Arena, id: RecId): (r: ClosedSet)
    requires ClosedWf(c, a) && id in a
    ensures r.ClosedList? == c.ClosedList?
  {
    match c
    case ClosedList(l) => ClosedList(Remove(l, a, id))
    case ClosedDict(d) => ClosedDict(D.RemoveFromClosed(d, a, id))
  }

  /** Adding a record whose position the set lacks succeeds in both backends
      and adds exactly that position. */
  lemma AddClosedSpec(c: ClosedSet, a: Arena, id: RecId)
    requires ClosedWf(c, a) && id in a && !ClosedHas(c, a, a[id].Position())
    ensures AddClosed(c, a, id).Success?
    ensures ClosedWf(AddClosed(c, a, id).value.0, AddClosed(c, a, id).value.1)
    ensures forall p :: ClosedHas(AddClosed(c, a, id).value.0, AddClosed(c, a, id).value.1, p) <==>
                          ClosedHas(c, a, p) || p == a[id].Position()
  {
    var (c', a') := AddClosed(c, a, id).value;
    match c
    case ClosedList(l) =>
      FirstMatchFrame(l, a, a', a[id].Position());
      var l' := l + [id];
      assert l' == c'.list;
      forall i, j | 0 <= i < j < |l'|
        ensures a'[l'[i]].Position() != a'[l'[j]].Position()
      {
        if j == |l| {
          assert l'[i] == l[i];
        } else {
          assert l'[i] == l[i] && l'[j] == l[j];
        }
      }
      forall p
        ensures HasPosition(l', a', p) <==> HasPosition(l, a, p) || p == a[id].Position()
      {
        FirstMatchFrame(l, a, a', p);
        if HasPosition(l, a', p) {
          var i :| 0 <= i < |l| && a'[l[i]].Position() == p;
          assert l'[i] == l[i];
        }
        if HasPosition(l', a', p) {
          var i :| 0 <= i < |l'| && a'[l'[i]].Position() == p;
          if i < |l| {
            assert l'[i] == l[i];
          }
        }
        if p == a[id].Position() {
          assert l'[|l|] == id;
        }
      }
    case ClosedDict(d) =>
  }

  /** Removing a record drops exactly its position. */
  lemma RemoveClosedSpec(c: ClosedSet, a: Arena, id: RecId)
    requires ClosedWf(c, a) && id in a
    ensures var c' := RemoveClosed(c, a, id);
            && ClosedWf(c', a)
            && forall p :: ClosedHas(c', a, p) <==> ClosedHas(c, a, p) && p != a[id].Position()
  {
    match c
    case ClosedList(l) =>
      if HasPosition(l, a, a[id].Position()) {
        var k := FirstMatch(l, a, a[id].Position()).value;
        RemoveAtUnique(l, a, k);
      }
    case ClosedDict(d) =>
  }

  /** The closed set reads only positions. */
  lemma ClosedFrame(c: ClosedSet, a: Arena, b: Arena)
    requires ClosedWf(c, a) && SameNodes(a, b)
    ensures ClosedWf(c, b)
    ensures forall p :: ClosedHas(c, a, p) <==> ClosedHas(c, b, p)
    ensures forall id | id in a :: SearchClosed(c, a, id) == SearchClosed(c, b, id)
  {
    match c
    case ClosedList(l) =>
      FirstMatchFrame(l, a, b, Coord(0, 0));
      forall p
        ensures HasPosition(l, a, p) <==> HasPosition(l, b, p)
      {
        FirstMatchFrame(l, a, b, p);
      }
      forall id | id in a
        ensures L.Search(l, a, id) == L.Search(l, b, id)
      {
        SearchFrame(l, a, b, id);
      }
    case ClosedDict(d) =>
      D.ConsistentFrame(d, a, b);
  }

  /** The engine invariant: the record grid is well formed, the open list and
      the closed set each hold a position at most once, and no position is in
      both. */
  ghost predicate Wf(e: Engine<ListSets>) {
    e.CellsWf() && SetsWf(e.sets, e.arena)
  }

  ghost predicate SetsWf(s: ListSets, a: Arena) {
    && Stored(s.open, a) && UniquePositions(s.open, a)
    && ClosedWf(s.closed, a)
    && forall i | 0 <= i < |s.open| :: !ClosedHas(s.closed, a, a[s.open[i]].Position())
  }

  /** What a step keeps: the grid's shape, the allocation counter, the budget,
      the start and goal references, and every record's place and walkability. */
  ghost predicate Frame<S, T>(e: Engine<S>, r: Engine<T>) {
    && r.grid.width == e.grid.width && r.grid.height == e.grid.height
    && r.next == e.next && r.nodesPerSearch == e.nodesPerSearch
    && r.startNode == e.startNode && r.goalNode == e.goalNode
    && SameNodes(e.arena, r.arena)
  }

  /** The cost of reaching `node` through `parent`: `parentNode.gCost +
      CalculateDistanceCost(parentNode, node)`. */
  function OfferedCost(a: Arena, parent: RecId, node: RecId): int
    requires parent in a && node in a
  {
    a[parent].gCost + CalculateDistanceCost(a[parent].Position(), a[node].Position())
  }

  /** The relaxation of `ProcessChildNode` with `hn = H(node, GoalNode)`
      already evaluated: a closed record that the new path does not beat is
      reopened, an open one is updated in place, a node in neither set is
      opened; in every case the grid cell is rewritten with `node`. */
  function Relax(e: Engine<ListSets>, hn: nat, parent: RecId, node: RecId): (r: Engine<ListSets>)
    requires Wf(e) && parent in e.arena && node in e.arena
    ensures Frame(e, r)
    ensures r.totalProcessedNodes == e.totalProcessedNodes && r.maxOpenNodes == e.maxOpenNodes
    ensures r.inProgress == e.inProgress
    ensures r.grid == e.grid.SetGridObject(e.arena[node].x, e.arena[node].y, node)
  {
    var a := e.arena;
    var newCost := OfferedCost(a, parent, node);
    var newF := newCost + hn;
    var closedNode := SearchClosed(e.sets.closed, a, node);
    var openNode := L.Search(e.sets.open, a, node);
    var grid' := e.grid.SetGridObject(a[node].x, a[node].y, node);
    if closedNode.Some? && a[closedNode.value].fCost >= newF then
      var c := closedNode.value;
      var closed' := RemoveClosed(e.sets.closed, a, c);
      var added := AddToOpen(e.sets.open, UpdateCosts(a, c, newCost, hn, parent), c);
      e.(grid := grid', arena := added.1, sets := ListSets(added.0, closed'))
    else if openNode.Some? && a[openNode.value].fCost >= newF then
      e.(grid := grid', arena := UpdateCosts(a, openNode.value, newCost, hn, parent))
    else if closedNode.None? && openNode.None? then
      var added := AddToOpen(e.sets.open, UpdateCosts(a, node, newCost, hn, parent), node);
      e.(grid := grid', arena := added.1, sets := ListSets(added.0, e.sets.closed))
    else
      e.(grid := grid')
  }

  /** Writing a stored record back to its own cell, with an arena that moved
      only search fields and whose parent links are stored, keeps the record
      grid well formed. */
  lemma WriteBackKeepsCells<S, T>(e: Engine<S>, r: Engine<T>, node: RecId)
    requires e.CellsWf() && node in e.arena && Frame(e, r)
    requires r.grid == e.grid.SetGridObject(e.arena[node].x, e.arena[node].y, node)
    requires ParentsStored(r.arena)
    ensures r.CellsWf()
  {
    var p := e.arena[node].Position();
    assert e.grid.WithinGridLimits(p.x, p.y);
    forall x, y | 0 <= x < r.grid.width && 0 <= y < r.grid.height
      ensures r.grid.cells[x][y] in r.arena && r.arena[r.grid.cells[x][y]].Position() == Coord(x, y)
    {
      if x != p.x || y != p.y {
        assert r.grid.cells[x][y] == e.grid.cells[x][y];
      }
    }
    forall id | id in r.arena
      ensures id < r.next && InBounds(r.arena[id].Position(), r.grid.width, r.grid.height)
    {
      assert id in e.arena;
    }
  }

  /** Relaxation keeps the engine invariant. */
  lemma RelaxWf(e: Engine<ListSets>, hn: nat, parent: RecId, node: RecId)
    requires Wf(e) && parent in e.arena && node in e.arena
    ensures Wf(Relax(e, hn, parent, node))
  {
    RelaxSetsWf(e, hn, parent, node);
    WriteBackKeepsCells(e, Relax(e, hn, parent, node), node);
  }

  lemma RelaxSetsWf(e: Engine<ListSets>, hn: nat, parent: RecId, node: RecId)
    requires Wf(e) && parent in e.arena && node in e.arena
    ensures var r := Relax(e, hn, parent, node);
            SetsWf(r.sets, r.arena) && ParentsStored(r.arena)
  {
    var a := e.arena;
    var newF := OfferedCost(a, parent, node) + hn;
    var closedNode := SearchClosed(e.sets.closed, a, node);
    var openNode := L.Search(e.sets.open, a, node);
    if closedNode.Some? && a[closedNode.value].fCost >= newF {
      RelaxReopenWf(e, hn, parent, node);
    } else if openNode.Some? && a[openNode.value].fCost >= newF {
      RelaxUpdateWf(e, hn, parent, node);
    } else if closedNode.None? && openNode.None? {
      RelaxOpenNewWf(e, hn, parent, node);
    }
  }

  lemma RelaxReopenWf(e: Engine<ListSets>, hn: nat, parent: RecId, node: RecId)
    requires Wf(e) && parent in e.arena && node in e.arena
    requires var c := SearchClosed(e.sets.closed, e.arena, node);
             c.Some? && e.arena[c.value].fCost >= OfferedCost(e.arena, parent, node) + hn
    ensures var r := Relax(e, hn, parent, node);
            SetsWf(r.sets, r.arena) && ParentsStored(r.arena)
  {
    var a := e.arena;
    var c := SearchClosed(e.sets.closed, a, node).value;
    var a1 := UpdateCosts(a, c, OfferedCost(a, parent, node), hn, parent);
    SetsWfReopen(e.sets, a, c, a1);
  }

  lemma RelaxUpdateWf(e: Engine<ListSets>, hn: nat, parent: RecId, node: RecId)
    requires Wf(e) && parent in e.arena && node in e.arena
    requires var c := SearchClosed(e.sets.closed, e.arena, node);
             !(c.Some? && e.arena[c.value].fCost >= OfferedCost(e.arena, parent, node) + hn)
    requires var o := L.Search(e.sets.open, e.arena, node);
             o.Some? && e.arena[o.value].fCost >= OfferedCost(e.arena, parent, node) + hn
    ensures var r := Relax(e, hn, parent, node);
            SetsWf(r.sets, r.arena) && ParentsStored(r.arena)
  {
    var a := e.arena;
    var o := L.Search(e.sets.open, a, node).value;
    SetsWfFrame(e.sets, a, UpdateCosts(a, o, OfferedCost(a, parent, node), hn, parent));
  }

  lemma RelaxOpenNewWf(e: Engine<ListSets>, hn: nat, parent: RecId, node: RecId)
    requires Wf(e) && parent in e.arena && node in e.arena
    requires SearchClosed(e.sets.closed, e.arena, node).None? && L.Search(e.sets.open, e.arena, node).None?
    ensures var r := Relax(e, hn, parent, node);
            SetsWf(r.sets, r.arena) && ParentsStored(r.arena)
  {
    var a := e.arena;
    var a1 := UpdateCosts(a, node, OfferedCost(a, parent, node), hn, parent);
    UpdateParentsStored(a, node, OfferedCost(a, parent, node), hn, parent);
    StatusParentsStored(a1, node, Open);
    SetsWfOpenNew(e.sets, a, node, a1);
    var r := Relax(e, hn, parent, node);
    assert r.sets == ListSets(e.sets.open + [node], e.sets.closed) && r.arena == SetStatus(a1, node, Open);
  }

  /** Whatever case applies, afterwards the open list or the closed set holds
      the node's position with an fCost no worse than the one the new path
      offers: a relaxed neighbour is never left unreached. */
  lemma RelaxBound(e: Engine<ListSets>, hn: nat, parent: RecId, node: RecId)
    requires Wf(e) && parent in e.arena && node in e.arena
    ensures Wf(Relax(e, hn, parent, node))
    ensures var r := Relax(e, hn, parent, node);
            var newF := OfferedCost(e.arena, parent, node) + hn;
            var o := L.Search(r.sets.open, r.arena, node);
            var c := SearchClosed(r.sets.closed, r.arena, node);
            (o.Some? && r.arena[o.value].fCost <= newF) || (c.Some? && r.arena[c.value].fCost <= newF)
  {
    RelaxWf(e, hn, parent, node);
    var a := e.arena;
    var newF := OfferedCost(a, parent, node) + hn;
    var closedNode := SearchClosed(e.sets.closed, a, node);
    var openNode := L.Search(e.sets.open, a, node);
    if closedNode.Some? && a[closedNode.value].fCost >= newF {
      RelaxReopenOutcome(e, hn, parent, node);
    } else if openNode.Some? && a[openNode.value].fCost >= newF {
      RelaxUpdateOutcome(e, hn, parent, node);
    } else if closedNode.None? && openNode.None? {
      RelaxOpenNewOutcome(e, hn, parent, node);
    } else {
      RelaxKeepOutcome(e, hn, parent, node);
    }
  }

  /** Closed and not beaten: the closed record takes the new costs and parent,
      leaves the closed set and is what the open list now finds. */
  lemma RelaxReopenOutcome(e: Engine<ListSets>, hn: nat, parent: RecId, node: RecId)
    requires Wf(e) && parent in e.arena && node in e.arena
    requires var c := SearchClosed(e.sets.closed, e.arena, node);
             c.Some? && e.arena[c.value].fCost >= OfferedCost(e.arena, parent, node) + hn
    ensures Wf(Relax(e, hn, parent, node))
    ensures var r := Relax(e, hn, parent, node);
            var a := e.arena;
            var g := OfferedCost(a, parent, node);
            var c := SearchClosed(e.sets.closed, a, node).value;
            && L.Search(r.sets.open, r.arena, node) == Some(c)
            && SearchClosed(r.sets.closed, r.arena, node).None?
            && r.arena[c] == a[c].(gCost := g, hCost := hn, fCost := g + hn, parent := Some(parent), status := Open)
            && (forall id | id in a && id != c :: r.arena[id] == a[id])
  {
    RelaxWf(e, hn, parent, node);
    ReopenLeavesClosed(e, hn, parent, node);
    ReopenFoundInOpen(e, hn, parent, node);
  }

  lemma ReopenLeavesClosed(e: Engine<ListSets>, hn: nat, parent: RecId, node: RecId)
    requires Wf(e) && parent in e.arena && node in e.arena
    requires var c := SearchClosed(e.sets.closed, e.arena, node);
             c.Some? && e.arena[c.value].fCost >= OfferedCost(e.arena, parent, node) + hn
    ensures Wf(Relax(e, hn, parent, node))
    ensures var r := Relax(e, hn, parent, node);
            SearchClosed(r.sets.closed, r.arena, node).None?
  {
    RelaxWf(e, hn, parent, node);
    var a := e.arena;
    var c := SearchClosed(e.sets.closed, a, node).value;
    var r := Relax(e, hn, parent, node);
    assert r.sets.closed == RemoveClosed(e.sets.closed, a, c);
    RemoveClosedSpec(e.sets.closed, a, c);
    ClosedFrame(r.sets.closed, a, r.arena);
  }

  lemma ReopenFoundInOpen(e: Engine<ListSets>, hn: nat, parent: RecId, node: RecId)
    requires Wf(e) && parent in e.arena && node in e.arena
    requires var c := SearchClosed(e.sets.closed, e.arena, node);
             c.Some? && e.arena[c.value].fCost >= OfferedCost(e.arena, parent, node) + hn
    ensures var r := Relax(e, hn, parent, node);
            var c := SearchClosed(e.sets.closed, e.arena, node).value;
            && Stored(r.sets.open, r.arena)
            && L.Search(r.sets.open, r.arena, node) == Some(c)
  {
    var a := e.arena;
    var c := SearchClosed(e.sets.closed, a, node).value;
    var a1 := UpdateCosts(a, c, OfferedCost(a, parent, node), hn, parent);
    var r := Relax(e, hn, parent, node);
    assert r.sets.open == e.sets.open + [c] && r.arena == SetStatus(a1, c, Open);
    FirstMatchFrame(e.sets.open, a, a1, a[c].Position());
    AddSearchRemove(e.sets.open, a1, c);
    assert L.Search(r.sets.open, r.arena, node) == L.Search(r.sets.open, r.arena, c);
  }

  /** Open and not beaten: the open record takes the new costs and parent in
      place; the sets do not change. */
  lemma RelaxUpdateOutcome(e: Engine<ListSets>, hn: nat, parent: RecId, node: RecId)
    requires Wf(e) && parent in e.arena && node in e.arena
    requires var c := SearchClosed(e.sets.closed, e.arena, node);
             !(c.Some? && e.arena[c.value].fCost >= OfferedCost(e.arena, parent, node) + hn)
    requires var o := L.Search(e.sets.open, e.arena, node);
             o.Some? && e.arena[o.value].fCost >= OfferedCost(e.arena, parent, node) + hn
    ensures Wf(Relax(e, hn, parent, node))
    ensures var r := Relax(e, hn, parent, node);
            var a := e.arena;
            var g := OfferedCost(a, parent, node);
            var o := L.Search(e.sets.open, a, node).value;
            && r.sets == e.sets
            && L.Search(r.sets.open, r.arena, node) == Some(o)
            && r.arena[o] == a[o].(gCost := g, hCost := hn, fCost := g + hn, parent := Some(parent))
            && (forall id | id in a && id != o :: r.arena[id] == a[id])
  {
    RelaxWf(e, hn, parent, node);
    SearchFrame(e.sets.open, e.arena, Relax(e, hn, parent, node).arena, node);
  }

  /** In neither set: the node itself takes the new costs and parent and is
      opened. */
  lemma RelaxOpenNewOutcome(e: Engine<ListSets>, hn: nat, parent: RecId, node: RecId)
    requires Wf(e) && parent in e.arena && node in e.arena
    requires SearchClosed(e.sets.closed, e.arena, node).None? && L.Search(e.sets.open, e.arena, node).None?
    ensures Wf(Relax(e, hn, parent, node))
    ensures var r := Relax(e, hn, parent, node);
            var a := e.arena;
            var g := OfferedCost(a, parent, node);
            && r.sets.closed == e.sets.closed && r.sets.open == e.sets.open + [node]
            && L.Search(r.sets.open, r.arena, node) == Some(node)
            && r.arena[node] == a[node].(gCost := g, hCost := hn, fCost := g + hn, parent := Some(parent), status := Open)
            && (forall id | id in a && id != node :: r.arena[id] == a[id])
  {
    RelaxWf(e, hn, parent, node);
    var a := e.arena;
    var a1 := UpdateCosts(a, node, OfferedCost(a, parent, node), hn, parent);
    var r := Relax(e, hn, parent, node);
    assert r.sets.open == e.sets.open + [node] && r.arena == SetStatus(a1, node, Open);
    FirstMatchFrame(e.sets.open, a, a1, a[node].Position());
    AddSearchRemove(e.sets.open, a1, node);
  }

  /** Otherwise a record at least as good is already held: nothing but the
      grid write happens. */
  lemma RelaxKeepOutcome(e: Engine<ListSets>, hn: nat, parent: RecId, node: RecId)
    requires Wf(e) && parent in e.arena && node in e.arena
    requires var c := SearchClosed(e.sets.closed, e.arena, node);
             var o := L.Search(e.sets.open, e.arena, node);
             var newF := OfferedCost(e.arena, parent, node) + hn;
             && !(c.Some? && e.arena[c.value].fCost >= newF)
             && !(o.Some? && e.arena[o.value].fCost >= newF)
             && !(c.None? && o.None?)
    ensures var r := Relax(e, hn, parent, node);
            r.sets == e.sets && r.arena == e.arena
  {
  }

  /** The sets read only positions. */
  lemma SetsWfFrame(s: ListSets, a: Arena, b: Arena)
    requires SetsWf(s, a) && SameNodes(a, b)
    ensures SetsWf(s, b)
  {
    FirstMatchFrame(s.open, a, b, Coord(0, 0));
    ClosedFrame(s.closed, a, b);
  }

  /** Reopening a closed record: it leaves the closed set and joins the open list. */
  lemma SetsWfReopen(s: ListSets, a: Arena, c: RecId, a1: Arena)
    requires SetsWf(s, a) && c in a && ClosedHas(s.closed, a, a[c].Position()) && SameNodes(a, a1)
    ensures SetsWf(ListSets(s.open + [c], RemoveClosed(s.closed, a, c)), SetStatus(a1, c, Open))
  {
    var closed' := RemoveClosed(s.closed, a, c);
    RemoveClosedSpec(s.closed, a, c);
    assert !HasPosition(s.open, a, a[c].Position());
    AppendUnique(s.open, a, c);
    var s' := ListSets(s.open + [c], closed');
    forall i | 0 <= i < |s'.open|
      ensures !ClosedHas(closed', a, a[s'.open[i]].Position())
    {
      if i < |s.open| {
        assert s'.open[i] == s.open[i];
      }
    }
    SetsWfFrame(s', a, SetStatus(a1, c, Open));
  }

  /** Opening a record whose position is in neither set. */
  lemma SetsWfOpenNew(s: ListSets, a: Arena, n: RecId, a1: Arena)
    requires SetsWf(s, a) && n in a && SameNodes(a, a1)
    requires !ClosedHas(s.closed, a, a[n].Position()) && !HasPosition(s.open, a, a[n].Position())
    ensures SetsWf(ListSets(s.open + [n], s.closed), SetStatus(a1, n, Open))
  {
    AppendUnique(s.open, a, n);
    var s' := ListSets(s.open + [n], s.closed);
    forall i | 0 <= i < |s'.open|
      ensures !ClosedHas(s.closed, a, a[s'.open[i]].Position())
    {
      if i < |s.open| {
        assert s'.open[i] == s.open[i];
      }
    }
    SetsWfFrame(s', a, SetStatus(a1, n, Open));
  }

  /** Appending a record whose position the list lacks keeps positions unique. */
  lemma AppendUnique(l: NodeList, a: Arena, id: RecId)
    requires Stored(l, a) && UniquePositions(l, a) && id in a && !HasPosition(l, a, a[id].Position())
    ensures Stored(l + [id], a) && UniquePositions(l + [id], a)
    ensures forall q :: HasPosition(l + [id], a, q) <==> HasPosition(l, a, q) || q == a[id].Position()
  {
    var l' := l + [id];
    forall i, j | 0 <= i < j < |l'|
      ensures a[l'[i]].Position() != a[l'[j]].Position()
    {
      assert l'[i] == l[i];
      if j < |l| {
        assert l'[j] == l[j];
      }
    }
    forall q
      ensures HasPosition(l', a, q) <==> HasPosition(l, a, q) || q == a[id].Position()
    {
      if HasPosition(l, a, q) {
        var i :| 0 <= i < |l| && a[l[i]].Position() == q;
        assert l'[i] == l[i];
      }
      if HasPosition(l', a, q) {
        var i :| 0 <= i < |l'| && a[l'[i]].Position() == q;
        if i < |l| {
          assert l'[i] == l[i];
        }
      }
      if q == a[id].Position() {
        assert l'[|l|] == id;
      }
    }
  }

  /** `ProcessChildNode`: `H(node, GoalNode)` is evaluated first, and throws
      when the goal reference is null and the heuristic reads it; then the
      relaxation runs. */
  function ProcessChildNode(e: Engine<ListSets>, h: Heuristic, parent: RecId, node: RecId): (r: Result<Engine<ListSets>>)
    requires Wf(e) && parent in e.arena && node in e.arena
    ensures r.Failure? <==> h(e.arena[node].Position(), e.GoalPosition()).None?
    ensures r.Failure? ==> r.error == NullReference && e.goalNode.None?
    ensures r.Success? ==> Wf(r.value) && r.value == Relax(e, h(e.arena[node].Position(), e.GoalPosition()).value, parent, node)
  {
    match h(e.arena[node].Position(), e.GoalPosition())
    case None => Failure(NullReference)
    case Some(hn) =>
      RelaxWf(e, hn, parent, node);
      Success(Relax(e, hn, parent, node))
  }

  /** Which neighbours a round relaxes: all of them (`AStarPathfinding`), or
      those for which `GoalBoundBothInside(StartNode, neighbour, GoalNode)`
      holds over fixed bounds (the goal-bounded engines). */
  datatype NeighbourFilter = KeepAll | InsideGoalBounds(bounds: GB.Bounds)

  /** The filter's verdict on one neighbour position. Reading the start's or
      the goal's coordinates through a null reference throws, and so does a
      bounds lookup with a missing key. The source's filter also tests
      `neighbourNode.isWalkable`; that conjunct always holds, because
      `GetNeighbourList` has already dropped the unwalkable cells
      (`Engines.GetNeighbourListExact`), so it is not repeated here. */
  function Keep(f: NeighbourFilter, start: Option<Coord>, goal: Option<Coord>, c: Coord): (r: Result<bool>)
    ensures f.KeepAll? ==> r == Success(true)
    ensures f.InsideGoalBounds? && (start.None? || goal.None?) ==> r == Failure(NullReference)
    ensures f.InsideGoalBounds? && start.Some? && goal.Some? ==>
              r == GB.GoalBoundBothInside(f.bounds, start.value, c, goal.value)
  {
    match f
    case KeepAll => Success(true)
    case InsideGoalBounds(b) =>
      if start.None? || goal.None? then Failure(NullReference)
      else GB.GoalBoundBothInside(b, start.value, c, goal.value)
  }

  /** How many of the neighbours the filter lets through. */
  function KeptCount(f: NeighbourFilter, start: Option<Coord>, goal: Option<Coord>, a: Arena, nbrs: seq<RecId>): (n: nat)
    requires forall i | 0 <= i < |nbrs| :: nbrs[i] in a
    ensures n <= |nbrs|
    ensures f.KeepAll? ==> n == |nbrs|
  {
    if |nbrs| == 0 then 0
    else (if Keep(f, start, goal, a[nbrs[0]].Position()) == Success(true) then 1 else 0)
         + KeptCount(f, start, goal, a, nbrs[1..])
  }

  /** The count reads positions only. */
  lemma {:induction false} KeptCountFrame(f: NeighbourFilter, start: Option<Coord>, goal: Option<Coord>, a: Arena, b: Arena, nbrs: seq<RecId>)
    requires SameNodes(a, b) && forall i | 0 <= i < |nbrs| :: nbrs[i] in a
    ensures KeptCount(f, start, goal, a, nbrs) == KeptCount(f, start, goal, b, nbrs)
    decreases |nbrs|
  {
    if |nbrs| > 0 {
      KeptCountFrame(f, start, goal, a, b, nbrs[1..]);
    }
  }

  /** The exceptions a round's neighbour loop can raise: the heuristic's null
      goal, or the filter's null start or goal or missing bounds entry. */
  ghost predicate LoopError<S>(f: NeighbourFilter, e: Engine<S>, err: Error) {
    || (err == NullReference && e.goalNode.None?)
    || (f.InsideGoalBounds? && err == NullReference && e.startNode.None?)
    || (f.InsideGoalBounds? && err == KeyNotFound && e.startNode.Some? && e.startNode.value in e.arena &&
        var s := e.arena[e.startNode.value].Position();
        !(s in f.bounds && GB.HasAllDirections(f.bounds[s])))
  }

  /** The start and goal references and positions are part of the frame. */
  lemma LoopErrorFrame<S, T>(f: NeighbourFilter, e: Engine<S>, e': Engine<T>)
    requires Frame(e, e')
    ensures forall err :: LoopError(f, e', err) ==> LoopError(f, e, err)
  {
  }

  /** What one counted relaxation keeps: the invariant, the frame and the
      search counters, with `MaxOpenNodes` caught up with the open count. */
  ghost predicate Stepped(e: Engine<ListSets>, r: Engine<ListSets>) {
    && Wf(r) && Frame(e, r)
    && r.totalProcessedNodes == e.totalProcessedNodes && r.inProgress == e.inProgress
    && r.maxOpenNodes >= e.maxOpenNodes && r.maxOpenNodes >= |r.sets.open|
  }

  /** One counted relaxation: `ProcessChildNode`, then `MaxOpenNodes` catches
      up with the open count. */
  function RelaxCounted(e: Engine<ListSets>, h: Heuristic, parent: RecId, node: RecId): (r: Result<Engine<ListSets>>)
    requires Wf(e) && parent in e.arena && node in e.arena
    ensures r.Failure? ==> r.error == NullReference && e.goalNode.None?
    ensures r.Success? ==> Stepped(e, r.value)
  {
    match ProcessChildNode(e, h, parent, node)
    case Failure(err) => Failure(err)
    case Success(e1) => Success(e1.(maxOpenNodes := Max(e1.maxOpenNodes, |e1.sets.open|)))
  }

  /** How the neighbour loop of one expansion ended: the engine after it, the
      running `ProcessedNodes`, and the exception that cut it short, if any. */
  datatype Relaxed = Relaxed(engine: Engine<ListSets>, processed: nat, error: Option<Error>)

  /** What the neighbour loop guarantees, given the engine `e` it started
      from and the running count `processed` it started with. */
  ghost predicate RelaxedWell(e: Engine<ListSets>, f: NeighbourFilter, nbrs: seq<RecId>, processed: nat, r: Relaxed)
    requires e.CellsWf() && forall i | 0 <= i < |nbrs| :: nbrs[i] in e.arena
  {
    && Wf(r.engine) && Frame(e, r.engine)
    && r.engine.totalProcessedNodes == e.totalProcessedNodes && r.engine.inProgress == e.inProgress
    && processed <= r.processed <= processed + |nbrs|
    && (r.error.None? ==> r.processed == processed + KeptCount(f, e.StartPosition(), e.GoalPosition(), e.arena, nbrs))
    && (r.error.Some? ==> LoopError(f, e, r.error.value))
    && (r.processed == processed ==> r.engine == e)
    && r.engine.maxOpenNodes >= e.maxOpenNodes
    && (r.processed > processed ==> r.engine.maxOpenNodes >= |r.engine.sets.open|)
  }

  /** The neighbour loop of `Search`: each neighbour the filter keeps is
      relaxed, then `MaxOpenNodes` catches up with the open count and
      `ProcessedNodes` grows by one; the others are skipped uncounted. */
  function RelaxAll(e: Engine<ListSets>, h: Heuristic, f: NeighbourFilter, parent: RecId, nbrs: seq<RecId>, processed: nat): (r: Relaxed)
    requires Wf(e) && parent in e.arena && forall i | 0 <= i < |nbrs| :: nbrs[i] in e.arena
    ensures RelaxedWell(e, f, nbrs, processed, r)
    decreases |nbrs|
  {
    if |nbrs| == 0 then Relaxed(e, processed, None)
    else
      var keep := Keep(f, e.StartPosition(), e.GoalPosition(), e.arena[nbrs[0]].Position());
      if keep.Failure? then Relaxed(e, processed, Some(keep.error))
      else if !keep.value then
        var r := RelaxAll(e, h, f, parent, nbrs[1..], processed);
        RelaxedSkip(e, f, nbrs, processed, r);
        r
      else
        var counted := RelaxCounted(e, h, parent, nbrs[0]);
        if counted.Failure? then Relaxed(e, processed, Some(counted.error))
        else
          var r := RelaxAll(counted.value, h, f, parent, nbrs[1..], processed + 1);
          RelaxedStep(e, counted.value, f, nbrs, processed, r);
          r
  }

  lemma RelaxedSkip(e: Engine<ListSets>, f: NeighbourFilter, nbrs: seq<RecId>, processed: nat, r: Relaxed)
    requires Wf(e) && |nbrs| > 0 && forall i | 0 <= i < |nbrs| :: nbrs[i] in e.arena
    requires Keep(f, e.StartPosition(), e.GoalPosition(), e.arena[nbrs[0]].Position()) == Success(false)
    requires RelaxedWell(e, f, nbrs[1..], processed, r)
    ensures RelaxedWell(e, f, nbrs, processed, r)
  {
  }

  lemma RelaxedStep(e: Engine<ListSets>, e2: Engine<ListSets>, f: NeighbourFilter, nbrs: seq<RecId>, processed: nat, r: Relaxed)
    requires Wf(e) && |nbrs| > 0 && forall i | 0 <= i < |nbrs| :: nbrs[i] in e.arena
    requires Keep(f, e.StartPosition(), e.GoalPosition(), e.arena[nbrs[0]].Position()) == Success(true)
    requires Stepped(e, e2)
    requires RelaxedWell(e2, f, nbrs[1..], processed + 1, r)
    ensures RelaxedWell(e, f, nbrs, processed, r)
  {
    KeptCountFrame(f, e.StartPosition(), e.GoalPosition(), e.arena, e2.arena, nbrs[1..]);
    SameNodesTransitive(e.arena, e2.arena, r.engine.arena);
    LoopErrorFrame(f, e, e2);
  }

  /** What one `Search` call ends with, the engine it leaves, and the value of
      its local `ProcessedNodes` counter at the return. */
  datatype Outcome = Outcome(result: SearchResult, engine: Engine<ListSets>, processed: nat)

  /** Taking the best record out of the open list keeps the invariant, and
      its position is then in neither set. */
  lemma PopWf(e: Engine<ListSets>)
    requires Wf(e) && |e.sets.open| > 0
    ensures var best, open' := GetBestAndRemove(e.sets.open, e.arena).0, GetBestAndRemove(e.sets.open, e.arena).1;
            && best in e.arena
            && SetsWf(ListSets(open', e.sets.closed), e.arena)
            && !HasPosition(open', e.arena, e.arena[best].Position())
            && !ClosedHas(e.sets.closed, e.arena, e.arena[best].Position())
  {
    var l := e.sets.open;
    var a := e.arena;
    var k := PeekBestIndex(l, a);
    RemoveAtUnique(l, a, k);
    var open' := l[..k] + l[k + 1..];
    forall i | 0 <= i < |open'|
      ensures !ClosedHas(e.sets.closed, a, a[open'[i]].Position())
    {
      var j :| 0 <= j < |l| && l[j] == open'[i];
    }
  }

  /** One round of the loop of `Search` either ends the call or hands the
      loop an updated engine and count. */
  datatype Round = Finished(outcome: Outcome) | Continue(engine: Engine<ListSets>, processed: nat)

  /** The guarantees every way out of `Search` gives, given the engine `e` and
      budget the call started with. */
  ghost predicate Returned(e: Engine<ListSets>, f: NeighbourFilter, r: Outcome) {
    && Wf(r.engine) && Frame(e, r.engine)
    && (r.result.Suspended? ==> r.processed > e.nodesPerSearch)
    && (r.result.NoPath? || r.result.PathFound? ==> r.processed <= e.nodesPerSearch)
    && (r.result.Suspended? ==>
          r.engine.totalProcessedNodes == (e.totalProcessedNodes + r.processed) % UIntModulus)
    && (!r.result.Suspended? ==> r.engine.totalProcessedNodes == e.totalProcessedNodes)
    && (r.result.NoPath? ==> |r.engine.sets.open| == 0)
    && (r.result.PathFound? ==>
          var p := r.result.path;
          && |p| > 0 && e.goalNode.Some?
          && IsPathTo(r.engine.arena, e.startNode, p, p[|p| - 1])
          && r.engine.arena[p[|p| - 1]].Equals(r.engine.arena[e.goalNode.value])
          && !r.engine.inProgress)
    && (!r.result.PathFound? ==> r.engine.inProgress == e.inProgress)
    && (r.result.Crashed? ==> r.result.error in {NullReference, OutOfFuel} || LoopError(f, e, r.result.error))
    && (r.result.Crashed? && f.KeepAll? ==> r.result.error in {NullReference, OutOfFuel})
    && r.engine.maxOpenNodes >= e.maxOpenNodes
  }

  /** What a round promises, given the engine it started from: an ending
      gives `Returned`; a hand-back keeps the invariant and the frame, and a
      round that counted no neighbour leaves at most `openBound` open
      records. */
  ghost predicate RoundWell(e: Engine<ListSets>, f: NeighbourFilter, processed: nat, openBound: int, r: Round) {
    && (r.Finished? ==> Returned(e, f, r.outcome) && processed <= r.outcome.processed <= processed + 8)
    && (r.Continue? ==>
          && Wf(r.engine) && Frame(e, r.engine)
          && r.engine.totalProcessedNodes == e.totalProcessedNodes
          && r.engine.inProgress == e.inProgress
          && r.engine.maxOpenNodes >= e.maxOpenNodes
          && processed <= r.processed <= processed + 8
          && (r.processed == processed ==> |r.engine.sets.open| <= openBound))
  }

  /** The body of the loop of `Search`, entered with the count within budget
      and a non-empty open list: pop the best record; if it is the goal, end
      with its path; otherwise expand it. */
  function SearchRound(e: Engine<ListSets>, h: Heuristic, f: NeighbourFilter, processed: nat): (r: Round)
    requires Wf(e) && processed <= e.nodesPerSearch && |e.sets.open| > 0
    ensures RoundWell(e, f, processed, |e.sets.open| - 1, r)
  {
    var popped := GetBestAndRemove(e.sets.open, e.arena);
    var best := popped.0;
    PopWf(e);
    var e1 := e.(sets := e.sets.(open := popped.1));
    var r := if e.goalNode.Some? && e.arena[best].Equals(e.arena[e.goalNode.value])
             then Finished(FinishAtGoal(e1, f, best, processed))
             else Expand(e1, h, f, best, processed);
    RoundEnds(e, e1, f, processed, r);
    r
  }

  /** What a round promises about the engine after the pop carries over to
      the engine before it, which had one more open record. */
  lemma RoundEnds(e: Engine<ListSets>, e1: Engine<ListSets>, f: NeighbourFilter, processed: nat, r: Round)
    requires Wf(e) && Wf(e1) && e1 == e.(sets := e.sets.(open := e1.sets.open))
    requires |e1.sets.open| < |e.sets.open|
    requires RoundWell(e1, f, processed, |e1.sets.open|, r)
    ensures RoundWell(e, f, processed, |e.sets.open| - 1, r)
  {
    if r.Finished? {
      ReturnedChain(e, e1, f, r.outcome);
    } else {
      SameNodesTransitive(e.arena, e1.arena, r.engine.arena);
    }
  }

  /** The popped record is the goal: `CalculatePath` and, if it returns, clear
      `InProgress`. */
  function FinishAtGoal(e: Engine<ListSets>, f: NeighbourFilter, best: RecId, processed: nat): (r: Outcome)
    requires Wf(e) && best in e.arena && processed <= e.nodesPerSearch
    requires e.goalNode.Some? && e.arena[best].Equals(e.arena[e.goalNode.value])
    ensures Returned(e, f, r) && r.processed == processed
  {
    match CalculatePath(e, best)
    case Success(path) => Outcome(PathFound(path), e.(inProgress := false), processed)
    case Failure(err) => Outcome(Crashed(err), e, processed)
  }

  /** The popped record is not the goal: `Closed.AddToClosed`, rewrite its
      cell, relax each neighbour. The record's position is in neither set,
      so the dictionary's `Add` does not throw. */
  function Expand(e: Engine<ListSets>, h: Heuristic, f: NeighbourFilter, best: RecId, processed: nat): (r: Round)
    requires Wf(e) && best in e.arena && processed <= e.nodesPerSearch
    requires !HasPosition(e.sets.open, e.arena, e.arena[best].Position())
    requires !ClosedHas(e.sets.closed, e.arena, e.arena[best].Position())
    ensures RoundWell(e, f, processed, |e.sets.open|, r)
  {
    var e2 := Close(e, best);
    var nbrs := GetNeighbourList(e2, best);
    var rx := RelaxAll(e2, h, f, best, nbrs, processed);
    ExpandEnds(e, e2, f, nbrs, processed, rx);
    if rx.error.Some? then
      Finished(Outcome(Crashed(rx.error.value), rx.engine, rx.processed))
    else
      Continue(rx.engine, rx.processed)
  }

  /** The neighbour loop after the close ends the call on an exception and
      otherwise hands the loop its engine and count. */
  lemma ExpandEnds(e: Engine<ListSets>, e2: Engine<ListSets>, f: NeighbourFilter, nbrs: seq<RecId>, processed: nat, rx: Relaxed)
    requires Wf(e) && Wf(e2) && Frame(e, e2) && processed <= e.nodesPerSearch
    requires e2 == e.(arena := e2.arena, sets := ListSets(e.sets.open, e2.sets.closed), grid := e2.grid)
    requires |nbrs| <= 8 && forall i | 0 <= i < |nbrs| :: nbrs[i] in e2.arena
    requires RelaxedWell(e2, f, nbrs, processed, rx)
    ensures rx.error.Some? ==>
              Returned(e, f, Outcome(Crashed(rx.error.value), rx.engine, rx.processed))
              && processed <= rx.processed <= processed + 8
    ensures rx.error.None? ==>
              && Wf(rx.engine) && Frame(e, rx.engine)
              && rx.engine.totalProcessedNodes == e.totalProcessedNodes
              && rx.engine.inProgress == e.inProgress
              && rx.engine.maxOpenNodes >= e.maxOpenNodes
              && processed <= rx.processed <= processed + 8
              && (rx.processed == processed ==> |rx.engine.sets.open| == |e.sets.open|)
  {
    SameNodesTransitive(e.arena, e2.arena, rx.engine.arena);
    LoopErrorFrame(f, e, e2);
  }

  /** `Closed.AddToClosed(best)` for a record whose position is in neither
      set, and the write of `best` into its cell: the open list is untouched
      and the invariant is kept. */
  function Close(e: Engine<ListSets>, best: RecId): (r: Engine<ListSets>)
    requires Wf(e) && best in e.arena
    requires !HasPosition(e.sets.open, e.arena, e.arena[best].Position())
    requires !ClosedHas(e.sets.closed, e.arena, e.arena[best].Position())
    ensures Wf(r) && Frame(e, r)
    ensures r == e.(arena := r.arena, sets := ListSets(e.sets.open, r.sets.closed), grid := r.grid)
    ensures r.arena[best].status == Closed
  {
    AddClosedSpec(e.sets.closed, e.arena, best);
    var added := AddClosed(e.sets.closed, e.arena, best).value;
    var r := e.(arena := added.1, sets := ListSets(e.sets.open, added.0),
                grid := e.grid.SetGridObject(e.arena[best].x, e.arena[best].y, best));
    ClosedKeepsWf(e, best, r);
    r
  }

  lemma ClosedKeepsWf(e: Engine<ListSets>, best: RecId, r: Engine<ListSets>)
    requires Wf(e) && best in e.arena
    requires !HasPosition(e.sets.open, e.arena, e.arena[best].Position())
    requires r.arena == SetStatus(e.arena, best, Closed) && ClosedWf(r.sets.closed, r.arena)
    requires forall p :: ClosedHas(r.sets.closed, r.arena, p) <==> ClosedHas(e.sets.closed, e.arena, p) || p == e.arena[best].Position()
    requires r == e.(arena := r.arena, sets := ListSets(e.sets.open, r.sets.closed),
                     grid := e.grid.SetGridObject(e.arena[best].x, e.arena[best].y, best))
    ensures Wf(r) && Frame(e, r)
  {
    var open := e.sets.open;
    FirstMatchFrame(open, e.arena, r.arena, Coord(0, 0));
    forall i | 0 <= i < |open|
      ensures !ClosedHas(r.sets.closed, r.arena, r.arena[open[i]].Position())
    {
      assert HasPosition(open, e.arena, e.arena[open[i]].Position());
    }
    WriteBackKeepsCells(e, r, best);
  }

  /** The loop of `Search` from a running count of `processed`: stop with
      `false` once the count exceeds the budget, stop with a null solution on
      an empty open list, otherwise run a round. */
  function SearchFrom(e: Engine<ListSets>, h: Heuristic, f: NeighbourFilter, processed: nat): (r: Outcome)
    requires Wf(e)
    ensures Returned(e, f, r)
    ensures r.processed >= processed
    ensures processed <= e.nodesPerSearch ==> r.processed <= e.nodesPerSearch + 8
    decreases if processed <= e.nodesPerSearch then e.nodesPerSearch + 1 - processed else 0, |e.sets.open|
  {
    if processed > e.nodesPerSearch then
      Outcome(Suspended, e.(totalProcessedNodes := (e.totalProcessedNodes + processed) % UIntModulus), processed)
    else if |e.sets.open| == 0 then
      Outcome(NoPath, e, processed)
    else
      match SearchRound(e, h, f, processed)
      case Finished(o) => o
      case Continue(e', p') =>
        var r := SearchFrom(e', h, f, p');
        ReturnedChain(e, e', f, r);
        r
  }

  /** Within budget and with open records, the loop is one round followed,
      if the round hands back, by the loop from where it left off. */
  lemma SearchFromStep(e: Engine<ListSets>, h: Heuristic, f: NeighbourFilter, processed: nat)
    requires Wf(e) && processed <= e.nodesPerSearch && |e.sets.open| > 0
    ensures var round := SearchRound(e, h, f, processed);
            SearchFrom(e, h, f, processed) ==
              if round.Finished? then round.outcome else SearchFrom(round.engine, h, f, round.processed)
  {
  }

  /** A return that is good for a later state of the same call is good for
      its start. */
  lemma ReturnedChain(e: Engine<ListSets>, e': Engine<ListSets>, f: NeighbourFilter, r: Outcome)
    requires Wf(e) && Wf(e') && Frame(e, e') && Returned(e', f, r)
    requires e'.totalProcessedNodes == e.totalProcessedNodes && e'.inProgress == e.inProgress
    requires e'.maxOpenNodes >= e.maxOpenNodes
    ensures Returned(e, f, r)
  {
    SameNodesTransitive(e.arena, e'.arena, r.engine.arena);
    LoopErrorFrame(f, e, e');
  }

  /** `Search`: the loop from `ProcessedNodes = 0`. It suspends only after
      more than `NodesPerSearch` relaxations, and at most eight more (one
      expansion's worth) than that. */
  function Search(e: Engine<ListSets>, h: Heuristic): (r: Outcome)
    requires Wf(e)
    ensures Returned(e, KeepAll, r)
    ensures r.result.Suspended? ==> e.nodesPerSearch < r.processed <= e.nodesPerSearch + 8
    ensures r.processed <= e.nodesPerSearch + 8
  {
    SearchFrom(e, h, KeepAll, 0)
  }

  /** The source keeps `ProcessedNodes` in a `uint`, so its loop test reads
      the count modulo 2^32. For every budget more than eight below 2^32 the
      count never wraps: the exit count fits in a `uint`, and the source's
      test fails exactly when the model suspends. */
  lemma SearchCountFitsUInt(e: Engine<ListSets>, h: Heuristic)
    requires Wf(e) && e.nodesPerSearch < UIntModulus - 8
    ensures var r := Search(e, h);
            && r.processed < UIntModulus
            && (r.result.Suspended? ==> !(r.processed % UIntModulus <= e.nodesPerSearch))
            && (r.result.NoPath? || r.result.PathFound? ==> r.processed % UIntModulus <= e.nodesPerSearch)
  {
    UIntModulusKeepsSmall(Search(e, h).processed);
  }

  lemma UIntModulusKeepsSmall(n: nat)
    requires n < UIntModulus
    ensures n % UIntModulus == n
  {
  }

  /** The record `InitializePathfindingSearch` opens with: a fresh record at
      the start's position with g = 0, h = H(start, goal), f = g + h and the
      start cell's index, already marked Open. */
  function InitialRecord(start: NodeRecord, hv: nat): (r: NodeRecord)
    ensures r.Position() == start.Position() && r.index == start.index && r.isWalkable
    ensures r.gCost == 0 && r.hCost == hv && r.fCost == hv && r.parent.None? && r.status == Open
    ensures r.bestGoalBoundEdge == NoEdge
  {
    NewNodeRecord(start.x, start.y).(gCost := 0, hCost := hv, index := start.index).CalculateFCost().(status := Open)
  }

  /** `InitializePathfindingSearch`: record the coordinates and look up the
      start and goal cells; if either lies off the grid, stop there. Otherwise
      mark the search in progress, zero the counters, and restart the open
      list with a fresh start record and the closed set empty. */
  function InitializePathfindingSearch(e: Engine<ListSets>, h: Heuristic, startX: int, startY: int, goalX: int, goalY: int): (r: Engine<ListSets>)
    requires Wf(e)
    ensures Wf(r)
    ensures r.startX == startX && r.startY == startY && r.goalX == goalX && r.goalY == goalY
    ensures r.startNode.Some? <==> e.OnGrid(Coord(startX, startY))
    ensures r.startNode.Some? ==> r.startNode.value == e.CellAt(Coord(startX, startY))
    ensures r.goalNode.Some? <==> e.OnGrid(Coord(goalX, goalY))
    ensures r.goalNode.Some? ==> r.goalNode.value == e.CellAt(Coord(goalX, goalY))
    ensures r.grid == e.grid && r.nodesPerSearch == e.nodesPerSearch
    ensures r.startNode.None? || r.goalNode.None? ==>
              && r.arena == e.arena && r.sets == e.sets && r.next == e.next && r.inProgress == e.inProgress
              && r.totalProcessedNodes == e.totalProcessedNodes && r.maxOpenNodes == e.maxOpenNodes
    ensures r.startNode.Some? && r.goalNode.Some? ==>
              var start := e.arena[e.CellAt(Coord(startX, startY))];
              && r.inProgress && r.totalProcessedNodes == 0 && r.maxOpenNodes == 0
              && e.next !in e.arena && r.next == e.next + 1
              && r.sets.open == [e.next]
              && ClosedSize(r.sets.closed) == 0 && r.sets.closed.ClosedList? == e.sets.closed.ClosedList?
              && r.arena == e.arena[e.next := InitialRecord(start, h(Coord(startX, startY), Some(Coord(goalX, goalY))).value)]
  {
    var e1 := e.(startX := startX, startY := startY, goalX := goalX, goalY := goalY,
                 startNode := e.grid.GetGridObject(startX, startY), goalNode := e.grid.GetGridObject(goalX, goalY));
    if e1.startNode.None? || e1.goalNode.None? then
      e1
    else
      var start := e.arena[e1.startNode.value];
      var goal := e.arena[e1.goalNode.value];
      var initial := InitialRecord(start, h(start.Position(), Some(goal.Position())).value);
      var r := e1.(inProgress := true, totalProcessedNodes := 0, maxOpenNodes := 0,
                   arena := e.arena[e.next := initial], next := e.next + 1,
                   sets := ListSets([e.next], InitializeClosed(e.sets.closed)));
      InitWf(e, r);
      r
  }

  /** The invariant after a successful initialisation. */
  lemma InitWf(e: Engine<ListSets>, r: Engine<ListSets>)
    requires Wf(e)
    requires r.grid == e.grid && r.next == e.next + 1 && e.next in r.arena
    requires r.arena == e.arena[e.next := r.arena[e.next]]
    requires e.OnGrid(r.arena[e.next].Position()) && r.arena[e.next].parent.None?
    requires r.startNode.Some? ==> r.startNode.value in e.arena
    requires r.goalNode.Some? ==> r.goalNode.value in e.arena
    requires r.sets.open == [e.next] && ClosedSize(r.sets.closed) == 0
    ensures Wf(r)
  {
    assert e.next !in e.arena;
    forall x, y | 0 <= x < r.grid.width && 0 <= y < r.grid.height
      ensures r.grid.cells[x][y] in r.arena && r.arena[r.grid.cells[x][y]].Position() == Coord(x, y)
    {
      assert r.grid.cells[x][y] in e.arena;
    }
    assert ClosedWf(r.sets.closed, r.arena) by {
      match r.sets.closed
      case ClosedList(l) =>
      case ClosedDict(d) =>
    }
    assert !ClosedHas(r.sets.closed, r.arena, r.arena[e.next].Position()) by {
      match r.sets.closed
      case ClosedList(l) =>
      case ClosedDict(d) =>
    }
  }

  /** The constructor: a grid of fresh `new NodeRecord(x, y)` records, the
      given (empty) sets, no search in progress, the default budget. */
  method NewAStar(width: nat, height: nat, kind: ClosedKind) returns (e: Engine<ListSets>)
    ensures Wf(e)
    ensures e.grid.width == width && e.grid.height == height && e.grid.changes == []
    ensures forall x, y | 0 <= x < width && 0 <= y < height :: e.arena[e.grid.cells[x][y]] == NewNodeRecord(x, y)
    ensures e.sets.open == [] && ClosedSize(e.sets.closed) == 0 && (e.sets.closed.ClosedList? <==> kind == ListClosed)
    ensures !e.inProgress && e.nodesPerSearch == DefaultNodesPerSearch
    ensures e.startNode.None? && e.goalNode.None?
  {
    var grid, arena := NewCells(width, height, (x, y, k) => NewNodeRecord(x, y));
    var closed := if kind == ListClosed then ClosedList([]) else ClosedDict(map[]);
    e := Engine(grid, arena, width * height, ListSets([], closed), DefaultNodesPerSearch, 0, 0, false,
                None, None, 0, 0, 0, 0);
  }

  /** An empty open list at the top of the loop ends the call with a null
      solution, the engine untouched. */
  lemma SearchOnEmptyOpen(e: Engine<ListSets>, h: Heuristic)
    requires Wf(e) && |e.sets.open| == 0
    ensures Search(e, h) == Outcome(NoPath, e, 0)
  {
  }

  /** Searching from a cell to itself: initialisation opens the fresh start
      record, the first pop finds it equal to the goal, and the path is that
      record alone. */
  lemma SearchToStartCell(e: Engine<ListSets>, h: Heuristic, x: int, y: int)
    requires Wf(e) && e.OnGrid(Coord(x, y))
    ensures var r := InitializePathfindingSearch(e, h, x, y, x, y);
            var o := Search(r, h);
            && o.result == PathFound([e.next])
            && !o.engine.inProgress && o.processed == 0
  {
    var r := InitializePathfindingSearch(e, h, x, y, x, y);
    assert r.sets.open == [e.next];
    var (best, open') := GetBestAndRemove(r.sets.open, r.arena);
    assert best == e.next;
    assert r.arena[best].Equals(r.arena[r.goalNode.value]);
    assert r.arena[best].Equals(r.arena[r.startNode.value]);
    var r1 := r.(sets := r.sets.(open := open'));
    assert CalculatePath(r1, best) == Success([best]);
    assert SearchRound(r, h, KeepAll, 0) == Finished(FinishAtGoal(r1, KeepAll, best, 0));
  }
}
