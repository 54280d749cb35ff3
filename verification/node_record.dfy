/** Per-cell search state. Records live in an arena (`Arena`, id → record):
    the grid, the open and closed sets and the parent links hold ids, so two
    ids are two objects even when their coordinates agree. */
module NodeRecords {
  import opened Common

  datatype NodeStatus = Unvisited | Open | Closed

  /** `BestGoalBoundEdge`; the source's `None` member is `NoEdge` here. */
  datatype BestGoalBoundEdge = Up | Down | Left | Right | NoEdge

  type RecId = nat

  /** Costs are integers in half-units: a straight move costs 2, a diagonal 3.
      A fresh record's gCost is `int.MaxValue` stored in a C# float, which rounds
      to 2^31; in half-units that is 2^32. */
  const UnreachedCost: int := 0x1_0000_0000

  datatype NodeRecord = NodeRecord(
    x: int,
    y: int,
    isWalkable: bool,
    parent: Option<RecId>,
    gCost: int,
    hCost: int,
    fCost: int,
    index: int,
    status: NodeStatus,
    bestGoalBoundEdge: BestGoalBoundEdge)
  {
    /** `Equals`: two records are the same node when their coordinates agree. */
    predicate Equals(other: NodeRecord) {
      x == other.x && y == other.y
    }

    /** `CompareTo`: the sign of the fCost comparison. */
    function CompareTo(other: NodeRecord): (r: int)
      ensures -1 <= r <= 1
    {
      if fCost < other.fCost then -1 else if fCost > other.fCost then 1 else 0
    }

    function CalculateFCost(): (r: NodeRecord)
      ensures r.fCost == r.gCost + r.hCost
      ensures r.gCost == gCost && r.hCost == hCost
      ensures r == this.(fCost := r.fCost)
    {
      this.(fCost := gCost + hCost)
    }

    /** `Reset` gives back the search fields of a freshly built record and keeps
        position, walkability and index. */
    function Reset(): (r: NodeRecord)
      ensures r == NewIndexedNodeRecord(x, y, index).(isWalkable := isWalkable)
    {
      this.(gCost := UnreachedCost, hCost := 0, fCost := UnreachedCost + 0, parent := None,
            status := Unvisited, bestGoalBoundEdge := NoEdge)
    }

    function Position(): Coord {
      Coord(x, y)
    }
  }

  /** `new NodeRecord(x, y)`. */
  function NewNodeRecord(x: int, y: int): (r: NodeRecord)
    ensures r.x == x && r.y == y && r.isWalkable && r.parent.None?
    ensures r.gCost == UnreachedCost && r.hCost == 0 && r.fCost == r.gCost + r.hCost
    ensures r.index == 0 && r.status == Unvisited && r.bestGoalBoundEdge == NoEdge
  {
    NodeRecord(x, y, true, None, UnreachedCost, 0, UnreachedCost + 0, 0, Unvisited, NoEdge)
  }

  /** `new NodeRecord(x, y, index)`. */
  function NewIndexedNodeRecord(x: int, y: int, index: int): (r: NodeRecord)
    ensures r == NewNodeRecord(x, y).(index := index)
  {
    NewNodeRecord(x, y).(index := index)
  }

  /** Coordinate equality is an equivalence that ignores every search field. */
  lemma EqualsIsEquivalence(a: NodeRecord, b: NodeRecord, c: NodeRecord)
    ensures a.Equals(a)
    ensures a.Equals(b) <==> b.Equals(a)
    ensures a.Equals(b) && b.Equals(c) ==> a.Equals(c)
    ensures a.Equals(b) <==> a.Position() == b.Position()
  {
  }

  /** `Equals` ignores costs, parent, status, index, edge and walkability. */
  lemma EqualsIgnoresSearchState(a: NodeRecord, g: int, h: int, p: Option<RecId>, s: NodeStatus, i: int, w: bool)
    ensures a.Equals(a.(gCost := g, hCost := h, fCost := g + h, parent := p, status := s, index := i, isWalkable := w))
  {
  }

  /** `CompareTo` orders records by fCost alone: it is antisymmetric, zero
      exactly on equal fCosts, and transitive. */
  lemma CompareToOrdersByFCost(a: NodeRecord, b: NodeRecord, c: NodeRecord)
    ensures a.CompareTo(b) == -b.CompareTo(a)
    ensures a.CompareTo(b) == 0 <==> a.fCost == b.fCost
    ensures a.CompareTo(b) < 0 <==> a.fCost < b.fCost
    ensures a.CompareTo(b) <= 0 && b.CompareTo(c) <= 0 ==> a.CompareTo(c) <= 0
  {
  }

  /** Resetting twice is resetting once, and a reset record is a fresh one at
      the same place. */
  lemma ResetIdempotent(r: NodeRecord)
    ensures r.Reset().Reset() == r.Reset()
    ensures r.Reset().Equals(r) && r.Reset().index == r.index && r.Reset().isWalkable == r.isWalkable
    ensures r.Reset().fCost == r.Reset().gCost + r.Reset().hCost
  {
  }

  type Arena = map<RecId, NodeRecord>

  /** Two arenas hold the same objects at the same places: only search fields
      (costs, parent, status, edge) may differ. */
  ghost predicate SameNodes(a: Arena, b: Arena) {
    && a.Keys == b.Keys
    && forall id | id in a ::
         && b[id].x == a[id].x && b[id].y == a[id].y
         && b[id].isWalkable == a[id].isWalkable && b[id].index == a[id].index
  }

  lemma SameNodesTransitive(a: Arena, b: Arena, c: Arena)
    requires SameNodes(a, b) && SameNodes(b, c)
    ensures SameNodes(a, c)
  {
  }

  /** `b` keeps every record of `a` in place, and each record it adds sits at
      the position, and carries the index, of a record `a` already had: what
      allocating a fresh record for an existing cell does. */
  ghost predicate Grown(a: Arena, b: Arena) {
    && a.Keys <= b.Keys
    && (forall id | id in a ::
          && b[id].x == a[id].x && b[id].y == a[id].y
          && b[id].isWalkable == a[id].isWalkable && b[id].index == a[id].index)
    && (forall id | id in b && id !in a ::
          exists o | o in a :: b[id].Position() == a[o].Position() && b[id].index == a[o].index)
  }

  /** Every record of the arena is walkable, as every record a constructor
      makes is. */
  ghost predicate AllWalkable(a: Arena) {
    forall id | id in a :: a[id].isWalkable
  }

  /** Every record the arena holds at position p is walkable. On an arena
      with one record per cell this is the cell's walkability. */
  ghost predicate WalkableAt(a: Arena, p: Coord) {
    forall id | id in a && a[id].Position() == p :: a[id].isWalkable
  }

  /** Every record `b` has and `a` had not is walkable, as a fresh
      `new NodeRecord(x, y)` is. */
  ghost predicate AddsWalkable(a: Arena, b: Arena) {
    forall id | id in b && id !in a :: b[id].isWalkable
  }

  /** Growing an arena by walkable records keeps every all-walkable position so. */
  lemma WalkableAtGrown(a: Arena, b: Arena, p: Coord)
    requires Grown(a, b) && AddsWalkable(a, b) && WalkableAt(a, p)
    ensures WalkableAt(b, p)
  {
  }

  lemma SameNodesGrown(a: Arena, b: Arena)
    requires SameNodes(a, b)
    ensures Grown(a, b)
  {
  }

  lemma {:induction false} GrownTransitive(a: Arena, b: Arena, c: Arena)
    requires Grown(a, b) && Grown(b, c)
    ensures Grown(a, c)
  {
    forall id | id in c && id !in a
      ensures exists o | o in a :: c[id].Position() == a[o].Position() && c[id].index == a[o].index
    {
      if id in b {
        var o :| o in a && b[id].Position() == a[o].Position() && b[id].index == a[o].index;
        assert c[id].Position() == a[o].Position() && c[id].index == a[o].index;
      } else {
        var o :| o in b && c[id].Position() == b[o].Position() && c[id].index == b[o].index;
        if o in a {
          assert c[id].Position() == a[o].Position() && c[id].index == a[o].index;
        } else {
          var o' :| o' in a && b[o].Position() == a[o'].Position() && b[o].index == a[o'].index;
          assert c[id].Position() == a[o'].Position() && c[id].index == a[o'].index;
        }
      }
    }
  }

  /** Allocating a record under a new id, at the position and index of an
      existing one. */
  lemma GrownByCopy(a: Arena, id: RecId, r: NodeRecord, o: RecId)
    requires id !in a && o in a && r.Position() == a[o].Position() && r.index == a[o].index
    ensures Grown(a, a[id := r])
  {
  }

  /** Sets one record's status, as `nodeRecord.status = s` does. */
  function SetStatus(a: Arena, id: RecId, s: NodeStatus): (r: Arena)
    requires id in a
    ensures SameNodes(a, r)
    ensures r[id].status == s
    ensures r[id] == a[id].(status := s)
    ensures forall other | other in a && other != id :: r[other] == a[other]
  {
    a[id := a[id].(status := s)]
  }

  /** The costs-and-parent update that every relaxation branch performs:
      gCost, hCost, CalculateFCost, parent. */
  function UpdateCosts(a: Arena, id: RecId, g: int, h: int, parent: RecId): (r: Arena)
    requires id in a
    ensures SameNodes(a, r)
    ensures r[id].gCost == g && r[id].hCost == h && r[id].fCost == g + h && r[id].parent == Some(parent)
    ensures r[id].status == a[id].status && r[id].bestGoalBoundEdge == a[id].bestGoalBoundEdge
    ensures forall other | other in a && other != id :: r[other] == a[other]
  {
    a[id := a[id].(gCost := g, hCost := h).CalculateFCost().(parent := Some(parent))]
  }
}
