/** Goal bounding: for every source cell, four axis-aligned boxes, one per
    first step out of the source (up, down, left, right), each growing to
    cover the cells whose best route from the source starts with that step.
    The boxes are the source's `Dictionary<Vector2, Dictionary<string,
    Vector4>>`, with `Vector4(minX, maxX, minY, maxY)` held as integers (the
    coordinates are small whole numbers, which a float stores exactly). */
module GoalBounds {
  import opened Common
  import opened NodeRecords

  /** A box with inclusive bounds; it is empty when a minimum exceeds its
      maximum. */
  datatype Box = Box(minX: int, maxX: int, minY: int, maxY: int)
  {
    predicate Contains(c: Coord) {
      minX <= c.x <= maxX && minY <= c.y <= maxY
    }

    /** The min/max extension that takes in one more cell. It is the least
        box, by bounds, that encloses this one and contains the cell. */
    function Grow(c: Coord): (r: Box)
      ensures r.Contains(c)
      ensures Encloses(this, r)
      ensures forall b: Box | Encloses(this, b) && b.Contains(c) :: Encloses(r, b)
    {
      Box(Min(minX, c.x), Max(maxX, c.x), Min(minY, c.y), Max(maxY, c.y))
    }
  }

  /** `outer`'s bounds lie outside (or on) `inner`'s on every side. */
  predicate Encloses(inner: Box, outer: Box) {
    outer.minX <= inner.minX && inner.maxX <= outer.maxX && outer.minY <= inner.minY && inner.maxY <= outer.maxY
  }

  /** Enclosing bounds contain every cell the inner box contains. */
  lemma EnclosesContains(inner: Box, outer: Box, c: Coord)
    requires Encloses(inner, outer) && inner.Contains(c)
    ensures outer.Contains(c)
  {
  }

  /** Growing is order-independent and absorbs repeats: the final box depends
      only on the set of cells taken in. */
  lemma GrowCommutes(b: Box, c: Coord, d: Coord)
    ensures b.Grow(c).Grow(d) == b.Grow(d).Grow(c)
    ensures b.Grow(c).Grow(c) == b.Grow(c)
  {
  }

  /** A box that already contains the cell is left as it is. */
  lemma GrowContained(b: Box, c: Coord)
    requires b.Contains(c)
    ensures b.Grow(c) == b
  {
  }

  /** The `directions` array, in the order the query loop visits it. */
  const Directions: seq<string> := ["up", "down", "left", "right"]

  /** `directionsToString`; the `None` edge maps to "nones", a key no box
      dictionary holds. */
  function DirectionName(e: BestGoalBoundEdge): (s: string)
    ensures s in Directions <==> e != NoEdge
  {
    match e
    case Up => "up"
    case Down => "down"
    case Left => "left"
    case Right => "right"
    case NoEdge => "nones"
  }

  /** Distinct edges name distinct boxes. */
  lemma DirectionNameInjective(e: BestGoalBoundEdge, f: BestGoalBoundEdge)
    requires e != f
    ensures DirectionName(e) != DirectionName(f)
  {
  }

  type DirectionBoxes = map<string, Box>
  type Bounds = map<Coord, DirectionBoxes>

  predicate HasAllDirections(boxes: DirectionBoxes) {
    forall i | 0 <= i < |Directions| :: Directions[i] in boxes
  }

  /** The four starting boxes of `GoalBoundAStarPathfinding.MapPreprocess`:
      each is empty, sitting just short of the source on its own side. */
  function EmptySideBoxes(c: Coord): (r: DirectionBoxes)
    ensures r.Keys == {"up", "down", "left", "right"} && HasAllDirections(r)
    ensures forall d, p | d in r :: !r[d].Contains(p)
  {
    map["up" := Box(c.x, c.x, c.y + 1, c.y),
        "down" := Box(c.x, c.x, c.y, c.y - 1),
        "left" := Box(c.x, c.x - 1, c.y, c.y),
        "right" := Box(c.x + 1, c.x, c.y, c.y)]
  }

  /** The first cell taken into each empty side box, when it is the cell
      straight beside the source on that side, makes the box that one cell. */
  lemma EmptySideBoxesGrowToNeighbour(c: Coord)
    ensures var r := EmptySideBoxes(c);
            && r["up"].Grow(Coord(c.x, c.y + 1)) == PointBoxes(Coord(c.x, c.y + 1))["up"]
            && r["down"].Grow(Coord(c.x, c.y - 1)) == PointBoxes(Coord(c.x, c.y - 1))["down"]
            && r["left"].Grow(Coord(c.x - 1, c.y)) == PointBoxes(Coord(c.x - 1, c.y))["left"]
            && r["right"].Grow(Coord(c.x + 1, c.y)) == PointBoxes(Coord(c.x + 1, c.y))["right"]
  {
  }

  /** The four starting boxes of `GoalBoundNodeArrayAStarPathfinding.MapPreprocess`:
      each is the source cell alone. */
  function PointBoxes(c: Coord): (r: DirectionBoxes)
    ensures r.Keys == {"up", "down", "left", "right"} && HasAllDirections(r)
    ensures forall d, p | d in r :: r[d].Contains(p) <==> p == c
  {
    var b := Box(c.x, c.x, c.y, c.y);
    map["up" := b, "down" := b, "left" := b, "right" := b]
  }

  /** `GoalBoundBothInside`: some box of the source, visited in `Directions`
      order, contains both the cell and the goal. The dictionary indexers
      throw on a missing source key or a missing direction reached before a
      box answers. */
  function GoalBoundBothInside(b: Bounds, source: Coord, n: Coord, goal: Coord): (r: Result<bool>)
    ensures source !in b ==> r == Failure(KeyNotFound)
    ensures source in b && HasAllDirections(b[source]) ==>
              r == Success(exists i | 0 <= i < |Directions| :: BothIn(b[source][Directions[i]], n, goal))
    ensures r.Failure? ==> r.error == KeyNotFound
  {
    if source !in b then Failure(KeyNotFound)
    else BothInsideFrom(b[source], n, goal, 0)
  }

  predicate BothIn(box: Box, n: Coord, goal: Coord) {
    box.Contains(n) && box.Contains(goal)
  }

  /** The loop of `GoalBoundBothInside` from direction i on. */
  function BothInsideFrom(boxes: DirectionBoxes, n: Coord, goal: Coord, i: nat): (r: Result<bool>)
    requires i <= |Directions|
    ensures (forall k | i <= k < |Directions| :: Directions[k] in boxes) ==>
              r == Success(exists k | i <= k < |Directions| :: BothIn(boxes[Directions[k]], n, goal))
    ensures r.Failure? ==> r.error == KeyNotFound
    decreases |Directions| - i
  {
    if i == |Directions| then Success(false)
    else if Directions[i] !in boxes then Failure(KeyNotFound)
    else if BothIn(boxes[Directions[i]], n, goal) then Success(true)
    else BothInsideFrom(boxes, n, goal, i + 1)
  }

  /** `InsideGoalBoundBox`: the cell lies in the named box of the source;
      false, not an exception, when the source or the direction is missing. */
  function InsideGoalBoundBox(b: Bounds, source: Coord, p: Coord, direction: string): (r: bool)
    ensures r ==> source in b && direction in b[source]
  {
    if source !in b then false
    else if direction !in b[source] then false
    else b[source][direction].Contains(p)
  }

  /** The two queries agree: on a complete entry, both points lie in one box
      exactly when some direction's `InsideGoalBoundBox` holds for both. */
  lemma BothInsideIffInsideBox(b: Bounds, source: Coord, n: Coord, goal: Coord)
    requires source in b && HasAllDirections(b[source])
    ensures GoalBoundBothInside(b, source, n, goal) == Success(
              exists i | 0 <= i < |Directions| ::
                InsideGoalBoundBox(b, source, n, Directions[i]) && InsideGoalBoundBox(b, source, goal, Directions[i]))
  {
    var lhs := exists i | 0 <= i < |Directions| :: BothIn(b[source][Directions[i]], n, goal);
    var rhs := exists i | 0 <= i < |Directions| ::
                 InsideGoalBoundBox(b, source, n, Directions[i]) && InsideGoalBoundBox(b, source, goal, Directions[i]);
    if lhs {
      var i :| 0 <= i < |Directions| && BothIn(b[source][Directions[i]], n, goal);
      assert InsideGoalBoundBox(b, source, n, Directions[i]) && InsideGoalBoundBox(b, source, goal, Directions[i]);
    }
    if rhs {
      var i :| 0 <= i < |Directions| &&
               InsideGoalBoundBox(b, source, n, Directions[i]) && InsideGoalBoundBox(b, source, goal, Directions[i]);
      assert BothIn(b[source][Directions[i]], n, goal);
    }
  }

  /** The edge `PopulateStartingNeighboursWithBestEdge` gives a neighbour of
      the source: Up above, Down below, otherwise Right or Left. */
  function Label(source: Coord, n: Coord): (e: BestGoalBoundEdge)
    ensures e != NoEdge
    ensures e == Up <==> n.y > source.y
    ensures e == Down <==> n.y < source.y
    ensures e == Right <==> n.y == source.y && n.x > source.x
    ensures e == Left <==> n.y == source.y && n.x <= source.x
  {
    if n.y > source.y then Up
    else if n.y < source.y then Down
    else if n.x > source.x then Right
    else Left
  }

  /** Around a source, the three cells above are labelled Up, the three below
      Down, and the two beside it Right and Left. */
  lemma LabelOfNeighbours(s: Coord)
    ensures Label(s, Coord(s.x - 1, s.y + 1)) == Up && Label(s, Coord(s.x, s.y + 1)) == Up
    ensures Label(s, Coord(s.x + 1, s.y + 1)) == Up
    ensures Label(s, Coord(s.x - 1, s.y - 1)) == Down && Label(s, Coord(s.x, s.y - 1)) == Down
    ensures Label(s, Coord(s.x + 1, s.y - 1)) == Down
    ensures Label(s, Coord(s.x + 1, s.y)) == Right && Label(s, Coord(s.x - 1, s.y)) == Left
  {
  }

  /** `goalBounds[key][direction] = goalBounds[key][direction]` grown by p;
      either indexer throws when its key is absent. */
  function GrowBound(b: Bounds, key: Coord, direction: string, p: Coord): (r: Result<Bounds>)
    ensures r.Failure? <==> key !in b || direction !in b[key]
    ensures r.Failure? ==> r.error == KeyNotFound
    ensures r.Success? ==>
              && r.value.Keys == b.Keys
              && (forall k | k in b && k != key :: r.value[k] == b[k])
              && r.value[key].Keys == b[key].Keys
              && (forall d | d in b[key] && d != direction :: r.value[key][d] == b[key][d])
              && r.value[key][direction].Contains(p)
              && BoundsEnclose(b, r.value)
  {
    if key !in b || direction !in b[key] then Failure(KeyNotFound)
    else Success(b[key := b[key][direction := b[key][direction].Grow(p)]])
  }

  /** Every box of `b` is still present in `b'`, with bounds at least as wide. */
  ghost predicate BoundsEnclose(b: Bounds, b': Bounds) {
    forall k | k in b ::
      k in b' && b[k].Keys <= b'[k].Keys && forall d | d in b[k] :: Encloses(b[k][d], b'[k][d])
  }

  lemma BoundsEncloseTransitive(b: Bounds, b1: Bounds, b2: Bounds)
    requires BoundsEnclose(b, b1) && BoundsEnclose(b1, b2)
    ensures BoundsEnclose(b, b2)
  {
  }

  /** The box of `bounds[source]` named by the first move from `source` to
      `p` takes `p` in. */
  predicate FirstMoveCovered(b: Bounds, source: Coord, p: Coord) {
    var d := DirectionName(Label(source, p));
    source in b && d in b[source] && b[source][d].Contains(p)
  }

  /** Boxes only grow, so a covered first move stays covered. */
  lemma FirstMoveCoveredMono(b: Bounds, b': Bounds, source: Coord, p: Coord)
    requires FirstMoveCovered(b, source, p) && BoundsEnclose(b, b')
    ensures FirstMoveCovered(b', source, p)
  {
    var d := DirectionName(Label(source, p));
    EnclosesContains(b[source][d], b'[source][d], p);
  }

  /** A record's `bestGoalBoundEdge` set; nothing else in the arena changes. */
  function SetEdge(a: Arena, id: RecId, e: BestGoalBoundEdge): (r: Arena)
    requires id in a
    ensures SameNodes(a, r)
    ensures r[id] == a[id].(bestGoalBoundEdge := e)
    ensures forall other | other in a && other != id :: r[other] == a[other]
  {
    a[id := a[id].(bestGoalBoundEdge := e)]
  }

  /** `PopulateStartingNeighboursWithBestEdge`: the neighbour of the source
      gets its label, unconditionally, and the box of that direction grows to
      take it in. */
  function Populate(a: Arena, b: Bounds, source: Coord, n: RecId): (r: Result<(Arena, Bounds)>)
    requires n in a
    ensures r.Failure? <==> source !in b || DirectionName(Label(source, a[n].Position())) !in b[source]
    ensures r.Failure? ==> r.error == KeyNotFound
    ensures r.Success? ==>
              var (a', b') := r.value;
              && a' == SetEdge(a, n, Label(source, a[n].Position()))
              && BoundsEnclose(b, b') && b'.Keys == b.Keys && b'[source].Keys == b[source].Keys
              && (forall k | k in b && k != source :: b'[k] == b[k])
              && source in b' && DirectionName(Label(source, a[n].Position())) in b'[source]
              && b'[source][DirectionName(Label(source, a[n].Position()))].Contains(a[n].Position())
  {
    var edge := Label(source, a[n].Position());
    match GrowBound(b, source, DirectionName(edge), a[n].Position())
    case Failure(err) => Failure(err)
    case Success(b') => Success((SetEdge(a, n, edge), b'))
  }

  /** The propagation branch of `Floodfill`: a neighbour that still has no
      edge inherits the expanding record's edge, and that box grows to take
      it in; a neighbour that has one keeps it and nothing changes. An
      inherited `None` edge is looked up as "nones" and throws. */
  function Propagate(a: Arena, b: Bounds, key: Coord, current: RecId, n: RecId): (r: Result<(Arena, Bounds)>)
    requires current in a && n in a
    ensures a[n].bestGoalBoundEdge != NoEdge ==> r == Success((a, b))
    ensures a[n].bestGoalBoundEdge == NoEdge ==>
              (r.Failure? <==> key !in b || DirectionName(a[current].bestGoalBoundEdge) !in b[key])
    ensures r.Failure? ==> r.error == KeyNotFound
    ensures a[n].bestGoalBoundEdge == NoEdge && r.Success? ==>
              var (a', b') := r.value;
              && a' == SetEdge(a, n, a[current].bestGoalBoundEdge)
              && BoundsEnclose(b, b') && b'.Keys == b.Keys && b'[key].Keys == b[key].Keys
              && (forall k | k in b && k != key :: b'[k] == b[k])
              && key in b' && DirectionName(a[current].bestGoalBoundEdge) in b'[key]
              && b'[key][DirectionName(a[current].bestGoalBoundEdge)].Contains(a[n].Position())
  {
    if a[n].bestGoalBoundEdge != NoEdge then
      Success((a, b))
    else
      var edge := a[current].bestGoalBoundEdge;
      match GrowBound(b, key, DirectionName(edge), a[n].Position())
      case Failure(err) => Failure(err)
      case Success(b') => Success((SetEdge(a, n, edge), b'))
  }
}
