/** Grid geometry shared by every engine: the octile move cost and the
    eight-neighbourhood in the order the engines visit it. */
module Movement {
  import opened Common

  /** `MOVE_STRAIGHT_COST` (1) and `MOVE_DIAGONAL_COST` (1.5), in half-units. */
  const MoveStraightCost: int := 2
  const MoveDiagonalCost: int := 3

  function Abs(v: int): nat {
    if v < 0 then -v else v
  }

  /** `CalculateDistanceCost`: diagonal steps while both axes still differ,
      straight steps for what is left over. */
  function CalculateDistanceCost(a: Coord, b: Coord): (c: nat)
    ensures c == Octile(Abs(a.x - b.x), Abs(a.y - b.y))
  {
    var xDistance := if b.x > a.x then Abs(a.x - b.x) else a.x - b.x;
    var yDistance := if b.y > a.y then Abs(a.y - b.y) else a.y - b.y;
    var remaining := if yDistance > xDistance then Abs(xDistance - yDistance) else xDistance - yDistance;
    MoveDiagonalCost * Min(xDistance, yDistance) + MoveStraightCost * remaining
  }

  /** The octile distance for axis distances dx and dy, in half-units: two per
      king move plus one more per diagonal one. */
  function Octile(dx: nat, dy: nat): nat {
    MoveStraightCost * Max(dx, dy) + Min(dx, dy)
  }

  /** Chebyshev distance: the number of king moves between two cells. */
  function Chebyshev(a: Coord, b: Coord): nat {
    Max(Abs(a.x - b.x), Abs(a.y - b.y))
  }

  /** The move cost is a metric: zero exactly on equal cells, symmetric, and
      never more than a detour through a third cell. */
  lemma DistanceCostIsMetric(a: Coord, b: Coord, c: Coord)
    ensures CalculateDistanceCost(a, b) == 0 <==> a == b
    ensures CalculateDistanceCost(a, b) == CalculateDistanceCost(b, a)
    ensures CalculateDistanceCost(a, c) <= CalculateDistanceCost(a, b) + CalculateDistanceCost(b, c)
  {
    ChebyshevPlusManhattan(a, b);
    ChebyshevPlusManhattan(b, a);
    DistanceCostTriangle(a, b, c);
  }

  lemma DistanceCostTriangle(a: Coord, b: Coord, c: Coord)
    ensures CalculateDistanceCost(a, c) <= CalculateDistanceCost(a, b) + CalculateDistanceCost(b, c)
  {
    var p, q := Abs(a.x - c.x), Abs(a.y - c.y);
    var p1, q1 := Abs(a.x - b.x), Abs(a.y - b.y);
    var p2, q2 := Abs(b.x - c.x), Abs(b.y - c.y);
    AbsTriangle(a.x, b.x, c.x);
    AbsTriangle(a.y, b.y, c.y);
    OctileTriangle(p, q, p1, q1, p2, q2);
    assert CalculateDistanceCost(a, c) == Octile(p, q);
    assert CalculateDistanceCost(a, b) == Octile(p1, q1);
    assert CalculateDistanceCost(b, c) == Octile(p2, q2);
  }

  lemma AbsTriangle(u: int, v: int, w: int)
    ensures Abs(u - w) <= Abs(u - v) + Abs(v - w)
  {
  }

  lemma OctileTriangle(p: nat, q: nat, p1: nat, q1: nat, p2: nat, q2: nat)
    requires p <= p1 + p2 && q <= q1 + q2
    ensures Octile(p, q) <= Octile(p1, q1) + Octile(p2, q2)
  {
    assert Octile(p, q) == Max(p, q) + p + q;
    assert Octile(p1, q1) == Max(p1, q1) + p1 + q1;
    assert Octile(p2, q2) == Max(p2, q2) + p2 + q2;
  }

  /** 2·max + min is the Chebyshev distance plus the Manhattan distance. */
  lemma ChebyshevPlusManhattan(a: Coord, b: Coord)
    ensures CalculateDistanceCost(a, b) == Chebyshev(a, b) + Abs(a.x - b.x) + Abs(a.y - b.y)
  {
  }

  /** One king move costs 2 when straight and 3 when diagonal. */
  lemma NeighbourStepCost(a: Coord, b: Coord)
    requires Chebyshev(a, b) == 1
    ensures a.x == b.x || a.y == b.y ==> CalculateDistanceCost(a, b) == MoveStraightCost
    ensures a.x != b.x && a.y != b.y ==> CalculateDistanceCost(a, b) == MoveDiagonalCost
  {
  }

  /** The cost is never below twice the Chebyshev distance nor above three
      times it. */
  lemma DistanceCostBounds(a: Coord, b: Coord)
    ensures MoveStraightCost * Chebyshev(a, b) <= CalculateDistanceCost(a, b) <= MoveDiagonalCost * Chebyshev(a, b)
  {
  }

  predicate InBounds(c: Coord, width: int, height: int) {
    0 <= c.x < width && 0 <= c.y < height
  }

  /** The cells `GetNeighbourList` looks up around (x, y), before walkability
      filtering: left, left-down, left-up, right, right-down, right-up, down,
      up, each only when its own bounds test passes. */
  function NeighbourCoords(x: int, y: int, width: int, height: int): (r: seq<Coord>)
    ensures |r| <= 8
  {
    var left := if x - 1 >= 0 then SideColumn(x - 1, y, height) else [];
    var right := if x + 1 < width then SideColumn(x + 1, y, height) else [];
    var down := if y - 1 >= 0 then [Coord(x, y - 1)] else [];
    var up := if y + 1 < height then [Coord(x, y + 1)] else [];
    left + right + down + up
  }

  /** The cells looked up in the column beside (x, y): level, down, up. */
  function SideColumn(cx: int, y: int, height: int): (r: seq<Coord>)
    ensures 1 <= |r| <= 3 && NoRepeats(r)
    ensures forall c | c in r :: c.x == cx
  {
    [Coord(cx, y)]
    + (if y - 1 >= 0 then [Coord(cx, y - 1)] else [])
    + (if y + 1 < height then [Coord(cx, y + 1)] else [])
  }

  lemma SideColumnMembership(cx: int, y: int, height: int, c: Coord)
    requires 0 <= y < height
    ensures c in SideColumn(cx, y, height) <==> c.x == cx && 0 <= c.y < height && -1 <= c.y - y <= 1
  {
  }

  /** From an in-bounds cell, the enumeration lists exactly the in-bounds
      cells one king move away, each once. */
  lemma NeighbourCoordsExact(x: int, y: int, width: int, height: int)
    requires InBounds(Coord(x, y), width, height)
    ensures var r := NeighbourCoords(x, y, width, height);
            && (forall c :: c in r <==> InBounds(c, width, height) && Chebyshev(Coord(x, y), c) == 1)
            && (forall i, j | 0 <= i < j < |r| :: r[i] != r[j])
  {
    var r := NeighbourCoords(x, y, width, height);
    forall c
      ensures c in r <==> InBounds(c, width, height) && Chebyshev(Coord(x, y), c) == 1
    {
      NeighbourMembership(x, y, width, height, c);
    }
    NeighbourCoordsDistinct(x, y, width, height);
  }

  lemma NeighbourMembership(x: int, y: int, width: int, height: int, c: Coord)
    requires InBounds(Coord(x, y), width, height)
    ensures c in NeighbourCoords(x, y, width, height) <==> InBounds(c, width, height) && Chebyshev(Coord(x, y), c) == 1
  {
    var left := if x - 1 >= 0 then SideColumn(x - 1, y, height) else [];
    var right := if x + 1 < width then SideColumn(x + 1, y, height) else [];
    var down := if y - 1 >= 0 then [Coord(x, y - 1)] else [];
    var up := if y + 1 < height then [Coord(x, y + 1)] else [];
    assert NeighbourCoords(x, y, width, height) == left + right + down + up;
    var inLeft := x - 1 >= 0 && c.x == x - 1 && 0 <= c.y < height && -1 <= c.y - y <= 1;
    var inRight := x + 1 < width && c.x == x + 1 && 0 <= c.y < height && -1 <= c.y - y <= 1;
    var inCentre := c.x == x && 0 <= c.y < height && (c.y == y - 1 || c.y == y + 1);
    assert c in left <==> inLeft by { SideColumnMembership(x - 1, y, height, c); }
    assert c in right <==> inRight by { SideColumnMembership(x + 1, y, height, c); }
    assert c in down + up <==> inCentre by { CentreMembership(x, y, height, c); }
    assert c in left + right + down + up <==> inLeft || inRight || inCentre;
    assert InBounds(c, width, height) && Chebyshev(Coord(x, y), c) == 1 <==> inLeft || inRight || inCentre by {
      ChebyshevOne(Coord(x, y), c);
    }
  }

  lemma CentreMembership(x: int, y: int, height: int, c: Coord)
    requires 0 <= y < height
    ensures c in (if y - 1 >= 0 then [Coord(x, y - 1)] else []) + (if y + 1 < height then [Coord(x, y + 1)] else [])
            <==> c.x == x && 0 <= c.y < height && (c.y == y - 1 || c.y == y + 1)
  {
  }

  lemma ChebyshevOne(a: Coord, c: Coord)
    ensures Chebyshev(a, c) == 1 <==> c != a && -1 <= c.x - a.x <= 1 && -1 <= c.y - a.y <= 1
  {
  }

  /** Distinct cells: the two side columns lie on different x, the centre
      column's two cells on different y. */
  lemma NeighbourCoordsDistinct(x: int, y: int, width: int, height: int)
    ensures var r := NeighbourCoords(x, y, width, height);
            forall i, j | 0 <= i < j < |r| :: r[i] != r[j]
  {
    var left := if x - 1 >= 0 then SideColumn(x - 1, y, height) else [];
    var right := if x + 1 < width then SideColumn(x + 1, y, height) else [];
    var down := if y - 1 >= 0 then [Coord(x, y - 1)] else [];
    var up := if y + 1 < height then [Coord(x, y + 1)] else [];
    assert NeighbourCoords(x, y, width, height) == left + right + down + up;
    ConcatNoRepeats(left, right);
    ConcatNoRepeats(left + right, down);
    ConcatNoRepeats(left + right + down, up);
  }

  ghost predicate NoRepeats(s: seq<Coord>) {
    forall i, j | 0 <= i < j < |s| :: s[i] != s[j]
  }

  lemma ConcatNoRepeats(a: seq<Coord>, b: seq<Coord>)
    requires NoRepeats(a) && NoRepeats(b)
    requires forall c | c in a :: c !in b
    ensures NoRepeats(a + b)
  {
    forall i, j | 0 <= i < j < |a + b|
      ensures (a + b)[i] != (a + b)[j]
    {
      if j >= |a| && i < |a| {
        assert (a + b)[i] in a && (a + b)[j] == b[j - |a|];
      }
    }
  }

  /** An interior cell has all eight neighbours, in the fixed order. */
  lemma InteriorNeighbours(x: int, y: int, width: int, height: int)
    requires 1 <= x < width - 1 && 1 <= y < height - 1
    ensures NeighbourCoords(x, y, width, height)
         == [Coord(x - 1, y), Coord(x - 1, y - 1), Coord(x - 1, y + 1),
             Coord(x + 1, y), Coord(x + 1, y - 1), Coord(x + 1, y + 1),
             Coord(x, y - 1), Coord(x, y + 1)]
  {
  }
}
