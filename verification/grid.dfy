/** The dense width×height cell container. Cell (x, y) is `cells[x][y]`, as in
    the source's `TGridObject[width, height]`; every successful write appends
    its (x, y) to `changes`, which stands for the change-notification event. */
module Grids {
  import opened Common

  datatype Grid<T> = Grid(width: nat, height: nat, cells: seq<seq<T>>, changes: seq<Coord>)
  {
    /** The array really is width×height. */
    ghost predicate Valid() {
      && |cells| == width
      && forall x | 0 <= x < width :: |cells[x]| == height
    }

    predicate WithinGridLimits(x: int, y: int) {
      (x < width && x >= 0) && (y < height && y >= 0)
    }

    /** Bounds-checked read: `None` stands for `default(TGridObject)`, which is
        null for the record type the engines store. */
    function GetGridObject(x: int, y: int): (r: Option<T>)
      requires Valid()
      ensures r.Some? <==> WithinGridLimits(x, y)
      ensures r.Some? ==> r.value == cells[x][y]
    {
      if x >= 0 && y >= 0 && x < width && y < height then Some(cells[x][y]) else None
    }

    /** Bounds-checked write; an out-of-range write is silently ignored and
        raises no notification. */
    function SetGridObject(x: int, y: int, value: T): (g: Grid<T>)
      requires Valid()
      ensures g.Valid() && g.width == width && g.height == height
      ensures WithinGridLimits(x, y) ==> g.changes == changes + [Coord(x, y)]
      ensures WithinGridLimits(x, y) ==> g.cells[x][y] == value
      ensures forall a, b | WithinGridLimits(a, b) && (a != x || b != y) :: g.cells[a][b] == cells[a][b]
      ensures !WithinGridLimits(x, y) ==> g == this
    {
      if x >= 0 && y >= 0 && x < width && y < height then
        this.(cells := cells[x := cells[x][y := value]], changes := changes + [Coord(x, y)])
      else
        this
    }

    /** `getAll`: the cells in the order a C# rectangular array enumerates them,
        last index fastest. */
    function GetAll(): (r: seq<T>)
      requires Valid()
      ensures |r| == width * height
    {
      FlattenLength(cells, height);
      Flatten(cells)
    }
  }

  function Flatten<T>(cols: seq<seq<T>>): seq<T> {
    if |cols| == 0 then [] else cols[0] + Flatten(cols[1..])
  }

  lemma {:induction false} FlattenLength<T>(cols: seq<seq<T>>, h: nat)
    requires forall x | 0 <= x < |cols| :: |cols[x]| == h
    ensures |Flatten(cols)| == |cols| * h
  {
    if |cols| > 0 {
      FlattenLength(cols[1..], h);
    }
  }

  lemma {:induction false} FlattenIndex<T>(cols: seq<seq<T>>, h: nat, x: nat, y: nat)
    requires forall i | 0 <= i < |cols| :: |cols[i]| == h
    requires x < |cols| && y < h
    ensures x * h + y < |Flatten(cols)|
    ensures Flatten(cols)[x * h + y] == cols[x][y]
  {
    FlattenLength(cols, h);
    if x > 0 {
      FlattenIndex(cols[1..], h, x - 1, y);
      assert x * h + y == h + ((x - 1) * h + y);
    }
  }

  /** `getAll` puts cell (x, y) at position x·height + y. */
  lemma GetAllPosition<T>(g: Grid<T>, x: int, y: int)
    requires g.Valid() && g.WithinGridLimits(x, y)
    ensures x * g.height + y < |g.GetAll()|
    ensures g.GetAll()[x * g.height + y] == g.cells[x][y]
  {
    FlattenIndex(g.cells, g.height, x, y);
  }

  /** Position i of `getAll` holds cell (i / height, i % height). */
  lemma GetAllIndex<T>(g: Grid<T>, i: int)
    requires g.Valid() && 0 <= i < |g.GetAll()|
    ensures g.height > 0 && g.WithinGridLimits(i / g.height, i % g.height)
    ensures i == (i / g.height) * g.height + i % g.height
    ensures g.GetAll()[i] == g.cells[i / g.height][i % g.height]
  {
    var h := g.height;
    assert h > 0 by {
      assert g.width * h > 0;
    }
    var x, y := i / h, i % h;
    assert x * h <= i < g.width * h;
    assert (g.width - x) * h > 0 by {
      assert (g.width - x) * h == g.width * h - x * h;
    }
    assert x < g.width;
    GetAllPosition(g, x, y);
  }

  /** `WithinGridLimits` is exactly the test `GetGridObject` and `SetGridObject` make. */
  lemma WithinGridLimitsIsAccessTest<T>(g: Grid<T>, x: int, y: int, v: T)
    requires g.Valid()
    ensures g.WithinGridLimits(x, y) <==> g.GetGridObject(x, y).Some?
    ensures g.WithinGridLimits(x, y) <==> |g.SetGridObject(x, y, v).changes| == |g.changes| + 1
  {
  }

  /** Reading after writing: the written cell reads back the new value, every
      other position reads what it read before. */
  lemma GetAfterSet<T>(g: Grid<T>, x: int, y: int, v: T, a: int, b: int)
    requires g.Valid()
    ensures g.SetGridObject(x, y, v).GetGridObject(a, b)
         == if a == x && b == y && g.WithinGridLimits(x, y) then Some(v) else g.GetGridObject(a, b)
  {
  }

  /** The constructor: `createGridObject(x, y, k)` is called with x as the outer
      loop and y as the inner loop; k counts the calls made so far, which is
      what a factory with a side-effecting counter observes. */
  method New<T>(width: nat, height: nat, createGridObject: (int, int, nat) -> T) returns (g: Grid<T>)
    ensures g.Valid() && g.width == width && g.height == height && g.changes == []
    ensures forall x, y | 0 <= x < width && 0 <= y < height :: g.cells[x][y] == createGridObject(x, y, x * height + y)
  {
    var cols: seq<seq<T>> := [];
    var k: nat := 0;
    var x := 0;
    while x < width
      invariant 0 <= x <= width && |cols| == x && k == x * height
      invariant forall a | 0 <= a < x :: |cols[a]| == height
      invariant forall a, b | 0 <= a < x && 0 <= b < height :: cols[a][b] == createGridObject(a, b, a * height + b)
    {
      var col: seq<T> := [];
      var y := 0;
      while y < height
        invariant 0 <= y <= height && |col| == y && k == x * height + y
        invariant forall b | 0 <= b < y :: col[b] == createGridObject(x, b, x * height + b)
      {
        col := col + [createGridObject(x, y, k)];
        k := k + 1;
        y := y + 1;
      }
      cols := cols + [col];
      assert (x + 1) * height == x * height + height;
      x := x + 1;
    }
    g := Grid(width, height, cols, []);
  }
}
