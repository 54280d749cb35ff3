/** `NodeRecordArray`: one slot record per grid cell, addressed by the record's
    `index`, combined with a priority heap for the open set. The closed set is
    nothing but the slots' Closed status.

    `NodePriorityHeap` is not part of this model: its contents are a multiset,
    its extraction returns SOME least-fCost member and its search returns SOME
    member equal to the argument. The model does not fix which one; these
    choices are Dafny's `:|`, which is why the functions that use them are
    ghost. */
module NodeRecordArrays {
  import opened Common
  import opened NodeRecords

  datatype NodeRecordArray = NodeRecordArray(nodeRecords: seq<RecId>, open: multiset<RecId>)

  /** Slots and heap members all name records of the arena. */
  ghost predicate Stored(arr: NodeRecordArray, a: Arena) {
    && (forall i | 0 <= i < |arr.nodeRecords| :: arr.nodeRecords[i] in a)
    && (forall id | id in arr.open :: id in a)
  }

  /** Slot i carries index i, and every record's index names the slot of the
      same grid position: what `GetNodeRecord` relies on. */
  ghost predicate Coherent(arr: NodeRecordArray, a: Arena) {
    && Stored(arr, a)
    && (forall i | 0 <= i < |arr.nodeRecords| :: a[arr.nodeRecords[i]].index == i)
    && (forall id | id in a ::
          0 <= a[id].index < |arr.nodeRecords|
          && a[arr.nodeRecords[a[id].index]].Position() == a[id].Position())
  }

  /** The constructor: slot i is a fresh record (id next + i) at the position
      of nodes[i], with index i; the heap starts empty. */
  function New(nodes: seq<RecId>, a: Arena, next: nat): (r: (NodeRecordArray, Arena))
    requires forall i | 0 <= i < |nodes| :: nodes[i] in a
    requires forall id | id in a :: id < next
    ensures |r.0.nodeRecords| == |nodes| && r.0.open == multiset{}
    ensures forall i | 0 <= i < |nodes| :: r.0.nodeRecords[i] == next + i
    ensures forall i | 0 <= i < |nodes| ::
              next + i in r.1 && r.1[next + i] == NewIndexedNodeRecord(a[nodes[i]].x, a[nodes[i]].y, i)
    ensures forall id | id in a :: id in r.1 && r.1[id] == a[id]
    ensures forall id | id in r.1 :: id in a || next <= id < next + |nodes|
    ensures Stored(r.0, r.1)
  {
    (NodeRecordArray(seq(|nodes|, i => next + i), multiset{}), a + SlotRecords(nodes, a, next, 0))
  }

  /** The fresh slot records for nodes[i..], keyed next + i onwards. */
  function SlotRecords(nodes: seq<RecId>, a: Arena, next: nat, i: nat): (r: Arena)
    requires forall k | 0 <= k < |nodes| :: nodes[k] in a
    requires i <= |nodes|
    ensures forall id :: id in r <==> next + i <= id < next + |nodes|
    ensures forall k | i <= k < |nodes| :: r[next + k] == NewIndexedNodeRecord(a[nodes[k]].x, a[nodes[k]].y, k)
    decreases |nodes| - i
  {
    if i == |nodes| then map[]
    else SlotRecords(nodes, a, next, i + 1)[next + i := NewIndexedNodeRecord(a[nodes[i]].x, a[nodes[i]].y, i)]
  }

  /** `GetNodeRecord`: the slot the argument's index names. An index outside the
      array throws in the source, so it is a precondition here. */
  function GetNodeRecord(arr: NodeRecordArray, a: Arena, id: RecId): (r: RecId)
    requires id in a && 0 <= a[id].index < |arr.nodeRecords|
    ensures r == arr.nodeRecords[a[id].index]
    ensures Coherent(arr, a) ==> r in a && a[r].Equals(a[id]) && a[r].index == a[id].index
  {
    arr.nodeRecords[a[id].index]
  }

  /** The open-set `Initialize`: empties the heap and marks every walkable slot
      Unvisited; costs and parents are left as they were. */
  function InitializeOpen(arr: NodeRecordArray, a: Arena): (r: (NodeRecordArray, Arena))
    requires Stored(arr, a)
    ensures r.0.nodeRecords == arr.nodeRecords && r.0.open == multiset{}
    ensures SameNodes(a, r.1)
    ensures forall id | id in a :: r.1[id] == a[id].(status := r.1[id].status)
    ensures forall i | 0 <= i < |arr.nodeRecords| && a[arr.nodeRecords[i]].isWalkable ::
              r.1[arr.nodeRecords[i]] == a[arr.nodeRecords[i]].(status := Unvisited)
    ensures forall id | id in a && (id !in arr.nodeRecords || !a[id].isWalkable) :: r.1[id] == a[id]
  {
    var a' := map id | id in a :: if id in arr.nodeRecords && a[id].isWalkable then a[id].(status := Unvisited) else a[id];
    (arr.(open := multiset{}), a')
  }

  /** The closed-set `Initialize` does nothing. */
  function InitializeClosed(arr: NodeRecordArray): (r: NodeRecordArray)
    ensures r == arr
  {
    arr
  }

  /** `AddToOpen`: insert into the heap and mark Open. */
  function AddToOpen(arr: NodeRecordArray, a: Arena, id: RecId): (r: (NodeRecordArray, Arena))
    requires id in a
    ensures r.0.nodeRecords == arr.nodeRecords && r.0.open == arr.open + multiset{id}
    ensures r.1 == SetStatus(a, id, Open)
  {
    (arr.(open := arr.open + multiset{id}), SetStatus(a, id, Open))
  }

  /** `RemoveFromOpen`: take the record out of the heap and mark it Unvisited. */
  function RemoveFromOpen(arr: NodeRecordArray, a: Arena, id: RecId): (r: (NodeRecordArray, Arena))
    requires id in a
    ensures r.0.nodeRecords == arr.nodeRecords && r.0.open == arr.open - multiset{id}
    ensures r.1 == SetStatus(a, id, Unvisited)
  {
    (arr.(open := arr.open - multiset{id}), SetStatus(a, id, Unvisited))
  }

  /** `AddToClosed` only marks the record Closed. */
  function AddToClosed(a: Arena, id: RecId): (r: Arena)
    requires id in a
    ensures r == SetStatus(a, id, Closed)
  {
    SetStatus(a, id, Closed)
  }

  /** `RemoveFromClosed` only marks the record Unvisited. */
  function RemoveFromClosed(a: Arena, id: RecId): (r: Arena)
    requires id in a
    ensures r == SetStatus(a, id, Unvisited)
  {
    SetStatus(a, id, Unvisited)
  }

  /** `SearchInClosed`: the argument's slot when that slot is Closed, else null. */
  function SearchInClosed(arr: NodeRecordArray, a: Arena, id: RecId): (r: Option<RecId>)
    requires Stored(arr, a) && id in a && 0 <= a[id].index < |arr.nodeRecords|
    ensures r.Some? <==> a[GetNodeRecord(arr, a, id)].status == Closed
    ensures r.Some? ==> r.value == GetNodeRecord(arr, a, id)
  {
    var slot := GetNodeRecord(arr, a, id);
    if a[slot].status == Closed then Some(slot) else None
  }

  /** The heap's search: some member equal to the argument, or null when none is. */
  ghost function SearchInOpen(arr: NodeRecordArray, a: Arena, id: RecId): (r: Option<RecId>)
    requires Stored(arr, a) && id in a
    ensures r.Some? <==> exists m | m in arr.open :: a[m].Equals(a[id])
    ensures r.Some? ==> r.value in arr.open && a[r.value].Equals(a[id])
  {
    if exists m | m in arr.open :: a[m].Equals(a[id]) then
      var m :| m in arr.open && a[m].Equals(a[id]);
      Some(m)
    else
      None
  }

  function CountOpen(arr: NodeRecordArray): nat {
    |arr.open|
  }

  /** The heap's choice of a least-fCost member. */
  ghost function HeapBest(arr: NodeRecordArray, a: Arena): (best: RecId)
    requires Stored(arr, a) && |arr.open| > 0
    ensures best in arr.open
    ensures forall m | m in arr.open :: a[best].fCost <= a[m].fCost
  {
    MinExists(arr.open, a);
    var b :| b in arr.open && forall m | m in arr.open :: a[b].fCost <= a[m].fCost;
    b
  }

  /** `PeekBest`. */
  ghost function PeekBest(arr: NodeRecordArray, a: Arena): (best: RecId)
    requires Stored(arr, a) && |arr.open| > 0
    ensures best in arr.open && best in a
    ensures forall m | m in arr.open :: a[best].fCost <= a[m].fCost
  {
    HeapBest(arr, a)
  }

  /** `GetBestAndRemove`: PeekBest's member, taken out of the heap once. */
  ghost function GetBestAndRemove(arr: NodeRecordArray, a: Arena): (r: (RecId, NodeRecordArray))
    requires Stored(arr, a) && |arr.open| > 0
    ensures r.0 == PeekBest(arr, a)
    ensures r.1.nodeRecords == arr.nodeRecords
    ensures r.1.open + multiset{r.0} == arr.open
    ensures CountOpen(r.1) == CountOpen(arr) - 1
  {
    var best := HeapBest(arr, a);
    (best, arr.(open := arr.open - multiset{best}))
  }

  /** The closed-set `All`: the Closed slots, in slot order. */
  function ClosedAll(slots: seq<RecId>, a: Arena): (r: seq<RecId>)
    requires forall i | 0 <= i < |slots| :: slots[i] in a
    ensures |r| <= |slots|
    ensures forall id :: id in r <==> id in slots && a[id].status == Closed
  {
    if |slots| == 0 then []
    else
      var rest := ClosedAll(slots[1..], a);
      if a[slots[0]].status == Closed then [slots[0]] + rest else rest
  }

  /** Some member of a non-empty multiset has the least fCost. */
  lemma MinExists(m: multiset<RecId>, a: Arena)
    requires |m| > 0 && forall id | id in m :: id in a
    ensures exists b | b in m :: forall o | o in m :: a[b].fCost <= a[o].fCost
  {
    var x :| x in m;
    var rest := m - multiset{x};
    assert m == rest + multiset{x};
    var w;
    if |rest| == 0 {
      assert rest == multiset{};
      w := MinStep(m, rest, x, x, a);
    } else {
      MinExists(rest, a);
      var b :| b in rest && forall o | o in rest :: a[b].fCost <= a[o].fCost;
      w := MinStep(m, rest, x, b, a);
    }
  }

  /** The lesser of x and the least member of the rest is least in all. */
  lemma MinStep(m: multiset<RecId>, rest: multiset<RecId>, x: RecId, b: RecId, a: Arena) returns (w: RecId)
    requires m == rest + multiset{x} && forall id | id in m :: id in a
    requires b in m && forall o | o in rest :: a[b].fCost <= a[o].fCost
    ensures w in m && forall o | o in m :: a[w].fCost <= a[o].fCost
  {
    w := if a[x].fCost <= a[b].fCost then x else b;
    forall o | o in m
      ensures a[w].fCost <= a[o].fCost
    {
      assert o in rest || o == x;
    }
  }

  /** For a slot, the closed-set search and the closed-set enumeration agree
      with its status. */
  lemma SearchInClosedIffClosed(arr: NodeRecordArray, a: Arena, i: nat)
    requires Coherent(arr, a) && i < |arr.nodeRecords|
    ensures SearchInClosed(arr, a, arr.nodeRecords[i]).Some? <==> a[arr.nodeRecords[i]].status == Closed
    ensures arr.nodeRecords[i] in ClosedAll(arr.nodeRecords, a) <==> a[arr.nodeRecords[i]].status == Closed
  {
  }

  /** Coherence survives arenas that keep every record in place and only add
      records copying an existing record's position and index. */
  lemma CoherentGrown(arr: NodeRecordArray, a: Arena, b: Arena, open: multiset<RecId>)
    requires Coherent(arr, a) && Grown(a, b) && forall id | id in open :: id in b
    ensures Coherent(arr.(open := open), b)
  {
    forall id | id in b
      ensures 0 <= b[id].index < |arr.nodeRecords|
      ensures b[arr.nodeRecords[b[id].index]].Position() == b[id].Position()
    {
      if id !in a {
        var o :| o in a && b[id].Position() == a[o].Position() && b[id].index == a[o].index;
        assert arr.nodeRecords[a[o].index] in a;
      } else {
        assert arr.nodeRecords[a[id].index] in a;
      }
    }
  }

  /** Status-only updates keep coherence. */
  lemma CoherentFrame(arr: NodeRecordArray, a: Arena, b: Arena, open: multiset<RecId>)
    requires Coherent(arr, a) && SameNodes(a, b) && forall id | id in open :: id in a
    ensures Coherent(arr.(open := open), b)
  {
  }
}
