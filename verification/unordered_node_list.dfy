/** `SimpleUnorderedNodeList`: an unordered list of record ids that serves as an
    open set or a closed set. Lookups compare coordinates (`Equals`), never ids. */
module UnorderedNodeLists {
  import opened Common
  import opened NodeRecords

  type NodeList = seq<RecId>

  /** Every entry names a record of the arena. */
  ghost predicate Stored(l: NodeList, a: Arena) {
    forall i | 0 <= i < |l| :: l[i] in a
  }

  /** No two entries are the same node. */
  ghost predicate UniquePositions(l: NodeList, a: Arena)
    requires Stored(l, a)
  {
    forall i, j | 0 <= i < j < |l| :: a[l[i]].Position() != a[l[j]].Position()
  }

  /** Some entry is the node at `c`. */
  ghost predicate HasPosition(l: NodeList, a: Arena, c: Coord)
    requires Stored(l, a)
  {
    exists i | 0 <= i < |l| :: a[l[i]].Position() == c
  }

  /** `Initialize` (`Clear`). */
  function Initialize(): (l: NodeList)
    ensures CountOpen(l) == 0
  {
    []
  }

  function CountOpen(l: NodeList): nat {
    |l|
  }

  /** `AddToOpen`: append and mark Open. */
  function AddToOpen(l: NodeList, a: Arena, id: RecId): (r: (NodeList, Arena))
    requires id in a
    ensures r.0 == l + [id] && CountOpen(r.0) == CountOpen(l) + 1
    ensures r.1 == SetStatus(a, id, Open)
  {
    (l + [id], SetStatus(a, id, Open))
  }

  /** `AddToClosed`: append and mark Closed. */
  function AddToClosed(l: NodeList, a: Arena, id: RecId): (r: (NodeList, Arena))
    requires id in a
    ensures r.0 == l + [id] && CountOpen(r.0) == CountOpen(l) + 1
    ensures r.1 == SetStatus(a, id, Closed)
  {
    (l + [id], SetStatus(a, id, Closed))
  }

  /** Position of the first entry that is the node at `c`, scanning from `i`. */
  function FirstMatchFrom(l: NodeList, a: Arena, c: Coord, i: nat): (r: Option<nat>)
    requires Stored(l, a) && i <= |l|
    ensures r.Some? ==> i <= r.value < |l| && a[l[r.value]].Position() == c
    ensures r.Some? ==> forall j | i <= j < r.value :: a[l[j]].Position() != c
    ensures r.None? ==> forall j | i <= j < |l| :: a[l[j]].Position() != c
    decreases |l| - i
  {
    if i == |l| then None
    else if a[l[i]].Position() == c then Some(i)
    else FirstMatchFrom(l, a, c, i + 1)
  }

  /** Position of the first entry that is the node at `c` (`FirstOrDefault`). */
  function FirstMatch(l: NodeList, a: Arena, c: Coord): (r: Option<nat>)
    requires Stored(l, a)
    ensures r.Some? ==> r.value < |l| && a[l[r.value]].Position() == c
    ensures r.Some? ==> forall j | 0 <= j < r.value :: a[l[j]].Position() != c
    ensures r.None? <==> !HasPosition(l, a, c)
  {
    FirstMatchFrom(l, a, c, 0)
  }

  /** `SearchInOpen` / `SearchInClosed`: the first stored record that equals
      the argument, or null. */
  function Search(l: NodeList, a: Arena, id: RecId): (r: Option<RecId>)
    requires Stored(l, a) && id in a
    ensures r.Some? <==> HasPosition(l, a, a[id].Position())
    ensures r.Some? ==> r.value in l && r.value in a && a[r.value].Equals(a[id])
    ensures r.Some? ==> exists i | 0 <= i < |l| :: l[i] == r.value && forall j | 0 <= j < i :: !a[l[j]].Equals(a[id])
  {
    match FirstMatch(l, a, a[id].Position())
    case Some(i) => Some(l[i])
    case None => None
  }

  /** `List.Remove(record)`: drops the first entry equal to the argument;
      leaves the list alone when there is none. Status is not touched. */
  function Remove(l: NodeList, a: Arena, id: RecId): (r: NodeList)
    requires Stored(l, a) && id in a
    ensures Stored(r, a)
    ensures !HasPosition(l, a, a[id].Position()) ==> r == l
    ensures HasPosition(l, a, a[id].Position()) ==>
              var i := FirstMatch(l, a, a[id].Position()).value;
              r == l[..i] + l[i + 1..] && |r| == |l| - 1
    ensures multiset(r) <= multiset(l)
  {
    match FirstMatch(l, a, a[id].Position())
    case Some(i) =>
      assert l == l[..i] + [l[i]] + l[i + 1..];
      l[..i] + l[i + 1..]
    case None => l
  }

  /** k is the last position, among the first n, holding the least fCost. */
  ghost predicate IsLastMin(l: NodeList, a: Arena, k: nat, n: nat)
    requires Stored(l, a)
  {
    && k < n <= |l|
    && forall j | 0 <= j < n :: a[l[k]].fCost <= a[l[j]].fCost && (k < j ==> a[l[k]].fCost < a[l[j]].fCost)
  }

  /** The fold `Aggregate((r1, r2) => r1.fCost < r2.fCost ? r1 : r2)` from
      position i with accumulator acc. */
  function AggregateFrom(l: NodeList, a: Arena, acc: nat, i: nat): (k: nat)
    requires Stored(l, a) && IsLastMin(l, a, acc, i)
    ensures IsLastMin(l, a, k, |l|)
    decreases |l| - i
  {
    if i == |l| then acc
    else AggregateFrom(l, a, if a[l[acc]].fCost < a[l[i]].fCost then acc else i, i + 1)
  }

  /** `PeekBest` on a non-empty list (the source's `Aggregate` throws on an
      empty one): a least-fCost entry, the last one in list order on ties. */
  function PeekBestIndex(l: NodeList, a: Arena): (k: nat)
    requires Stored(l, a) && |l| > 0
    ensures k < |l|
    ensures forall j | 0 <= j < |l| :: a[l[k]].fCost <= a[l[j]].fCost
    ensures forall j | k < j < |l| :: a[l[k]].fCost < a[l[j]].fCost
  {
    AggregateFrom(l, a, 0, 1)
  }

  function PeekBest(l: NodeList, a: Arena): (best: RecId)
    requires Stored(l, a) && |l| > 0
    ensures best in l && best in a
    ensures forall id | id in l :: a[best].fCost <= a[id].fCost
  {
    l[PeekBestIndex(l, a)]
  }

  /** `GetBestAndRemove`: PeekBest's record, and the list without the first
      entry equal to it. */
  function GetBestAndRemove(l: NodeList, a: Arena): (r: (RecId, NodeList))
    requires Stored(l, a) && |l| > 0
    ensures r.0 == PeekBest(l, a)
    ensures r.1 == Remove(l, a, r.0) && |r.1| == |l| - 1
    ensures UniquePositions(l, a) ==>
              var k := PeekBestIndex(l, a);
              r.1 == l[..k] + l[k + 1..]
  {
    var best := PeekBest(l, a);
    assert HasPosition(l, a, a[best].Position());
    FirstMatchOfUnique(l, a, PeekBestIndex(l, a));
    (best, Remove(l, a, best))
  }

  /** `Replace`: the first record takes the second's parent and costs, and
      keeps its own place, status, index and edge. */
  function Replace(a: Arena, toBeReplaced: RecId, toReplace: RecId): (r: Arena)
    requires toBeReplaced in a && toReplace in a
    ensures SameNodes(a, r)
    ensures r[toBeReplaced].parent == a[toReplace].parent
    ensures r[toBeReplaced].gCost == a[toReplace].gCost && r[toBeReplaced].hCost == a[toReplace].hCost
    ensures r[toBeReplaced].fCost == a[toReplace].fCost
    ensures r[toBeReplaced].status == a[toBeReplaced].status
    ensures r[toBeReplaced].bestGoalBoundEdge == a[toBeReplaced].bestGoalBoundEdge
    ensures forall other | other in a && other != toBeReplaced :: r[other] == a[other]
  {
    var n := a[toReplace];
    a[toBeReplaced := a[toBeReplaced].(parent := n.parent, fCost := n.fCost, gCost := n.gCost, hCost := n.hCost)]
  }

  /** In a list without repeated nodes the first match of an entry's position
      is that entry. */
  lemma FirstMatchOfUnique(l: NodeList, a: Arena, k: nat)
    requires Stored(l, a) && k < |l|
    ensures UniquePositions(l, a) ==> FirstMatch(l, a, a[l[k]].Position()) == Some(k)
  {
  }

  /** The list operations read only positions, so they give the same answers
      over arenas that differ in search fields alone. */
  lemma FirstMatchFrame(l: NodeList, a: Arena, b: Arena, c: Coord)
    requires Stored(l, a) && SameNodes(a, b)
    ensures Stored(l, b)
    ensures FirstMatch(l, a, c) == FirstMatch(l, b, c)
    ensures HasPosition(l, a, c) <==> HasPosition(l, b, c)
    ensures UniquePositions(l, a) <==> UniquePositions(l, b)
  {
    assert forall i | 0 <= i < |l| :: a[l[i]].Position() == b[l[i]].Position();
    FirstMatchFromFrame(l, a, b, c, 0);
  }

  /** The search gives the same answer over arenas that differ in search
      fields alone. */
  lemma SearchFrame(l: NodeList, a: Arena, b: Arena, id: RecId)
    requires Stored(l, a) && SameNodes(a, b) && id in a
    ensures Stored(l, b) && Search(l, a, id) == Search(l, b, id)
  {
    FirstMatchFrame(l, a, b, a[id].Position());
  }

  lemma {:induction false} FirstMatchFromFrame(l: NodeList, a: Arena, b: Arena, c: Coord, i: nat)
    requires Stored(l, a) && Stored(l, b) && i <= |l|
    requires forall j | 0 <= j < |l| :: a[l[j]].Position() == b[l[j]].Position()
    ensures FirstMatchFrom(l, a, c, i) == FirstMatchFrom(l, b, c, i)
    decreases |l| - i
  {
    if i < |l| {
      FirstMatchFromFrame(l, a, b, c, i + 1);
    }
  }

  /** Adding a node the list lacks, then searching for it, finds exactly it;
      removing it again gives back the original list. */
  lemma AddSearchRemove(l: NodeList, a: Arena, id: RecId)
    requires Stored(l, a) && id in a && !HasPosition(l, a, a[id].Position())
    ensures var (l', a') := AddToOpen(l, a, id);
            && Stored(l', a')
            && Search(l', a', id) == Some(id)
            && Remove(l', a', id) == l
            && a'[id].status == Open
  {
    var (l', a') := AddToOpen(l, a, id);
    FirstMatchFrame(l, a, a', a[id].Position());
    assert l'[|l|] == id;
    assert HasPosition(l', a', a[id].Position());
    assert FirstMatch(l', a', a[id].Position()) == Some(|l|);
    assert l'[..|l|] == l;
  }

  /** After GetBestAndRemove on a list without repeated nodes, the best node
      is gone and every other entry stays. */
  lemma GetBestAndRemoveDropsBest(l: NodeList, a: Arena)
    requires Stored(l, a) && |l| > 0 && UniquePositions(l, a)
    ensures var (best, rest) := GetBestAndRemove(l, a);
            && Stored(rest, a)
            && UniquePositions(rest, a)
            && !HasPosition(rest, a, a[best].Position())
            && multiset(rest) + multiset{best} == multiset(l)
  {
    RemoveAtUnique(l, a, PeekBestIndex(l, a));
  }

  lemma RemoveAtUnique(l: NodeList, a: Arena, k: nat)
    requires Stored(l, a) && k < |l| && UniquePositions(l, a)
    ensures var rest := l[..k] + l[k + 1..];
            && Stored(rest, a)
            && UniquePositions(rest, a)
            && !HasPosition(rest, a, a[l[k]].Position())
            && multiset(rest) + multiset{l[k]} == multiset(l)
            && (forall c | c != a[l[k]].Position() :: HasPosition(rest, a, c) <==> HasPosition(l, a, c))
            && (forall i | 0 <= i < |rest| :: exists j | 0 <= j < |l| :: l[j] == rest[i])
  {
    var rest := l[..k] + l[k + 1..];
    assert l == l[..k] + [l[k]] + l[k + 1..];
    assert forall i | 0 <= i < |rest| :: rest[i] == l[if i < k then i else i + 1];
    forall c | c != a[l[k]].Position() && HasPosition(l, a, c)
      ensures HasPosition(rest, a, c)
    {
      var j :| 0 <= j < |l| && a[l[j]].Position() == c;
      assert rest[if j < k then j else j - 1] == l[j];
    }
  }
}
