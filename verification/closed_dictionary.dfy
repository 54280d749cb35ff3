/** `ClosedDictionary`: a closed set keyed by the record's (x, y). */
module ClosedDictionaries {
  import opened Common
  import opened NodeRecords

  type ClosedDictionary = map<Coord, RecId>

  /** Every entry names a record of the arena, stored under its own position. */
  ghost predicate Consistent(d: ClosedDictionary, a: Arena) {
    forall c | c in d :: d[c] in a && a[d[c]].Position() == c
  }

  /** `Initialize` replaces the dictionary with an empty one. */
  function Initialize(): (d: ClosedDictionary)
    ensures |d| == 0
  {
    map[]
  }

  /** `AddToClosed`: `Dictionary.Add` throws when the key is already present
      (and the status is then left alone); otherwise the record is stored under
      its position and marked Closed. */
  function AddToClosed(d: ClosedDictionary, a: Arena, id: RecId): (r: Result<(ClosedDictionary, Arena)>)
    requires id in a
    ensures r.Failure? <==> a[id].Position() in d
    ensures r.Failure? ==> r.error == DuplicateKey
    ensures r.Success? ==> r.value.0 == d[a[id].Position() := id] && r.value.1 == SetStatus(a, id, Closed)
  {
    var key := a[id].Position();
    if key in d then Failure(DuplicateKey)
    else Success((d[key := id], SetStatus(a, id, Closed)))
  }

  /** `RemoveFromClosed`: drops the argument's key if present; status is not touched. */
  function RemoveFromClosed(d: ClosedDictionary, a: Arena, id: RecId): (r: ClosedDictionary)
    requires id in a
    ensures r.Keys == d.Keys - {a[id].Position()}
    ensures forall c | c in r :: r[c] == d[c]
  {
    d - {a[id].Position()}
  }

  /** `SearchInClosed`: the record stored under the argument's position, or null. */
  function SearchInClosed(d: ClosedDictionary, a: Arena, id: RecId): (r: Option<RecId>)
    requires id in a
    ensures r.Some? <==> a[id].Position() in d
    ensures r.Some? ==> r.value == d[a[id].Position()]
    ensures Consistent(d, a) && r.Some? ==> r.value in a && a[r.value].Equals(a[id])
  {
    var key := a[id].Position();
    if key in d then Some(d[key]) else None
  }

  /** `All`: the stored records. */
  function All(d: ClosedDictionary): (r: set<RecId>)
    ensures forall id :: id in r <==> exists c | c in d :: d[c] == id
  {
    d.Values
  }

  /** A consistent dictionary holds at most one record per position. */
  lemma AllOnePerPosition(d: ClosedDictionary, a: Arena)
    requires Consistent(d, a)
    ensures forall id | id in All(d) :: id in a && a[id].Position() in d && d[a[id].Position()] == id
    ensures |All(d)| <= |d|
  {
    assert forall id | id in All(d) :: exists c | c in d :: d[c] == id;
    ImageBound(d, a);
  }

  lemma ImageBound(d: ClosedDictionary, a: Arena)
    requires Consistent(d, a)
    ensures |d.Values| <= |d.Keys|
  {
    if |d| > 0 {
      var c :| c in d;
      var d' := d - {c};
      ImageBound(d', a);
      forall v | v in d.Values
        ensures v in d'.Values + {d[c]}
      {
        var k :| k in d && d[k] == v;
        if k != c {
          assert k in d' && d'[k] == v;
        }
      }
      assert d.Keys == d'.Keys + {c};
      CardSubset(d.Values, d'.Values + {d[c]});
    }
  }

  lemma CardSubset<T>(s: set<T>, t: set<T>)
    requires s <= t
    ensures |s| <= |t|
  {
    assert t == s + (t - s);
  }

  /** Round trip: after adding n the lookup of any record equal to n finds n;
      after removing n it finds nothing and the dictionary is the original one. */
  lemma AddSearchRemove(d: ClosedDictionary, a: Arena, n: RecId, probe: RecId)
    requires n in a && probe in a && a[probe].Equals(a[n])
    requires a[n].Position() !in d
    ensures var (d', a') := AddToClosed(d, a, n).value;
            && SearchInClosed(d', a', probe) == Some(n)
            && a'[n].status == Closed
            && SearchInClosed(RemoveFromClosed(d', a', n), a', probe) == None
            && RemoveFromClosed(d', a', n) == d
  {
  }

  /** Adding keeps the dictionary consistent with the arena. */
  lemma AddKeepsConsistent(d: ClosedDictionary, a: Arena, n: RecId)
    requires n in a && Consistent(d, a)
    ensures AddToClosed(d, a, n).Success? ==>
              var (d', a') := AddToClosed(d, a, n).value;
              Consistent(d', a')
  {
  }

  /** Consistency reads only positions. */
  lemma ConsistentFrame(d: ClosedDictionary, a: Arena, b: Arena)
    requires Consistent(d, a) && SameNodes(a, b)
    ensures Consistent(d, b)
  {
  }
}
