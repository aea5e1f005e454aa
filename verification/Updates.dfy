/** What an update of an environment's lightning instances records. */
module Updates {
  import opened Prelude
  import opened Registry
  import opened Invariants
  import opened Admission

  /** When an update records instances: a ready environment that is still
      there, a valid list that strictly extends the existing names, readable
      versions, enough free triples, and a cluster that took the additions. */
  ghost predicate UpdateGoesThrough(s: State, e: Event)
    requires e.Update? && LiveIn(s, e.id)
  {
    var row := s.rows[e.id];
    var requested := Requested(e.lightning);
    && row.status == Ready && (e.checked ==> "env-" + e.id[..12] in s.namespaces)
    && ProperList(e.lightning) && row.instances.Keys < requested && e.imagesResolve && e.applied
    && |requested - row.instances.Keys| <= |ClearTriples(s)|
  }

  /** An update that goes through records exactly the requested names: existing
      ones keep their ports, new ones get the least clear triples in the order
      of the request. Any other update leaves the instances as they were. */
  lemma UpdateRecordsRequest(s: State, e: Event)
    requires e.Update? && LiveIn(s, e.id)
    ensures var before, after := s.rows[e.id].instances, UpdateSpec(s, e).rows;
            && e.id in after
            && (UpdateGoesThrough(s, e) ==>
                  && after[e.id].instances.Keys == Requested(e.lightning)
                  && (forall n :: n in before ==> n in after[e.id].instances && after[e.id].instances[n] == before[n])
                  && TakesFirst(s, e.lightning, before, after[e.id].instances))
            && (!UpdateGoesThrough(s, e) ==> after[e.id].instances == before)
  {
    if Reconcile(s, e.id, e.checked) == s && s.rows[e.id].status.Ready? {
      UpdatedExactly(s, e);
      RequestedAreNames(e.lightning);
      if UpdateGoesThrough(s, e) {
        AdditionsCounted(s.rows[e.id], e.lightning);
        PoolIsClear(s);
        AdditionsTakeFirst(s, s.rows[e.id], e.lightning);
        ZipPorts(Names(Additions(s.rows[e.id], e.lightning)), FreeLightning(s));
      }
    }
    hide FreeLightning, ValidInstances, ProperList, ClearTriples, TripleClear, Additions, Zip, TakesFirst;
  }

  /** Where the additions stand in the request. */
  lemma {:induction false} AdditionsInOrder(row: Row, lightning: seq<Instance>) returns (at: seq<nat>)
    ensures |at| == |Additions(row, lightning)| && Ascending(at)
    ensures forall k :: 0 <= k < |at| ==> IsNewAt(lightning, row.instances, at[k]) && Additions(row, lightning)[k] == lightning[at[k]]
    ensures forall i :: IsNewAt(lightning, row.instances, i) ==> i in at
  {
    if lightning == [] {
      at := [];
    } else {
      var n := |lightning| - 1;
      at := AdditionsInOrder(row, lightning[..n]);
      if lightning[n].name !in row.instances {
        at := at + [n];
      }
    }
  }

  lemma AdditionsTakeFirst(s: State, row: Row, lightning: seq<Instance>)
    requires ValidInstances(lightning) && Distinct(Names(Additions(row, lightning)))
    requires |Additions(row, lightning)| <= |FreeLightning(s)|
    ensures TakesFirst(s, lightning, row.instances,
                       row.instances + Zip(Names(Additions(row, lightning)), FreeLightning(s)))
  {
    var at := AdditionsInOrder(row, lightning);
    var names, free := Names(Additions(row, lightning)), FreeLightning(s);
    var after := row.instances + Zip(names, free);
    ZipPorts(names, free);
    PoolIsClear(s);
    assert forall p :: p in free <==> p in Elements(free);
    assert forall p :: p in ClearTriples(s) <==> TripleClear(s, p) by { ClearRange(s); }
    forall k | 0 <= k < |at| ensures OnPort(s, lightning, after, at[k], free[k]) {
      assert names[k] == lightning[at[k]].name && free[k] in free;
    }
    hide FreeLightning, Zip, TripleClear, ClearTriples, Additions, ValidInstances, OnPort;
    TakesInOrder(s, lightning, row.instances, after, at, free);
  }

  /** The name at a place of a list is recorded on a clear port. */
  ghost predicate OnPort(s: State, lightning: seq<Instance>, after: map<string, int>, i: int, port: int) {
    0 <= i < |lightning| && lightning[i].name in after && after[lightning[i].name] == port && TripleClear(s, port)
  }

  lemma TakesInOrder(s: State, lightning: seq<Instance>, before: map<string, int>, after: map<string, int>,
                     at: seq<nat>, free: seq<int>)
    requires Ascending(at) && |at| <= |free| && Ascending(free)
    requires forall k :: 0 <= k < |at| ==> OnPort(s, lightning, after, at[k], free[k])
    requires forall i :: IsNewAt(lightning, before, i) <==> i in at
    requires forall p :: TripleClear(s, p) ==> p in free
    ensures TakesFirst(s, lightning, before, after)
  {
    hide TripleClear;
    forall i | IsNewAt(lightning, before, i)
      ensures 0 <= i < |lightning| && lightning[i].name in after && TripleClear(s, after[lightning[i].name])
    {
      var k :| 0 <= k < |at| && at[k] == i;
      assert OnPort(s, lightning, after, at[k], free[k]);
    }
    forall p, i | TripleClear(s, p) && IsNewAt(lightning, before, i) && p < after[lightning[i].name]
      ensures exists j :: IsNewAt(lightning, before, j) && j < i && after[lightning[j].name] == p
    {
      var j := NoGap(s, lightning, before, after, at, free, p, i);
    }
    forall i, j | IsNewAt(lightning, before, i) && IsNewAt(lightning, before, j) && i < j
      ensures after[lightning[i].name] < after[lightning[j].name]
    {
      LaterIsHigher(s, lightning, after, at, free, i, j);
    }
  }

  lemma LaterIsHigher(s: State, lightning: seq<Instance>, after: map<string, int>, at: seq<nat>, free: seq<int>, i: int, j: int)
    requires Ascending(at) && |at| <= |free| && Ascending(free) && i in at && j in at && i < j
    requires forall k :: 0 <= k < |at| ==> OnPort(s, lightning, after, at[k], free[k])
    ensures 0 <= i < |lightning| && 0 <= j < |lightning| && lightning[i].name in after && lightning[j].name in after
    ensures after[lightning[i].name] < after[lightning[j].name]
  {
    hide TripleClear;
    var x :| 0 <= x < |at| && at[x] == i;
    var y :| 0 <= y < |at| && at[y] == j;
    assert x < y;
    assert OnPort(s, lightning, after, at[x], free[x]) && OnPort(s, lightning, after, at[y], free[y]);
  }

  lemma NoGap(s: State, lightning: seq<Instance>, before: map<string, int>, after: map<string, int>,
              at: seq<nat>, free: seq<int>, p: int, i: int) returns (j: int)
    requires Ascending(at) && |at| <= |free| && Ascending(free) && p in free && i in at
    requires forall k :: 0 <= k < |at| ==> OnPort(s, lightning, after, at[k], free[k])
    requires forall i :: IsNewAt(lightning, before, i) <==> i in at
    requires 0 <= i < |lightning| && lightning[i].name in after && p < after[lightning[i].name]
    ensures IsNewAt(lightning, before, j) && j < i && OnPort(s, lightning, after, j, p)
  {
    hide TripleClear, IsNewAt;
    var k :| 0 <= k < |at| && at[k] == i;
    var z :| 0 <= z < |free| && free[z] == p;
    assert z < k;
    assert at[z] in at && at[z] < at[k];
    j := at[z];
  }

  lemma UpdatedExactly(s: State, e: Event)
    requires e.Update? && LiveIn(s, e.id) && s.rows[e.id].status.Ready? && (e.checked ==> HasNamespace(s, e.id))
    ensures UpdatedInstances(s, e.id, e).Some? <==> UpdateGoesThrough(s, e)
    ensures UpdatedInstances(s, e.id, e).Some? ==>
      UpdatedInstances(s, e.id, e).value.Keys == Requested(e.lightning)
  {
    RecordedExactly(s, e.id, e);
    ValidIsProper(e.lightning);
    RequestedAreNames(e.lightning);
    PoolIsClear(s);
    hide FreeLightning, ValidInstances, ProperList, ClearTriples, UpdatedInstances, Requested;
  }

  /** When the rows of a request's additions are written, and what they then name. */
  lemma RecordedExactly(s: State, id: Uuid, e: Event)
    requires e.Update? && id in s.rows
    ensures UpdatedInstances(s, id, e).Some? <==>
      && ValidInstances(e.lightning) && s.rows[id].instances.Keys < Elements(Names(e.lightning))
      && e.imagesResolve && e.applied
      && |Elements(Names(e.lightning)) - s.rows[id].instances.Keys| <= |FreeLightning(s)|
    ensures UpdatedInstances(s, id, e).Some? ==>
      UpdatedInstances(s, id, e).value.Keys == Elements(Names(e.lightning))
  {
    hide FreeLightning, Zip, ValidInstances, Additions;
    if ValidInstances(e.lightning) {
      AdditionsCounted(s.rows[id], e.lightning);
      var additions := Additions(s.rows[id], e.lightning);
      if |additions| <= |FreeLightning(s)| {
        ZipPorts(Names(additions), FreeLightning(s));
        assert Zip(Names(additions), FreeLightning(s)).Keys == Elements(Names(additions));
      }
    }
  }

  lemma AdditionsCounted(row: Row, lightning: seq<Instance>)
    requires ValidInstances(lightning)
    ensures Distinct(Names(lightning)) && Distinct(Names(Additions(row, lightning)))
    ensures Elements(Names(Additions(row, lightning))) == Elements(Names(lightning)) - row.instances.Keys
    ensures |Additions(row, lightning)| == |Elements(Names(lightning)) - row.instances.Keys|
    ensures (forall n :: n in row.instances ==> n in Names(lightning)) && Additions(row, lightning) != []
        <==> row.instances.Keys < Elements(Names(lightning))
  {
    AdditionsAre(row, lightning);
    var names := Names(Additions(row, lightning));
    DistinctCount(names);
    assert Elements(names) == Elements(Names(lightning)) - row.instances.Keys;
    assert names != [] ==> names[0] in Elements(names);
  }
}
