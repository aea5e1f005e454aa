/** When a request has what it needs, in terms of rows, names and port numbers
    alone: legal instance names, free ports, free triples, and a create's
    conditions. */
module Admission {
  import opened Prelude
  import opened PortPool
  import opened Ttl
  import opened Registry
  import opened Invariants

  // ---- instance lists

  /** Lower-case ASCII letters and digits, by code. */
  predicate IsAlphanumeric(code: int) { 97 <= code <= 122 || 48 <= code <= 57 }

  /** One to 63 letters, digits and hyphens, the first of them no hyphen. */
  ghost predicate IsLabel(name: string) {
    && 1 <= |name| <= 63 && name[0] as int != 45
    && forall i :: 0 <= i < |name| ==> IsAlphanumeric(name[i] as int) || name[i] as int == 45
  }

  lemma LabelExactly(name: string)
    ensures IsDnsLabel(name) <==> IsLabel(name)
  {
  }

  /** The lists a request may carry: labels, no two alike, all of them lnd. */
  ghost predicate ProperList(instances: seq<Instance>) {
    && (forall i :: 0 <= i < |instances| ==> IsLabel(instances[i].name) && instances[i].implementation == Lnd)
    && (forall i, j :: 0 <= i < j < |instances| ==> instances[i].name != instances[j].name)
  }

  lemma ValidIsProper(instances: seq<Instance>)
    ensures ValidInstances(instances) <==> ProperList(instances)
  {
    forall name: string ensures IsDnsLabel(name) <==> IsLabel(name) { LabelExactly(name); }
    hide IsDnsLabel, IsLabel;
    assert forall i :: 0 <= i < |instances| ==> Names(instances)[i] == instances[i].name;
    if ProperList(instances) {
      assert Distinct(Names(instances));
    }
    if ValidInstances(instances) {
      forall i, j | 0 <= i < j < |instances| ensures instances[i].name != instances[j].name {
        assert Names(instances)[i] != Names(instances)[j];
      }
    }
  }

  /** The names a list asks for. */
  ghost function Requested(instances: seq<Instance>): set<string> {
    set i | 0 <= i < |instances| :: instances[i].name
  }

  lemma RequestedAreNames(instances: seq<Instance>)
    ensures Requested(instances) == Elements(Names(instances))
  {
    forall n | n in Names(instances) ensures n in Requested(instances) {
      var i :| 0 <= i < |instances| && Names(instances)[i] == n;
      assert instances[i].name == n;
    }
    forall i | 0 <= i < |instances| ensures instances[i].name in Elements(Names(instances)) {
      assert Names(instances)[i] == instances[i].name;
    }
  }

  // ---- ports

  /** In range, and no live row holds it. */
  ghost predicate ElectrumFree(s: State, q: int) {
    20000 <= q <= 20099 && forall a :: LiveIn(s, a) ==> s.rows[a].electrum != Some(q)
  }

  ghost predicate ExplorerFree(s: State, q: int) {
    20100 <= q <= 20199 && forall a :: LiveIn(s, a) ==> s.rows[a].explorer != Some(q)
  }

  lemma PurgeKeepsHeld(s: State, owner: string, name: string)
    ensures HeldElectrum(PurgeName(s, owner, name)) == HeldElectrum(s)
    ensures HeldExplorer(PurgeName(s, owner, name)) == HeldExplorer(s)
  {
    var s' := PurgeName(s, owner, name);
    assert forall a :: LiveIn(s, a) <==> LiveIn(s', a);
    assert forall a :: LiveIn(s, a) ==> s'.rows[a] == s.rows[a];
    forall p | p in HeldElectrum(s) ensures p in HeldElectrum(s') {
      var a :| LiveIn(s, a) && s.rows[a].electrum == Some(p);
      assert LiveIn(s', a) && s'.rows[a].electrum == Some(p);
    }
    forall p | p in HeldExplorer(s) ensures p in HeldExplorer(s') {
      var a :| LiveIn(s, a) && s.rows[a].explorer == Some(p);
      assert LiveIn(s', a) && s'.rows[a].explorer == Some(p);
    }
  }

  /** The electrum port a create gets is the least free one, and it is refused
      for want of one exactly when it asked for a port and none is free. */
  lemma ElectrumExactly(s: State, request: CreateRequest)
    ensures var r := ElectrumFor(PurgeName(s, request.owner, request.name), request);
            && (r.Some? <==> !(request.indexer || request.explorer) || exists q :: ElectrumFree(s, q))
            && (r.Some? ==> (r.value.Some? <==> request.indexer || request.explorer))
            && (r.Some? && r.value.Some? ==>
                  ElectrumFree(s, r.value.value) && forall q :: ElectrumFree(s, q) ==> r.value.value <= q)
  {
    PurgeKeepsHeld(s, request.owner, request.name);
    hide PurgeName;
    forall q | 20000 <= q <= 20099 ensures ElectrumFree(s, q) <==> q !in HeldElectrum(s) {
      if q in HeldElectrum(s) {
        var a :| LiveIn(s, a) && s.rows[a].electrum == Some(q);
      }
    }
    hide HeldElectrum, ElectrumFree;
    assert forall q :: ElectrumFree(s, q) ==> 20000 <= q <= 20099 by { ElectrumRange(s); }
  }

  lemma ElectrumRange(s: State)
    ensures forall q :: ElectrumFree(s, q) ==> 20000 <= q <= 20099
    ensures forall q :: ExplorerFree(s, q) ==> 20100 <= q <= 20199
  {
  }

  /** The same for the explorer, where the deployment gives explorers a port. */
  lemma ExplorerExactly(s: State, request: CreateRequest, explorerPorts: bool)
    ensures var r := ExplorerFor(PurgeName(s, request.owner, request.name), request, explorerPorts);
            && (r.Some? <==> !(request.explorer && explorerPorts) || exists q :: ExplorerFree(s, q))
            && (r.Some? ==> (r.value.Some? <==> request.explorer && explorerPorts))
            && (r.Some? && r.value.Some? ==>
                  ExplorerFree(s, r.value.value) && forall q :: ExplorerFree(s, q) ==> r.value.value <= q)
  {
    PurgeKeepsHeld(s, request.owner, request.name);
    hide PurgeName;
    forall q | 20100 <= q <= 20199 ensures ExplorerFree(s, q) <==> q !in HeldExplorer(s) {
      if q in HeldExplorer(s) {
        var a :| LiveIn(s, a) && s.rows[a].explorer == Some(q);
      }
    }
    hide HeldExplorer, ExplorerFree;
    assert forall q :: ExplorerFree(s, q) ==> 20100 <= q <= 20199 by { ElectrumRange(s); }
  }

  /** An aligned start whose three ports no live instance's triple touches. */
  ghost predicate TripleClear(s: State, p: int) {
    && 20200 <= p <= 20397 && p % 3 == 0
    && forall a, n :: HasInstance(s, a, n) ==> PortOf(s, a, n) + 2 < p || p + 2 < PortOf(s, a, n)
  }

  ghost function ClearTriples(s: State): set<int> { set p | 20200 <= p <= 20397 && TripleClear(s, p) }

  lemma HeldBySomeone(s: State, q: int)
    requires q in HeldStarts(s)
    ensures exists a, n :: HasInstance(s, a, n) && PortOf(s, a, n) == q
  {
    var a, n :| LiveIn(s, a) && n in s.rows[a].instances && q == s.rows[a].instances[n];
    assert HasInstance(s, a, n) && PortOf(s, a, n) == q;
  }

  lemma ClearIsFree(s: State, p: int)
    ensures TripleClear(s, p) <==> FreeStart(LIGHTNING_PORT_BASE, LIGHTNING_PORT_MAX, HeldLightning(s), p)
  {
    forall q ensures q in HeldLightning(s) <==> q in HeldStarts(s) || q - 1 in HeldStarts(s) || q - 2 in HeldStarts(s) {
      InSpread(HeldStarts(s), q);
    }
    hide Spread, HeldLightning;
    if TripleClear(s, p) {
      forall q | p - 2 <= q <= p + 2 ensures q !in HeldStarts(s) {
        if q in HeldStarts(s) { HeldBySomeone(s, q); }
      }
    }
    forall a, n | HasInstance(s, a, n) ensures PortOf(s, a, n) in HeldStarts(s) {
      HeldStart(s, a, n);
    }
  }

  /** The pool the allocator draws from: every clear triple, ascending. */
  lemma PoolIsClear(s: State)
    ensures Ascending(FreeLightning(s)) && Elements(FreeLightning(s)) == ClearTriples(s)
    ensures |FreeLightning(s)| == |ClearTriples(s)|
  {
    FreeStartsExact(LIGHTNING_PORT_BASE, LIGHTNING_PORT_MAX, HeldLightning(s));
    forall p ensures TripleClear(s, p) <==> FreeStart(LIGHTNING_PORT_BASE, LIGHTNING_PORT_MAX, HeldLightning(s), p) {
      ClearIsFree(s, p);
    }
    hide TripleClear, FreeStart, FreeStarts, HeldLightning;
    var free := FreeLightning(s);
    assert forall p :: p in free <==> TripleClear(s, p);
    assert forall p :: TripleClear(s, p) ==> 20200 <= p <= 20397 by { ClearRange(s); }
    assert Elements(free) == ClearTriples(s);
    DistinctCount(free);
  }

  lemma ClearRange(s: State)
    ensures forall p :: TripleClear(s, p) ==> 20200 <= p <= 20397
  {
  }

  /** The names of a list that are new get the least clear triples, in the
      order of the list. */
  ghost predicate TakesFirst(s: State, instances: seq<Instance>, before: map<string, int>, after: map<string, int>) {
    && (forall i :: IsNewAt(instances, before, i) ==>
          instances[i].name in after && TripleClear(s, after[instances[i].name]))
    && (forall i, j :: IsNewAt(instances, before, i) && IsNewAt(instances, before, j) && i < j ==>
          after[instances[i].name] < after[instances[j].name])
    && (forall p, i :: TripleClear(s, p) && IsNewAt(instances, before, i) && p < after[instances[i].name] ==>
          exists j :: IsNewAt(instances, before, j) && j < i && after[instances[j].name] == p)
  }

  ghost predicate IsNewAt(instances: seq<Instance>, before: map<string, int>, i: int) {
    0 <= i < |instances| && instances[i].name !in before
  }

  // ---- creating

  /** Nothing refuses the create before its row is inserted: readable versions,
      a lifetime that is positive and ends within the calendar, a name no live
      row of the owner has, a proper instance list, and a free port for each
      pool that is asked. */
  ghost predicate Admitted(s: State, e: Event)
    requires e.Create?
  {
    var request := e.request;
    && request.imagesResolve
    && (request.ttl.Some? ==>
          0 < request.ttl.value <= 9_223_372_036_854_775 && e.now + request.ttl.value * 1_000_000_000 <= e.latest)
    && (forall a :: LiveIn(s, a) ==> !(s.rows[a].owner == request.owner && s.rows[a].name == request.name))
    && ProperList(request.lightning)
    && (request.indexer || request.explorer ==> exists q :: ElectrumFree(s, q))
    && (request.explorer && e.explorerPorts ==> exists q :: ExplorerFree(s, q))
  }

  /** The create inserts its row, finds its triples and asks the cluster. */
  ghost predicate ReachesCluster(s: State, e: Event)
    requires e.Create?
  {
    Admitted(s, e) && |e.request.lightning| <= |ClearTriples(s)|
  }

  /** These are exactly the conditions under which the handler's own checks pass. */
  lemma AdmittedExactly(s: State, e: Event)
    requires e.Create?
    ensures var s1 := PurgeName(s, e.request.owner, e.request.name);
            Admitted(s, e) <==>
              && e.request.imagesResolve && ResolveExpiresAt(e.request.ttl, e.now, e.latest).Ok?
              && ValidInstances(e.request.lightning) && !NameLive(s, e.request.owner, e.request.name)
              && ElectrumFor(s1, e.request).Some? && ExplorerFor(s1, e.request, e.explorerPorts).Some?
  {
    ElectrumExactly(s, e.request);
    ExplorerExactly(s, e.request, e.explorerPorts);
    ValidIsProper(e.request.lightning);
    hide PurgeName, ElectrumFor, ExplorerFor, ElectrumFree, ExplorerFree, ValidInstances, ProperList;
  }
}
