/** How a create ends: refused, waiting for a short lightning pool, failed in
    the cluster, or provisioning as requested. */
module Creation {
  import opened Prelude
  import opened Ttl
  import opened Registry
  import opened Invariants
  import opened Runs
  import opened LifecycleTheorems
  import opened Admission
  import opened Updates

  // ---- the ways a create can end

  lemma PurgeDropsOnly(s: State, owner: string, name: string)
    ensures var s' := PurgeName(s, owner, name);
            s'.rows.Keys <= s.rows.Keys && s'.namespaces == s.namespaces && s'.issued == s.issued
  {
  }

  lemma CreateReachesFinish(s: State, e: Event, s1: State, row: Row)
    requires e.Create? && e.request.imagesResolve && ResolveExpiresAt(e.request.ttl, e.now, e.latest).Ok?
    requires ValidInstances(e.request.lightning) && !NameLive(s, e.request.owner, e.request.name)
    requires s1 == PurgeName(s, e.request.owner, e.request.name)
    requires ElectrumFor(s1, e.request).Some? && ExplorerFor(s1, e.request, e.explorerPorts).Some?
    requires row == NewRow(e.request, ElectrumFor(s1, e.request).value, ExplorerFor(s1, e.request, e.explorerPorts).value,
                           ResolveExpiresAt(e.request.ttl, e.now, e.latest).value)
    ensures CreateSpec(s, e) == FinishCreate(InsertRow(s1, e.id, row), e)
    ensures LiveIn(InsertRow(s1, e.id, row), e.id) && InsertRow(s1, e.id, row).rows[e.id] == row
  {
    hide FinishCreate, PurgeName, ElectrumFor, ExplorerFor, ResolveExpiresAt;
  }

  lemma EmptyRowHoldsNothing(s: State, id: Uuid, row: Row)
    requires id !in s.rows && row.instances == map[]
    ensures FreeLightning(InsertRow(s, id, row)) == FreeLightning(s)
  {
    var s' := InsertRow(s, id, row);
    forall p | p in HeldStarts(s') ensures p in HeldStarts(s) {
      var a, n :| a in s'.rows && IsLive(s'.rows[a].status) && n in s'.rows[a].instances && p == s'.rows[a].instances[n];
      assert a != id;
    }
    forall p | p in HeldStarts(s) ensures p in HeldStarts(s') {
      var a, n :| a in s.rows && IsLive(s.rows[a].status) && n in s.rows[a].instances && p == s.rows[a].instances[n];
      assert s'.rows[a] == s.rows[a];
    }
    assert HeldStarts(s') == HeldStarts(s);
  }

  /** When provisioning fails the row is dead, and the namespace is left over
      only if it had been made and its teardown failed. */
  lemma FailedCreateIsDead(s: State, e: Event)
    requires e.Create? && !e.provision.Provisioned? && LiveIn(s, e.id) && !HasNamespace(s, e.id)
    requires |e.request.lightning| <= |FreeLightning(s)| && Distinct(Names(e.request.lightning))
    ensures FinishCreate(s, e).rows == s.rows[e.id := s.rows[e.id].(status := Destroyed)]
    ensures HasNamespace(FinishCreate(s, e), e.id) <==> e.provision.FailedAfterNamespace? && !e.tornDown
  {
    hide FreeLightning;
  }

  /** The row an admitted create inserts. */
  ghost function RowOf(s: State, e: Event): Row
    requires e.Create? && Admitted(s, e)
  {
    AdmittedExactly(s, e);
    var s1 := PurgeName(s, e.request.owner, e.request.name);
    NewRow(e.request, ElectrumFor(s1, e.request).value, ExplorerFor(s1, e.request, e.explorerPorts).value,
           ResolveExpiresAt(e.request.ttl, e.now, e.latest).value)
  }

  /** The state in which an admitted create turns to the lightning pool. */
  ghost function Inserted(s: State, e: Event): State
    requires e.Create? && Admitted(s, e)
  {
    InsertRow(PurgeName(s, e.request.owner, e.request.name), e.id, RowOf(s, e))
  }

  lemma PurgeKeepsLightning(s: State, owner: string, name: string)
    ensures FreeLightning(PurgeName(s, owner, name)) == FreeLightning(s)
  {
    var s' := PurgeName(s, owner, name);
    assert forall a :: LiveIn(s, a) <==> LiveIn(s', a);
    assert forall a :: LiveIn(s, a) ==> s'.rows[a] == s.rows[a];
    forall p | p in HeldStarts(s) ensures p in HeldStarts(s') {
      var a, n :| LiveIn(s, a) && n in s.rows[a].instances && p == s.rows[a].instances[n];
      assert LiveIn(s', a);
    }
    assert HeldStarts(s') == HeldStarts(s);
  }

  lemma InsertedKeepsLightning(s: State, e: Event)
    requires e.Create? && Admitted(s, e) && e.id !in s.rows
    ensures FreeLightning(Inserted(s, e)) == FreeLightning(s)
  {
    PurgeKeepsLightning(s, e.request.owner, e.request.name);
    EmptyRowHoldsNothing(PurgeName(s, e.request.owner, e.request.name), e.id, RowOf(s, e));
    hide FreeLightning, Admitted;
  }

  /** A create is refused with at most a dead record dropped, or leaves its row
      without asking the cluster, or ends as provisioning ends. */
  lemma CreateCases(s: State, e: Event)
    requires e.Create? && e.id !in s.rows
    ensures ReachesCluster(s, e) ==> Distinct(Names(e.request.lightning)) && |e.request.lightning| <= |FreeLightning(s)|
    ensures !Admitted(s, e) ==> CreateSpec(s, e) == s || CreateSpec(s, e) == PurgeName(s, e.request.owner, e.request.name)
    ensures Admitted(s, e) && !ReachesCluster(s, e) ==> CreateSpec(s, e) == Inserted(s, e)
    ensures ReachesCluster(s, e) ==>
      var (s', ok) := ProvisionStep(Inserted(s, e), e.id, Namespace(true, RowOf(s, e).expiresAt), e.provision, e.tornDown);
      CreateSpec(s, e) == if ok then SetInstances(s', e.id, Zip(Names(e.request.lightning), FreeLightning(s))) else s'
  {
    AdmittedExactly(s, e);
    PoolIsClear(s);
    ValidIsProper(e.request.lightning);
    if Admitted(s, e) {
      InsertedKeepsLightning(s, e);
      CreateReachesFinish(s, e, PurgeName(s, e.request.owner, e.request.name), RowOf(s, e));
    }
    hide FreeLightning, ClearTriples, ProperList, Zip, PurgeName, ElectrumFor, ExplorerFor, ProvisionStep;
  }

  lemma ProvisionEffect(s: State, id: Uuid, ns: Namespace, provision: Provision, tornDown: bool)
    requires LiveIn(s, id) && !HasNamespace(s, id)
    ensures var (s', ok) := ProvisionStep(s, id, ns, provision, tornDown);
            var own := NamespaceFor(ShortId(id));
            && (ok <==> provision.Provisioned?) && (LiveIn(s', id) <==> ok) && id in s'.rows
            && s'.issued == s.issued && s'.namespaces - {own} == s.namespaces
            && (own in s'.namespaces <==> provision.Provisioned? || (provision.FailedAfterNamespace? && !tornDown))
  {
    hide ShortId;
  }

  /** What a create does to the namespaces, and to its own environment. */
  lemma CreateEffect(s: State, e: Event)
    requires e.Create? && e.id !in s.rows && e.id !in s.issued && !HasNamespace(s, e.id)
    ensures var s', own := CreateSpec(s, e), NamespaceFor(ShortId(e.id));
            && s'.namespaces - {own} == s.namespaces && s'.issued - {e.id} == s.issued
            && (own in s'.namespaces <==>
                  ReachesCluster(s, e) && (e.provision.Provisioned? || (e.provision.FailedAfterNamespace? && !e.tornDown)))
            && (e.id in s'.issued <==> Admitted(s, e))
            && (LiveIn(s', e.id) <==> Admitted(s, e) && (ReachesCluster(s, e) ==> e.provision.Provisioned?))
  {
    CreateCases(s, e);
    PurgeDropsOnly(s, e.request.owner, e.request.name);
    if Admitted(s, e) {
      assert LiveIn(Inserted(s, e), e.id) && !HasNamespace(Inserted(s, e), e.id);
      assert Inserted(s, e).issued == s.issued + {e.id} && Inserted(s, e).namespaces == s.namespaces;
      ProvisionEffect(Inserted(s, e), e.id, Namespace(true, RowOf(s, e).expiresAt), e.provision, e.tornDown);
    }
    assert ReachesCluster(s, e) ==> Admitted(s, e);
    hide FreeLightning, Zip, PurgeName, CreateSpec, ProvisionStep, Admitted, Inserted, RowOf, ShortId, ReachesCluster;
  }

  // ---- what a create does, from the request alone

  /** The row of an admitted create: as requested, with the least free port of
      each pool it asks, and an expiry of exactly now plus the lifetime. */
  ghost predicate AsRequested(s: State, e: Event, row: Row)
    requires e.Create?
  {
    var request := e.request;
    && row.owner == request.owner && row.name == request.name
    && (row.electrum.Some? <==> request.indexer || request.explorer)
    && (row.electrum.Some? ==>
          ElectrumFree(s, row.electrum.value) && forall q :: ElectrumFree(s, q) ==> row.electrum.value <= q)
    && (row.explorer.Some? <==> request.explorer && e.explorerPorts)
    && (row.explorer.Some? ==>
          ExplorerFree(s, row.explorer.value) && forall q :: ExplorerFree(s, q) ==> row.explorer.value <= q)
    && row.expiresAt == (if request.ttl.None? then None else Some(e.now + request.ttl.value * 1_000_000_000))
  }

  lemma RowIsAsRequested(s: State, e: Event)
    requires e.Create? && Admitted(s, e)
    ensures AsRequested(s, e, RowOf(s, e)) && RowOf(s, e).status == Provisioning && RowOf(s, e).instances == map[]
  {
    AdmittedExactly(s, e);
    ElectrumExactly(s, e.request);
    ExplorerExactly(s, e.request, e.explorerPorts);
    hide Admitted, ElectrumFor, ExplorerFor, ElectrumFree, ExplorerFree, PurgeName;
  }

  /** When a create goes through, its environment is provisioning in its own
      namespace, with the requested instances on the least clear triples in the
      order of the request. */
  lemma CreateDelivers(s: State, e: Event)
    requires Inv(s) && e.Create? && Enabled(s, e) && ReachesCluster(s, e) && e.provision.Provisioned?
    ensures var s' := CreateSpec(s, e);
            && e.id in s'.rows && s'.rows[e.id].status == Provisioning && AsRequested(s, e, s'.rows[e.id])
            && s'.rows[e.id].instances.Keys == Requested(e.request.lightning)
            && TakesFirst(s, e.request.lightning, map[], s'.rows[e.id].instances)
            && s'.namespaces == s.namespaces["env-" + e.id[..12] := Namespace(true, s'.rows[e.id].expiresAt)]
  {
    FreshIdUnused(s, e.id);
    hide Inv, Enabled, FreshId;
    CreateCases(s, e);
    RowIsAsRequested(s, e);
    PurgeDropsOnly(s, e.request.owner, e.request.name);
    var names, free := Names(e.request.lightning), FreeLightning(s);
    assert CreateSpec(s, e).rows[e.id] == RowOf(s, e).(instances := Zip(names, free));
    AllNames(s, e.request.lightning);
    AllTakeFirst(s, e.request.lightning);
    hide *;
    AsRequestedIgnoresInstances(s, e, RowOf(s, e), Zip(names, free));
  }

  lemma AsRequestedIgnoresInstances(s: State, e: Event, row: Row, instances: map<string, int>)
    requires e.Create? && AsRequested(s, e, row)
    ensures AsRequested(s, e, row.(instances := instances))
  {
  }

  lemma AllNames(s: State, lightning: seq<Instance>)
    requires Distinct(Names(lightning)) && |lightning| <= |FreeLightning(s)|
    ensures Zip(Names(lightning), FreeLightning(s)).Keys == Requested(lightning)
  {
    ZipPorts(Names(lightning), FreeLightning(s));
    RequestedAreNames(lightning);
    hide FreeLightning, Zip, Requested;
  }

  lemma Identity(n: nat) returns (at: seq<nat>)
    ensures |at| == n && Ascending(at)
    ensures forall i :: 0 <= i < n ==> at[i] == i
    ensures forall i :: 0 <= i < n <==> i in at
  {
    at := seq(n, i => i);
    forall i ensures 0 <= i < n <==> i in at {
      if 0 <= i < n { assert at[i] == i; }
    }
  }

  lemma AllTakeFirst(s: State, lightning: seq<Instance>)
    requires Distinct(Names(lightning)) && |lightning| <= |FreeLightning(s)|
    ensures TakesFirst(s, lightning, map[], Zip(Names(lightning), FreeLightning(s)))
  {
    var free, after := FreeLightning(s), Zip(Names(lightning), FreeLightning(s));
    ZipPorts(Names(lightning), free);
    PoolIsClear(s);
    assert forall p :: p in ClearTriples(s) <==> TripleClear(s, p) by { ClearRange(s); }
    hide FreeLightning, Zip, TripleClear, ClearTriples;
    assert forall p :: p in free <==> p in Elements(free);
    var at := Identity(|lightning|);
    forall k | 0 <= k < |at| ensures OnPort(s, lightning, after, at[k], free[k]) {
      assert Names(lightning)[k] == lightning[k].name && free[k] in free;
    }
    assert forall i :: IsNewAt(lightning, map[], i) <==> i in at;
    TakesInOrder(s, lightning, map[], after, at, free);
  }

  /** When only the lightning pool is short, the create leaves a provisioning
      row that has no namespace: not every live row has one. */
  lemma ShortPoolLeavesOrphan(s: State, e: Event)
    requires Inv(s) && e.Create? && Enabled(s, e)
    requires Admitted(s, e) && |e.request.lightning| > |ClearTriples(s)|
    ensures var s' := CreateSpec(s, e);
            && e.id in s'.rows && s'.rows[e.id].status == Provisioning && s'.rows[e.id].instances == map[]
            && AsRequested(s, e, s'.rows[e.id])
            && s'.namespaces == s.namespaces && !HasNamespace(s', e.id)
  {
    FreshIdUnused(s, e.id);
    hide Inv, Enabled, FreshId;
    CreateCases(s, e);
    RowIsAsRequested(s, e);
    PurgeDropsOnly(s, e.request.owner, e.request.name);
    hide Admitted, RowOf, PurgeName, AsRequested;
  }

  /** A create inserts a row exactly when it is admitted, and drops exactly the
      dead record of its name, once versions and lifetime are accepted and no
      live row has the name. Every other row stays as it is. */
  lemma CreateRows(s: State, e: Event, a: Uuid)
    requires Inv(s) && e.Create? && Enabled(s, e)
    ensures e.id in CreateSpec(s, e).rows <==> Admitted(s, e)
    ensures a in CreateSpec(s, e).rows && a != e.id ==> a in s.rows && CreateSpec(s, e).rows[a] == s.rows[a]
    ensures a in s.rows && a !in CreateSpec(s, e).rows <==>
      && a in s.rows && s.rows[a].owner == e.request.owner && s.rows[a].name == e.request.name
      && (s.rows[a].status == Expired || s.rows[a].status == Destroyed)
      && e.request.imagesResolve
      && (e.request.ttl.Some? ==>
            0 < e.request.ttl.value <= 9_223_372_036_854_775 && e.now + e.request.ttl.value * 1_000_000_000 <= e.latest)
      && forall b :: LiveIn(s, b) ==> !(s.rows[b].owner == e.request.owner && s.rows[b].name == e.request.name)
  {
    FreshIdUnused(s, e.id);
    hide Inv, Enabled, FreshId;
    CreateCases(s, e);
    CreateEffect(s, e);
    PurgeDropsOnly(s, e.request.owner, e.request.name);
    if a != e.id {
      CreateTouches(s, e, a);
    }
    if a != e.id && a in s.rows {
      DropsExactly(s, e, a);
    }
    hide CreateSpec, Admitted, ReachesCluster;
  }

  lemma DropsExactly(s: State, e: Event, a: Uuid)
    requires e.Create? && a != e.id && a in s.rows
    ensures a !in CreateSpec(s, e).rows <==>
      && s.rows[a].owner == e.request.owner && s.rows[a].name == e.request.name && !LiveIn(s, a)
      && e.request.imagesResolve && ResolveExpiresAt(e.request.ttl, e.now, e.latest).Ok?
      && !NameLive(s, e.request.owner, e.request.name)
  {
    hide ElectrumFor, ExplorerFor, ValidInstances, ResolveExpiresAt, NameLive, FinishCreate;
    var s1 := PurgeName(s, e.request.owner, e.request.name);
    forall row { FinishTouches(InsertRow(s1, e.id, row), e, a); }
  }
}
