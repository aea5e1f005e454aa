/** Whole runs of the platform: what holds in every reachable state and between
    any two states of a run. */
module Runs {
  import opened Prelude
  import opened PortPool
  import opened Ttl
  import opened Registry
  import opened Invariants

  /** Events the platform can meet: a created id is fresh, and outsiders do not
      create namespaces that pass for an environment's. */
  ghost predicate Enabled(s: State, e: Event) {
    match e
    case Create(id, _, _, _, _, _, _) => FreshId(s, id)
    case NamespaceAppears(name, _) => forall id :: id in s.issued ==> TrimEnv(name) != ShortId(id)
    case _ => true
  }

  // ---- one step

  lemma ReconcileInv(s: State, id: Uuid, checked: bool)
    requires Inv(s)
    ensures Inv(Reconcile(s, id, checked))
  {
    SetStatusInv(s, id, Expired);
  }

  lemma ProvisionInv(s: State, id: Uuid, ns: Namespace, provision: Provision, tornDown: bool)
    requires Inv(s) && LiveIn(s, id) && !HasNamespace(s, id) && ns == Namespace(true, s.rows[id].expiresAt)
    ensures Inv(ProvisionStep(s, id, ns, provision, tornDown).0)
    ensures ProvisionStep(s, id, ns, provision, tornDown).1 ==>
      ProvisionStep(s, id, ns, provision, tornDown).0 == AddNamespace(s, id, ns)
  {
    if provision.FailedBeforeNamespace? {
      var s' := if tornDown then DropNamespace(s, id) else s;
      FewerNamespacesInv(s, s');
      SetStatusInv(s', id, Destroyed);
    } else {
      var made := AddNamespace(s, id, ns);
      AddNamespaceInv(s, id, ns);
      if provision.FailedAfterNamespace? {
        var s' := if tornDown then DropNamespace(made, id) else made;
        FewerNamespacesInv(made, s');
        SetStatusInv(s', id, Destroyed);
      }
    }
  }

  lemma AddNamespaceInv(s: State, id: Uuid, ns: Namespace)
    requires Inv(s) && LiveIn(s, id) && !HasNamespace(s, id) && ns == Namespace(true, s.rows[id].expiresAt)
    ensures Inv(AddNamespace(s, id, ns))
  {
    var s' := AddNamespace(s, id, ns);
    assert forall a :: LiveIn(s', a) == LiveIn(s, a);
    assert forall a, n :: HasInstance(s', a, n) == HasInstance(s, a, n);
    assert ElectrumOk(s') && ExplorerOk(s') && LightningOk(s') && NamesUnique(s') && IdsOk(s');
    forall a, name | a in s'.issued && name in s'.namespaces && TrimEnv(name) == ShortId(a)
      ensures name == NamespaceFor(ShortId(a))
    {
      ShortIdIsHex(id);
    }
    forall a | LiveIn(s', a) && HasNamespace(s', a)
      ensures s'.namespaces[NamespaceFor(ShortId(a))] == Namespace(true, s'.rows[a].expiresAt)
    {
      SameNamespace(a, id);
      assert a in s.issued && id in s.issued;
    }
  }

  lemma SameNamespace(a: Uuid, b: Uuid)
    ensures NamespaceFor(ShortId(a)) == NamespaceFor(ShortId(b)) ==> ShortId(a) == ShortId(b)
  {
    ShortIdIsHex(a);
    ShortIdIsHex(b);
  }

  lemma NoNameAfterPurge(s: State, owner: string, name: string)
    requires !NameLive(s, owner, name)
    ensures forall a :: a in PurgeName(s, owner, name).rows ==> !Named(PurgeName(s, owner, name).rows[a], owner, name)
  {
  }

  lemma CreateInv(s: State, e: Event)
    requires Inv(s) && e.Create? && Enabled(s, e)
    ensures Inv(CreateSpec(s, e))
  {
    hide Inv, FinishCreate, InsertRow, PurgeName, Lowest, HeldElectrum, HeldExplorer;
    var request := e.request;
    var expiry := ResolveExpiresAt(request.ttl, e.now, e.latest);
    if request.imagesResolve && expiry.Ok? && !NameLive(s, request.owner, request.name) {
      var s1 := PurgeName(s, request.owner, request.name);
      PurgeNameInv(s, e);
      var explorer, electrum := ExplorerFor(s1, request, e.explorerPorts), ElectrumFor(s1, request);
      if ValidInstances(request.lightning) && explorer.Some? && electrum.Some? {
        InsertThenFinish(s1, e, NewRow(request, electrum.value, explorer.value, expiry.value));
      }
    }
  }

  lemma PurgeNameInv(s: State, e: Event)
    requires Inv(s) && e.Create? && Enabled(s, e) && !NameLive(s, e.request.owner, e.request.name)
    ensures var s1 := PurgeName(s, e.request.owner, e.request.name);
            Inv(s1) && Enabled(s1, e)
            && forall a :: a in s1.rows ==> !Named(s1.rows[a], e.request.owner, e.request.name)
  {
    ShrinkInv(s, PurgeName(s, e.request.owner, e.request.name));
    NoNameAfterPurge(s, e.request.owner, e.request.name);
  }

  lemma InsertThenFinish(s: State, e: Event, row: Row)
    requires Inv(s) && e.Create? && Enabled(s, e) && row.instances == map[] && row.status == Provisioning
    requires row.owner == e.request.owner && row.name == e.request.name
    requires forall a :: a in s.rows ==> !Named(s.rows[a], row.owner, row.name)
    requires row.electrum.Some? ==>
      row.electrum == Lowest(ELECTRUM_PORT_BASE, ELECTRUM_PORT_MAX, HeldElectrum(s))
    requires row.explorer.Some? ==>
      row.explorer == Lowest(EXPLORER_PORT_BASE, EXPLORER_PORT_MAX, HeldExplorer(s))
    ensures Inv(FinishCreate(InsertRow(s, e.id, row), e))
  {
    hide Inv, FinishCreate;
    InsertInv(s, e.id, row);
    FinishInv(InsertRow(s, e.id, row), e);
  }

  lemma FinishInv(s: State, e: Event)
    requires e.Create? && Inv(s) && LiveIn(s, e.id) && !HasNamespace(s, e.id) && s.rows[e.id].instances == map[]
    ensures Inv(FinishCreate(s, e))
  {
    hide Inv, FreeLightning, Zip;
    var names, ports := Names(e.request.lightning), FreeLightning(s);
    if |e.request.lightning| <= |ports| && Distinct(names) {
      var ns := Namespace(true, s.rows[e.id].expiresAt);
      ProvisionInv(s, e.id, ns, e.provision, e.tornDown);
      if ProvisionStep(s, e.id, ns, e.provision, e.tornDown).1 {
        RecordInv(s, AddNamespace(s, e.id, ns), e.id, names);
      }
    }
  }

  lemma RecordInv(s: State, s': State, id: Uuid, names: seq<string>)
    requires Inv(s') && s'.rows == s.rows && id in s.rows && s.rows[id].instances == map[]
    requires Distinct(names) && |names| <= |FreeLightning(s)|
    ensures Inv(SetInstances(s', id, Zip(names, FreeLightning(s))))
  {
    hide Inv, FreeLightning, Zip;
    SameRowsSamePorts(s, s');
    AddInstancesInv(s', id, names);
    assert map[] + Zip(names, FreeLightning(s)) == Zip(names, FreeLightning(s));
  }

  lemma SameRowsSamePorts(s: State, s': State)
    requires s.rows == s'.rows
    ensures FreeLightning(s) == FreeLightning(s')
  {
    assert HeldStarts(s) == HeldStarts(s');
  }

  lemma UpdateInv(s: State, e: Event)
    requires Inv(s) && e.Update?
    ensures Inv(UpdateSpec(s, e))
  {
    var s1 := Reconcile(s, e.id, e.checked);
    ReconcileInv(s, e.id, e.checked);
    if e.id in s1.rows && s1.rows[e.id].status.Ready? && UpdatedInstances(s1, e.id, e).Some? {
      var additions := Additions(s1.rows[e.id], e.lightning);
      AdditionsAre(s1.rows[e.id], e.lightning);
      AddInstancesInv(s1, e.id, Names(additions));
    }
  }

  lemma ReapInv(s: State, e: Event)
    requires Inv(s) && e.Reap?
    ensures Inv(ReapSpec(s, e))
  {
    var gone := Reaped(s, e.now, e.failedDeletes);
    var s1 := s.(namespaces := s.namespaces - gone);
    FewerNamespacesInv(s, s1);
    ShrinkInv(s1, ReapSpec(s, e));
  }

  lemma AppearInv(s: State, name: string, ns: Namespace)
    requires Inv(s) && forall id :: id in s.issued ==> TrimEnv(name) != ShortId(id)
    ensures Inv(s.(namespaces := s.namespaces[name := ns]))
  {
    var s' := s.(namespaces := s.namespaces[name := ns]);
    assert forall a :: LiveIn(s', a) == LiveIn(s, a);
    assert forall a, n :: HasInstance(s', a, n) == HasInstance(s, a, n);
    assert ElectrumOk(s') && ExplorerOk(s') && LightningOk(s') && NamesUnique(s') && IdsOk(s');
    forall a | LiveIn(s', a) && HasNamespace(s', a)
      ensures s'.namespaces[NamespaceFor(ShortId(a))] == Namespace(true, s'.rows[a].expiresAt)
    {
      ShortIdIsHex(a);
      assert a in s.issued;
    }
  }

  lemma GetInv(s: State, e: Event)
    requires Inv(s) && e.Get?
    ensures Inv(GetSpec(s, e))
  {
    hide Inv;
    ReconcileInv(s, e.id, e.checked);
    var s1 := Reconcile(s, e.id, e.checked);
    if GetSpec(s, e) != s1 {
      SetStatusInv(s1, e.id, Ready);
    }
  }

  lemma TransitionInv(s: State, e: Event)
    requires Inv(s) && e.Transition?
    ensures Inv(TransitionSpec(s, e))
  {
    hide Inv;
    ReconcileInv(s, e.id, e.checked);
    var s1 := Reconcile(s, e.id, e.checked);
    if TransitionSpec(s, e) != s1 {
      SetStatusInv(s1, e.id, ResultStatus(e.kind));
    }
  }

  lemma DestroyInv(s: State, e: Event)
    requires Inv(s) && e.Destroy?
    ensures Inv(DestroySpec(s, e))
  {
    hide Inv;
    FewerNamespacesInv(s, DropNamespace(s, e.id));
    SetStatusInv(DropNamespace(s, e.id), e.id, Destroyed);
  }

  /** Every event keeps the invariant. */
  lemma StepInv(s: State, e: Event)
    requires Inv(s) && Enabled(s, e)
    ensures Inv(Apply(s, e))
  {
    hide Inv, CreateSpec, GetSpec, UpdateSpec, TransitionSpec, DestroySpec, ReapSpec;
    match e
    case Create(_, _, _, _, _, _, _) => CreateInv(s, e);
    case Get(_, _, _) => GetInv(s, e);
    case Update(_, _, _, _, _) => UpdateInv(s, e);
    case Transition(_, _, _, _) => TransitionInv(s, e);
    case Destroy(_, _) => DestroyInv(s, e);
    case Delete(id) => ShrinkInv(s, Purge(s, id));
    case Reap(_, _, _) => ReapInv(s, e);
    case NamespaceGone(name) => FewerNamespacesInv(s, s.(namespaces := s.namespaces - {name}));
    case NamespaceAppears(name, ns) => AppearInv(s, name, ns);
  }

  /** A run: states from the empty platform on, each the effect of an enabled event. */
  ghost predicate IsRun(states: seq<State>, events: seq<Event>) {
    && |states| == |events| + 1 && states[0] == INITIAL
    && forall i :: 0 <= i < |events| ==> Enabled(states[i], events[i]) && states[i + 1] == Apply(states[i], events[i])
  }

  /** The invariant holds in every state of every run. */
  lemma {:induction false} RunInv(states: seq<State>, events: seq<Event>, i: nat)
    requires IsRun(states, events) && i < |states|
    ensures Inv(states[i])
  {
    if i > 0 {
      RunInv(states, events, i - 1);
      StepInv(states[i - 1], events[i - 1]);
    }
  }

  // ---- ports

  /** All host ports an environment's row claims. */
  function PortsOf(row: Row): set<int> {
    (if row.electrum.Some? then {row.electrum.value} else {})
    + (if row.explorer.Some? then {row.explorer.value} else {})
    + (set n | n in row.instances :: row.instances[n])
    + (set n | n in row.instances :: row.instances[n] + 1)
    + (set n | n in row.instances :: row.instances[n] + 2)
  }

  /** In every reachable state live environments claim disjoint ports inside the
      published window, and inside one environment the electrum port, the
      explorer port and the triples do not overlap. */
  lemma LivePortsDisjoint(s: State)
    requires Inv(s)
    ensures forall a, b :: LiveIn(s, a) && LiveIn(s, b) && a != b ==> PortsOf(s.rows[a]) !! PortsOf(s.rows[b])
    ensures forall a, p :: LiveIn(s, a) && p in PortsOf(s.rows[a]) ==> 20000 <= p <= 20399
    ensures forall a, n, m :: HasInstance(s, a, n) && HasInstance(s, a, m) && n != m ==>
      Triple(PortOf(s, a, n)) !! Triple(PortOf(s, a, m))
    ensures forall a, n :: HasInstance(s, a, n) ==>
      && (s.rows[a].electrum.Some? ==> s.rows[a].electrum.value !in Triple(PortOf(s, a, n)))
      && (s.rows[a].explorer.Some? ==> s.rows[a].explorer.value !in Triple(PortOf(s, a, n)))
    ensures forall a :: LiveIn(s, a) && s.rows[a].electrum.Some? ==> s.rows[a].electrum != s.rows[a].explorer
  {
    forall a, b | LiveIn(s, a) && LiveIn(s, b) && a != b ensures PortsOf(s.rows[a]) !! PortsOf(s.rows[b]) {
      forall p | p in PortsOf(s.rows[a]) && p in PortsOf(s.rows[b]) ensures false {
        PortHolder(s, a, p);
        PortHolder(s, b, p);
      }
    }
    forall a, p | LiveIn(s, a) && p in PortsOf(s.rows[a]) ensures 20000 <= p <= 20399 {
      PortHolder(s, a, p);
    }
  }

  /** A port of a live row is its electrum port, its explorer port or in one of
      its triples, and its range tells which. */
  lemma PortHolder(s: State, a: Uuid, p: int)
    requires Inv(s) && LiveIn(s, a) && p in PortsOf(s.rows[a])
    ensures 20000 <= p <= 20399
    ensures p <= ELECTRUM_PORT_MAX ==> s.rows[a].electrum == Some(p)
    ensures EXPLORER_PORT_BASE <= p <= EXPLORER_PORT_MAX ==> s.rows[a].explorer == Some(p)
    ensures LIGHTNING_PORT_BASE <= p ==> exists n :: HasInstance(s, a, n) && PortOf(s, a, n) == p - p % 3
  {
    if s.rows[a].electrum != Some(p) && s.rows[a].explorer != Some(p) {
      var n :| n in s.rows[a].instances && s.rows[a].instances[n] <= p <= s.rows[a].instances[n] + 2;
      assert HasInstance(s, a, n) && PortOf(s, a, n) == p - p % 3;
    }
  }
}
