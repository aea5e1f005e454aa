/** The request handlers and the reaper as methods over database rows and
    cluster namespaces, each proved to have the effect its event describes. */
module Platform {
  import opened Prelude
  import opened PortPool
  import opened Ttl
  import opened Registry
  import opened Invariants
  import opened Runs
  import opened Admission
  import opened Creation
  import opened Updates

  /** Stands where a refused request acts on no row. */
  const NO_ROW: Uuid := "00000000000000000000000000000000"

  datatype Reference = ById(id: Uuid) | ByName(name: string)

  datatype Reply = Report(status: Status) | Accepted | Removed | InvalidParams | Forbidden | NotFound | ChainError | Internal

  datatype NameFault = NotDnsLabel(index: nat) | DuplicateName(index: nat) | Unsupported(index: nat)

  /** `validate_lightning`: accepts exactly the valid lists, and otherwise names
      the first offending instance. */
  method ValidateLightning(instances: seq<Instance>) returns (fault: Option<NameFault>)
    ensures fault.None? <==> ProperList(instances)
    ensures fault.None? <==> ValidInstances(instances)
    ensures fault.Some? ==>
      var i := fault.value.index;
      && i < |instances| && ProperList(instances[..i])
      && (fault.value.NotDnsLabel? <==> !IsLabel(instances[i].name))
      && (fault.value.DuplicateName? <==>
            IsLabel(instances[i].name) && exists j :: 0 <= j < i && instances[j].name == instances[i].name)
      && (fault.value.Unsupported? ==> instances[i].implementation != Lnd)
  {
    ValidIsProper(instances);
    var seen: set<string> := {};
    for i := 0 to |instances|
      invariant ValidInstances(instances[..i])
      invariant seen == Elements(Names(instances[..i]))
    {
      var name := instances[i].name;
      OneMore(instances, i);
      LabelExactly(name);
      ValidIsProper(instances[..i]);
      SeenBefore(instances, i);
      if !IsDnsLabel(name) {
        NotValid(instances, i);
        return Some(NotDnsLabel(i));
      }
      if name in seen {
        NotValid(instances, i);
        return Some(DuplicateName(i));
      }
      seen := seen + {name};
      if !instances[i].implementation.Lnd? {
        NotValid(instances, i);
        return Some(Unsupported(i));
      }
    }
    assert instances[..|instances|] == instances;
    return None;
  }

  lemma OneMore(instances: seq<Instance>, i: nat)
    requires i < |instances|
    ensures Names(instances[..i + 1]) == Names(instances[..i]) + [instances[i].name]
    ensures Elements(Names(instances[..i + 1])) == Elements(Names(instances[..i])) + {instances[i].name}
    ensures ValidInstances(instances[..i + 1]) <==>
      ValidInstances(instances[..i]) && IsDnsLabel(instances[i].name) && instances[i].implementation.Lnd?
      && instances[i].name !in Names(instances[..i])
  {
    var names := Names(instances[..i]);
    assert Names(instances[..i + 1]) == names + [instances[i].name];
    assert instances[..i + 1] == instances[..i] + [instances[i]];
    DistinctAppend(names, instances[i].name);
  }

  lemma SeenBefore(instances: seq<Instance>, i: nat)
    requires i < |instances|
    ensures instances[i].name in Names(instances[..i]) <==> exists j :: 0 <= j < i && instances[j].name == instances[i].name
  {
    var names := Names(instances[..i]);
    assert forall j :: 0 <= j < i ==> names[j] == instances[j].name;
  }

  lemma NotValid(instances: seq<Instance>, i: nat)
    requires i < |instances| && !ValidInstances(instances[..i + 1])
    ensures !ValidInstances(instances)
  {
    if ValidInstances(instances) {
      var front := instances[..i + 1];
      forall a, b | 0 <= a < b < |front| ensures Names(front)[a] != Names(front)[b] {
        assert Names(instances)[a] != Names(instances)[b];
      }
    }
  }

  /** What is listed is exactly the set, each member once, in some order. */
  method Listing<T(==)>(items: set<T>) returns (list: seq<T>)
    ensures Elements(list) == items && Distinct(list)
  {
    list := [];
    var left := items;
    while left != {}
      invariant left <= items && Elements(list) == items - left && Distinct(list)
      decreases |left|
    {
      var x :| x in left;
      assert x !in Elements(list);
      DistinctAppend(list, x);
      ElementsAppend(list, x);
      list := list + [x];
      left := left - {x};
    }
  }

  lemma MarkNothing(rows: map<Uuid, Row>)
    ensures Marked(rows, {}) == rows
  {
  }

  lemma MarkedByMore(marks: set<string>, name: string, id: Uuid)
    ensures MarkedBy(marks + {name}, id) <==> MarkedBy(marks, id) || TrimEnv(name) == ShortId(id)
  {
    hide TrimEnv, ShortId;
    if TrimEnv(name) == ShortId(id) { assert name in marks + {name}; }
    if k :| k in marks && TrimEnv(k) == ShortId(id) { assert k in marks + {name}; }
  }

  lemma MarkOneMore(s: State, rows: map<Uuid, Row>, marks: set<string>, name: string)
    requires s.rows == Marked(rows, marks)
    ensures MarkExpired(s, TrimEnv(name)).rows == Marked(rows, marks + {name})
  {
    hide MarkedBy, TrimEnv, ShortId;
    forall id | id in rows ensures MarkExpired(s, TrimEnv(name)).rows[id] == Marked(rows, marks + {name})[id] {
      MarkedByMore(marks, name, id);
    }
  }

  /** What each reply to a request says about the states before and after it. */
  ghost predicate Answers(s: State, t: State, e: Event, reply: Reply) {
    match e
    case Create(id, _, _, _, _, _, _) =>
      && reply == CreateReply(s, e)
      && (reply == Accepted <==> LiveIn(t, id) && HasNamespace(t, id))
      && (reply == Internal <==> id in t.rows && t.rows[id].status == Destroyed)
    case Get(id, _, _) => id in t.rows && reply == Report(t.rows[id].status)
    case Update(id, _, lightning, _, _) => id in s.rows && id in t.rows && UpdateAnswers(s, t, e, reply)
    case Transition(id, _, kind, _) =>
      && id in s.rows && id in t.rows
      && (reply == Report(ResultStatus(kind)) <==>
            s.rows[id].status == RequiredStatus(kind) && t.rows[id].status == ResultStatus(kind))
      && (reply == Internal <==> s.rows[id].status == RequiredStatus(kind) == t.rows[id].status)
      && (reply == Report(ResultStatus(kind)) || reply.Internal? || reply.ChainError?)
    case Destroy(id, tornDown) =>
      && (reply == Removed <==> tornDown) && (reply.Removed? || reply.Internal?)
      && (reply == Removed ==> id in t.rows && t.rows[id].status == Destroyed && !HasNamespace(t, id))
      && (reply == Internal ==> t == s)
    case Delete(id) =>
      && id in s.rows && (reply == Removed <==> id !in t.rows) && (reply.Removed? || reply.InvalidParams?)
      && (reply == Removed <==> s.rows[id].status == Expired || s.rows[id].status == Destroyed)
    case _ => true
  }

  /** A create is refused unless it reaches the cluster; then the cluster decides. */
  ghost function CreateReply(s: State, e: Event): Reply
    requires e.Create?
  {
    if !ReachesCluster(s, e) then InvalidParams else if e.provision.Provisioned? then Accepted else Internal
  }

  lemma CreateAnswered(s: State, e: Event)
    requires Inv(s) && e.Create? && Enabled(s, e)
    ensures Answers(s, CreateSpec(s, e), e, CreateReply(s, e))
  {
    FreshIdUnused(s, e.id);
    hide Inv, Enabled, FreshId;
    CreateCases(s, e);
    CreateEffect(s, e);
    PurgeDropsOnly(s, e.request.owner, e.request.name);
    hide CreateSpec, ReachesCluster, Admitted, RowOf, PurgeName, FreeLightning, Zip;
  }

  /** An update is reported as done exactly when the row is ready and names
      what was asked for; it is an internal failure exactly when a proper
      extension had readable versions missing, or ports but no cluster. */
  ghost predicate UpdateAnswers(s: State, t: State, e: Event, reply: Reply)
    requires e.Update? && e.id in s.rows && e.id in t.rows
  {
    var row, requested := t.rows[e.id], Requested(e.lightning);
    && (reply == Report(Ready) <==> row.status.Ready? && ProperList(e.lightning) && row.instances.Keys == requested)
    && (reply == Internal <==>
          && row.status.Ready? && ProperList(e.lightning) && row.instances.Keys < requested
          && (!e.imagesResolve || (!e.applied && |requested - row.instances.Keys| <= |ClearTriples(t)|)))
    && (reply == Report(Ready) || reply.Internal? || reply.InvalidParams?)
    && (reply != Report(Ready) ==> row.instances == s.rows[e.id].instances)
  }

  /** The update's checks, in terms of the existing and the requested names. */
  lemma UpdatedAre(s: State, e: Event)
    requires e.Update? && e.id in s.rows && s.rows[e.id].status.Ready?
    ensures var row, requested := s.rows[e.id], Elements(Names(e.lightning));
            var additions := Additions(row, e.lightning);
            && ((exists n :: n in row.instances && n !in Names(e.lightning)) <==> !(row.instances.Keys <= requested))
            && (UpdatedInstances(s, e.id, e).Some? ==>
                  && ValidInstances(e.lightning) && row.instances.Keys <= requested
                  && additions != [] && e.imagesResolve && e.applied && |additions| <= |FreeLightning(s)|)
            && (ValidInstances(e.lightning) ==>
                  && Distinct(Names(additions)) && |additions| == |requested - row.instances.Keys|
                  && (row.instances.Keys <= requested ==> (additions == [] <==> row.instances.Keys == requested))
                  && (row.instances.Keys <= requested && additions != [] && e.imagesResolve && e.applied
                      && |additions| <= |FreeLightning(s)| ==>
                        UpdatedInstances(s, e.id, e) == Some(row.instances + Zip(Names(additions), FreeLightning(s)))))
  {
    if ValidInstances(e.lightning) {
      AdditionsCounted(s.rows[e.id], e.lightning);
    }
    hide FreeLightning, Zip, ValidInstances, Additions;
  }

  /** The reply that the order of the update's checks gives says what it should. */
  lemma UpdateAnswered(s: State, t: State, e: Event, reply: Reply)
    requires e.Update? && e.id in s.rows && s.rows[e.id].status.Ready?
    requires t == match UpdatedInstances(s, e.id, e)
                  case None => s
                  case Some(instances) => SetInstances(s, e.id, instances)
    requires var keys, requested := s.rows[e.id].instances.Keys, Elements(Names(e.lightning));
      reply ==
        if !ValidInstances(e.lightning) || !(keys <= requested) then InvalidParams
        else if keys == requested then Report(Ready)
        else if !e.imagesResolve then Internal
        else if |requested - keys| > |FreeLightning(s)| then InvalidParams
        else if e.applied then Report(Ready) else Internal
    ensures e.id in t.rows && UpdateAnswers(s, t, e, reply)
  {
    RecordedExactly(s, e.id, e);
    ValidIsProper(e.lightning);
    RequestedAreNames(e.lightning);
    PoolIsClear(s);
    hide FreeLightning, ClearTriples, ValidInstances, ProperList, UpdatedInstances, Requested, Names;
  }

  class Service {
    var rows: map<Uuid, Row>
    var namespaces: map<string, Namespace>
    ghost var issued: set<Uuid>
    const explorerPorts: bool
    const latest: int

    ghost function Snapshot(): State
      reads this
    {
      State(rows, namespaces, issued)
    }

    ghost predicate Valid()
      reads this
    {
      Inv(Snapshot())
    }

    constructor (explorerPorts: bool, latest: int)
      ensures Valid() && Snapshot() == INITIAL
      ensures this.explorerPorts == explorerPorts && this.latest == latest
    {
      rows, namespaces, issued := map[], map[], {};
      this.explorerPorts, this.latest := explorerPorts, latest;
    }

    // ---- database

    method SetEnvironmentStatus(id: Uuid, status: Status)
      modifies this`rows
      ensures Snapshot() == SetStatus(old(Snapshot()), id, status)
    {
      if id in rows {
        rows := rows[id := rows[id].(status := status)];
      }
    }

    method MarkExpiredByShortId(short: string) returns (changed: nat)
      modifies this`rows
      ensures Snapshot() == MarkExpired(old(Snapshot()), short)
      ensures changed == |set id | id in old(rows) && ShortId(id) == short && !old(rows)[id].status.Destroyed?|
    {
      var hit := set id | id in rows && ShortId(id) == short && !rows[id].status.Destroyed?;
      rows := map id | id in rows :: if id in hit then rows[id].(status := Expired) else rows[id];
      changed := |hit|;
    }

    method PurgeEnvironment(id: Uuid) returns (deleted: bool)
      modifies this`rows
      ensures Snapshot() == Purge(old(Snapshot()), id)
      ensures deleted <==> id in old(rows) && id !in rows
    {
      deleted := id in rows && !IsLive(rows[id].status);
      if deleted {
        rows := rows - {id};
      }
    }

    /** Deletes the instance rows of an environment and inserts the new ones. */
    method SetLightningInstances(id: Uuid, names: seq<string>, ports: seq<int>, kept: map<string, int>)
      requires id in rows && |names| <= |ports| && Distinct(names)
      modifies this`rows
      ensures Snapshot() == SetInstances(old(Snapshot()), id, kept + Zip(names, ports))
    {
      ghost var before := rows;
      rows := rows[id := rows[id].(instances := kept)];
      assert kept + Zip(names[..0], ports) == kept;
      for i := 0 to |names|
        invariant id in before && rows == before[id := before[id].(instances := kept + Zip(names[..i], ports))]
      {
        ZipOneMore(names, ports, kept, i);
        RowWith(before, id, kept + Zip(names[..i], ports), names[i], ports[i]);
        rows := rows[id := rows[id].(instances := rows[id].instances[names[i] := ports[i]])];
      }
      assert names[..|names|] == names;
    }

    method NextElectrumPort() returns (port: Option<int>)
      ensures port == Lowest(ELECTRUM_PORT_BASE, ELECTRUM_PORT_MAX, HeldElectrum(Snapshot()))
    {
      var held := Listing(
        set id | id in rows && IsLive(rows[id].status) && rows[id].electrum.Some? :: rows[id].electrum.value);
      port := LowestFreePort(ELECTRUM_PORT_BASE, ELECTRUM_PORT_MAX, held);
    }

    method NextExplorerPort() returns (port: Option<int>)
      ensures port == Lowest(EXPLORER_PORT_BASE, EXPLORER_PORT_MAX, HeldExplorer(Snapshot()))
    {
      var held := Listing(
        set id | id in rows && IsLive(rows[id].status) && rows[id].explorer.Some? :: rows[id].explorer.value);
      port := LowestFreePort(EXPLORER_PORT_BASE, EXPLORER_PORT_MAX, held);
    }

    method HeldLightningPorts() returns (held: seq<int>)
      ensures Elements(held) == HeldLightning(Snapshot())
    {
      var starts := Listing(
        set id, n | id in rows && IsLive(rows[id].status) && n in rows[id].instances :: rows[id].instances[n]);
      assert Elements(starts) == HeldStarts(Snapshot());
      held := [];
      for i := 0 to |starts|
        invariant Elements(held) == Spread(Elements(starts[..i]))
      {
        ghost var before := held;
        held := held + [starts[i], starts[i] + 1, starts[i] + 2];
        assert Elements(held) == Elements(before) + Triple(starts[i]);
        assert starts[..i + 1] == starts[..i] + [starts[i]];
        ElementsAppend(starts[..i], starts[i]);
        SpreadMore(Elements(starts[..i]), starts[i]);
      }
      assert starts[..|starts|] == starts;
    }

    method NextLightning(triples: nat) returns (ports: Option<seq<int>>)
      ensures ports.Some? <==> triples <= |FreeLightning(Snapshot())|
      ensures ports.Some? ==> ports.value == FreeLightning(Snapshot())[..triples]
    {
      var held := HeldLightningPorts();
      ports := NextLightningPorts(LIGHTNING_PORT_BASE, LIGHTNING_PORT_MAX, held, triples);
    }

    // ---- cluster

    method DestroyEnvironment(short: string)
      modifies this`namespaces
      ensures namespaces == old(namespaces) - {NamespaceFor(short)}
    {
      namespaces := namespaces - {NamespaceFor(short)};
    }

    /** Creates the namespace, then everything inside it; refuses a name already taken. */
    method CreateEnvironment(short: string, expiresAt: Option<int>, provision: Provision) returns (ok: bool)
      modifies this`namespaces
      ensures ok <==> provision.Provisioned? && NamespaceFor(short) !in old(namespaces)
      ensures namespaces == if provision.FailedBeforeNamespace? || NamespaceFor(short) in old(namespaces)
                            then old(namespaces)
                            else old(namespaces)[NamespaceFor(short) := Namespace(true, expiresAt)]
    {
      if provision.FailedBeforeNamespace? || NamespaceFor(short) in namespaces {
        return false;
      }
      namespaces := namespaces[NamespaceFor(short) := Namespace(true, expiresAt)];
      ok := provision.Provisioned?;
    }

    // ---- handlers

    method GetEnvironmentByName(owner: string, name: string) returns (r: Option<Uuid>)
      ensures r.Some? ==> r.value in rows && Named(rows[r.value], owner, name)
      ensures r.None? ==> forall id :: id in rows ==> !Named(rows[id], owner, name)
    {
      if id :| id in rows && Named(rows[id], owner, name) {
        return Some(id);
      }
      return None;
    }

    ghost predicate Refers(s: State, caller: string, reference: Reference, id: Uuid) {
      id in s.rows && match reference
        case ById(u) => u == id
        case ByName(n) => s.rows[id].owner == caller && s.rows[id].name == n
    }

    method ResolveEnvironment(caller: string, reference: Reference) returns (r: Option<Uuid>)
      ensures r.Some? ==> Refers(Snapshot(), caller, reference, r.value)
      ensures r.None? ==> forall id :: !Refers(Snapshot(), caller, reference, id)
    {
      match reference
      case ById(u) =>
        r := if u in rows then Some(u) else None;
      case ByName(n) =>
        r := GetEnvironmentByName(caller, n);
    }

    /** The row a caller may act on; unknown rows and other owners' rows are refused. */
    method Authorise(caller: string, reference: Reference) returns (r: Result<Uuid, Reply>)
      ensures r.Ok? ==> Refers(Snapshot(), caller, reference, r.value) && rows[r.value].owner == caller
      ensures r.Err? ==> r.error.NotFound? || r.error.Forbidden?
      ensures r == Err(NotFound) ==> forall id :: !Refers(Snapshot(), caller, reference, id)
      ensures r == Err(Forbidden) ==> exists id :: Refers(Snapshot(), caller, reference, id) && rows[id].owner != caller
    {
      var target := ResolveEnvironment(caller, reference);
      if target.None? {
        return Err(NotFound);
      }
      if rows[target.value].owner != caller {
        return Err(Forbidden);
      }
      r := Ok(target.value);
    }

    /** The request was refused for want of a row or of ownership, or it had the
        effect of its event on the caller's row `on`, and the reply says which. */
    ghost predicate Served(s: State, s': State, caller: string, reference: Reference, reply: Reply, on: Uuid, e: Event) {
      match reply
      case NotFound => s' == s && forall id :: !Refers(s, caller, reference, id)
      case Forbidden => s' == s && exists id :: Refers(s, caller, reference, id) && s.rows[id].owner != caller
      case _ =>
        && Refers(s, caller, reference, on) && s.rows[on].owner == caller
        && s' == Apply(s, e) && Answers(s, s', e, reply)
    }

    /** `reconcile_reaped`. */
    method ReconcileReaped(id: Uuid, checked: bool)
      modifies this`rows
      ensures Snapshot() == Reconcile(old(Snapshot()), id, checked)
    {
      if id !in rows || !IsLive(rows[id].status) {
        return;
      }
      if checked && NamespaceFor(ShortId(id)) !in namespaces {
        SetEnvironmentStatus(id, Expired);
      }
    }

    /** `environment_get`. */
    method Get(caller: string, reference: Reference, checked: bool, coreReady: bool) returns (reply: Reply, ghost on: Uuid)
      requires Valid()
      modifies this`rows
      ensures Valid()
      ensures Served(old(Snapshot()), Snapshot(), caller, reference, reply, on, Event.Get(on, checked, coreReady))
    {
      hide Inv;
      ghost var s := Snapshot();
      var who := Authorise(caller, reference);
      if who.Err? {
        reply, on := who.error, NO_ROW;
        return;
      }
      var id := who.value;
      on := id;
      ReconcileReaped(id, checked);
      if rows[id].status.Provisioning? && coreReady {
        SetEnvironmentStatus(id, Ready);
      }
      StepInv(s, Event.Get(id, checked, coreReady));
      reply := Report(rows[id].status);
    }

    /** `lifecycle_transition` for stop and start. */
    method ChangeLifecycle(caller: string, reference: Reference, kind: Lifecycle, checked: bool, scaled: bool) returns (reply: Reply, ghost on: Uuid)
      requires Valid()
      modifies this`rows
      ensures Valid()
      ensures Served(old(Snapshot()), Snapshot(), caller, reference, reply, on, Transition(on, checked, kind, scaled))
    {
      hide Inv;
      ghost var s := Snapshot();
      var who := Authorise(caller, reference);
      if who.Err? {
        reply, on := who.error, NO_ROW;
        return;
      }
      var id := who.value;
      on := id;
      StepInv(s, Transition(id, checked, kind, scaled));
      ReconcileReaped(id, checked);
      if rows[id].status != RequiredStatus(kind) {
        reply := ChainError;
        return;
      }
      if !scaled {
        reply := Internal;
        return;
      }
      SetEnvironmentStatus(id, ResultStatus(kind));
      reply := Report(ResultStatus(kind));
    }

    /** `environment_destroy`. */
    method DestroyRequest(caller: string, reference: Reference, tornDown: bool) returns (reply: Reply, ghost on: Uuid)
      requires Valid()
      modifies this`rows, this`namespaces
      ensures Valid()
      ensures Served(old(Snapshot()), Snapshot(), caller, reference, reply, on, Destroy(on, tornDown))
    {
      hide Inv;
      ghost var s := Snapshot();
      var who := Authorise(caller, reference);
      if who.Err? {
        reply, on := who.error, NO_ROW;
        return;
      }
      var id := who.value;
      on := id;
      StepInv(s, Destroy(id, tornDown));
      if !tornDown {
        reply := Internal;
        return;
      }
      DestroyEnvironment(ShortId(id));
      SetEnvironmentStatus(id, Destroyed);
      reply := Removed;
      assert !HasNamespace(Snapshot(), id);
    }

    /** `environment_delete`. */
    method DeleteRequest(caller: string, reference: Reference) returns (reply: Reply, ghost on: Uuid)
      requires Valid()
      modifies this`rows
      ensures Valid()
      ensures Served(old(Snapshot()), Snapshot(), caller, reference, reply, on, Delete(on))
    {
      hide Inv;
      ghost var s := Snapshot();
      var who := Authorise(caller, reference);
      if who.Err? {
        reply, on := who.error, NO_ROW;
        return;
      }
      var id := who.value;
      on := id;
      StepInv(s, Delete(id));
      if IsLive(rows[id].status) {
        reply := InvalidParams;
        return;
      }
      var deleted := PurgeEnvironment(id);
      reply := if deleted then Removed else InvalidParams;
    }

    /** `environment_create`. Each refusal leaves the state of the step it
        happens in; only a short lightning pool leaves a new live row behind. */
    method CreateRequested(id: Uuid, request: CreateRequest, now: int, provision: Provision, tornDown: bool)
      returns (reply: Reply)
      requires Valid() && FreshId(Snapshot(), id)
      modifies this
      ensures Valid()
      ensures Snapshot() == CreateSpec(old(Snapshot()), Create(id, request, now, latest, explorerPorts, provision, tornDown))
      ensures Answers(old(Snapshot()), Snapshot(),
                      Create(id, request, now, latest, explorerPorts, provision, tornDown), reply)
    {
      hide Inv, NameLive, PurgeName, ValidInstances, ElectrumFor, ExplorerFor, FinishCreate, FreshId, Answers,
        Admitted, ClearTriples, ProperList;
      ghost var s := Snapshot();
      FreshIdUnused(s, id);
      PurgeDropsOnly(s, request.owner, request.name);
      ghost var e := Create(id, request, now, latest, explorerPorts, provision, tornDown);
      StepInv(s, e);
      CreateAnswered(s, e);
      AdmittedExactly(s, e);
      PoolIsClear(s);
      if !request.imagesResolve {
        return InvalidParams;
      }
      var expiry := ResolveExpiresAt(request.ttl, now, latest);
      if expiry.Err? {
        return InvalidParams;
      }
      var free := FreeName(request.owner, request.name);
      if !free {
        return InvalidParams;
      }
      ghost var s1 := Snapshot();
      var fault := ValidateLightning(request.lightning);
      if fault.Some? {
        return InvalidParams;
      }
      var ports := PortsFor(request);
      if ports.None? {
        return InvalidParams;
      }
      var (electrum, explorer) := ports.value;
      ghost var row := NewRow(request, electrum, explorer, expiry.value);
      CreateInserts(s, e, s1, row);
      rows := rows[id := Row(request.owner, request.name, Provisioning, electrum, explorer, expiry.value, map[])];
      issued := issued + {id};
      assert Snapshot() == InsertRow(s1, id, row) && Admitted(s, e);
      PurgeKeepsLightning(s, request.owner, request.name);
      EmptyRowHoldsNothing(s1, id, row);
      reply := FinishCreation(id, request, expiry.value, provision, tornDown, e);
    }

    /** The electrum and explorer ports a create asks for; None when a pool is exhausted. */
    method PortsFor(request: CreateRequest) returns (r: Option<(Option<int>, Option<int>)>)
      ensures r.Some? <==> ElectrumFor(Snapshot(), request).Some? && ExplorerFor(Snapshot(), request, explorerPorts).Some?
      ensures r.Some? ==> ElectrumFor(Snapshot(), request) == Some(r.value.0)
      ensures r.Some? ==> ExplorerFor(Snapshot(), request, explorerPorts) == Some(r.value.1)
    {
      hide Lowest, HeldElectrum, HeldExplorer;
      var explorer: Option<int> := None;
      if request.explorer && explorerPorts {
        explorer := NextExplorerPort();
        if explorer.None? {
          return None;
        }
      }
      var electrum: Option<int> := None;
      if request.indexer || request.explorer {
        electrum := NextElectrumPort();
        if electrum.None? {
          return None;
        }
      }
      r := Some((electrum, explorer));
    }

    /** A name held by a dead record is freed by purging it; a live one stays taken. */
    method FreeName(owner: string, name: string) returns (free: bool)
      requires Valid()
      modifies this`rows
      ensures free <==> !NameLive(old(Snapshot()), owner, name)
      ensures Snapshot() == if free then PurgeName(old(Snapshot()), owner, name) else old(Snapshot())
    {
      var same := GetEnvironmentByName(owner, name);
      if same.Some? && IsLive(rows[same.value].status) {
        return false;
      }
      assert NamesUnique(Snapshot());
      PurgeOfName(Snapshot(), same, owner, name);
      if same.Some? {
        var purged := PurgeEnvironment(same.value);
      }
      free := true;
    }

    /** Best effort after a failed provisioning. */
    method TearDown(id: Uuid, tornDown: bool)
      modifies this`rows, this`namespaces
      ensures Snapshot() == SetStatus(if tornDown then DropNamespace(old(Snapshot()), id) else old(Snapshot()), id, Destroyed)
    {
      if tornDown {
        DestroyEnvironment(ShortId(id));
      }
      SetEnvironmentStatus(id, Destroyed);
    }

    /** Lightning ports, provisioning, and the instance rows. A failed
        provisioning is torn down as far as possible and its row destroyed. */
    method FinishCreation(id: Uuid, request: CreateRequest, expiresAt: Option<int>, provision: Provision,
                          tornDown: bool, ghost e: Event) returns (reply: Reply)
      requires e.Create? && e.id == id && e.request == request && e.provision == provision && e.tornDown == tornDown
      requires LiveIn(Snapshot(), id) && !HasNamespace(Snapshot(), id)
      requires rows[id].expiresAt == expiresAt && rows[id].instances == map[] && ValidInstances(request.lightning)
      modifies this`rows, this`namespaces
      ensures Snapshot() == FinishCreate(old(Snapshot()), e)
      ensures reply == if |request.lightning| > |FreeLightning(old(Snapshot()))| then InvalidParams
                       else if provision.Provisioned? then Accepted else Internal
    {
      hide FreeLightning, Zip, ValidInstances, ShortId;
      ghost var s := Snapshot();
      var ports: seq<int> := [];
      if request.lightning != [] {
        var allocation := NextLightning(|request.lightning|);
        if allocation.None? {
          return InvalidParams;
        }
        ports := allocation.value;
      }
      ValidNames(request.lightning);
      ZipPrefix(Names(request.lightning), FreeLightning(s), |request.lightning|);
      var ok := CreateEnvironment(ShortId(id), expiresAt, provision);
      if !ok {
        TearDown(id, tornDown);
        return Internal;
      }
      SetLightningInstances(id, Names(request.lightning), ports, map[]);
      assert map[] + Zip(Names(request.lightning), ports) == Zip(Names(request.lightning), ports);
      reply := Accepted;
    }

    /** `environment_update`: adds lightning instances to a ready environment. */
    method UpdateRequested(caller: string, reference: Reference, checked: bool, lightning: seq<Instance>,
                           imagesResolve: bool, applied: bool) returns (reply: Reply, ghost on: Uuid)
      requires Valid()
      modifies this`rows
      ensures Valid()
      ensures Served(old(Snapshot()), Snapshot(), caller, reference, reply,
                     on, Update(on, checked, lightning, imagesResolve, applied))
    {
      hide Inv, Apply, UpdateAnswers, Refers;
      ghost var s := Snapshot();
      var who := Authorise(caller, reference);
      if who.Err? {
        reply, on := who.error, NO_ROW;
        return;
      }
      var id := who.value;
      on := id;
      var e := Update(id, checked, lightning, imagesResolve, applied);
      reply := UpdateRow(id, e);
    }

    method UpdateRow(id: Uuid, e: Event) returns (reply: Reply)
      requires Valid() && e.Update? && e.id == id && id in rows
      modifies this`rows
      ensures Valid() && Snapshot() == Apply(old(Snapshot()), e)
      ensures Answers(old(Snapshot()), Snapshot(), e, reply) && !reply.NotFound? && !reply.Forbidden?
    {
      hide Inv, UpdatedInstances, ValidInstances, FreeLightning;
      UpdateInv(Snapshot(), e);
      ReconcileReaped(id, e.checked);
      if !rows[id].status.Ready? {
        return InvalidParams;
      }
      reply := AddInstances(id, e);
    }

    /** The update of a ready row: refuses removals, allocates ports for the
        additions only, and records them beside the existing instances. */
    method AddInstances(id: Uuid, e: Event) returns (reply: Reply)
      requires e.Update? && e.id == id && id in rows && rows[id].status.Ready?
      modifies this`rows
      ensures Snapshot() == match UpdatedInstances(old(Snapshot()), id, e)
                            case None => old(Snapshot())
                            case Some(instances) => SetInstances(old(Snapshot()), id, instances)
      ensures id in rows && UpdateAnswers(old(Snapshot()), Snapshot(), e, reply)
    {
      hide FreeLightning, Zip, ValidInstances, Additions, UpdateAnswers, UpdatedInstances, Elements, Names;
      ghost var s := Snapshot();
      UpdatedAre(s, e);
      var fault := ValidateLightning(e.lightning);
      if fault.Some? {
        UpdateAnswered(s, s, e, InvalidParams);
        return InvalidParams;
      }
      var existing := rows[id].instances;
      if exists n :: n in existing && n !in Names(e.lightning) {
        UpdateAnswered(s, s, e, InvalidParams);
        return InvalidParams;
      }
      var additions := AdditionsOf(rows[id], e.lightning);
      if additions == [] {
        UpdateAnswered(s, s, e, Report(Ready));
        return Report(Ready);
      }
      if !e.imagesResolve {
        UpdateAnswered(s, s, e, Internal);
        return Internal;
      }
      reply := Provide(id, additions, e);
      UpdateAnswered(s, Snapshot(), e, reply);
    }

    /** Ports for the additions, the cluster's work, and the new instance rows. */
    method Provide(id: Uuid, additions: seq<Instance>, e: Event) returns (reply: Reply)
      requires e.Update? && id in rows && Distinct(Names(additions))
      modifies this`rows
      ensures |additions| > |FreeLightning(old(Snapshot()))| ==> reply == InvalidParams
      ensures |additions| <= |FreeLightning(old(Snapshot()))| ==> reply == if e.applied then Report(Ready) else Internal
      ensures reply == Report(Ready) ==>
        Snapshot() == SetInstances(old(Snapshot()), id, old(rows)[id].instances + Zip(Names(additions), FreeLightning(old(Snapshot()))))
      ensures reply != Report(Ready) ==> Snapshot() == old(Snapshot())
    {
      hide FreeLightning, Zip;
      var ports := NextLightning(|additions|);
      if ports.None? {
        return InvalidParams;
      }
      if !e.applied {
        return Internal;
      }
      ZipPrefix(Names(additions), FreeLightning(Snapshot()), |additions|);
      SetLightningInstances(id, Names(additions), ports.value, rows[id].instances);
      reply := Report(Ready);
    }

    // ---- the reaper

    /** `reap_expired`: deletes the past-due namespaces one by one; a failed
        delete does not end the pass. */
    method ReapExpired(now: int, failedDeletes: set<string>) returns (reaped: seq<string>)
      modifies this`namespaces
      ensures Elements(reaped) == Reaped(old(Snapshot()), now, failedDeletes)
      ensures namespaces == old(namespaces) - Elements(reaped)
    {
      var names := Listing(set name | name in namespaces && PastDue(now, namespaces[name]));
      reaped := [];
      for i := 0 to |names|
        invariant Elements(reaped) == Elements(names[..i]) - failedDeletes
        invariant namespaces == old(namespaces) - Elements(reaped)
      {
        assert names[..i + 1] == names[..i] + [names[i]];
        ElementsAppend(names[..i], names[i]);
        if names[i] !in failedDeletes {
          namespaces := namespaces - {names[i]};
          ElementsAppend(reaped, names[i]);
          reaped := reaped + [names[i]];
        }
      }
      assert names[..|names|] == names;
    }

    /** Marks the rows of every reaped namespace whose update does not fail. */
    method MarkReaped(reaped: seq<string>, failedMarks: set<string>)
      modifies this`rows
      ensures rows == Marked(old(rows), Elements(reaped) - failedMarks)
    {
      hide TrimEnv, Marked, MarkExpired;
      MarkNothing(rows);
      assert Elements(reaped[..0]) - failedMarks == {};
      for i := 0 to |reaped|
        invariant rows == Marked(old(rows), Elements(reaped[..i]) - failedMarks)
      {
        MarksSoFar(reaped, i, failedMarks);
        if reaped[i] !in failedMarks {
          MarkOneMore(Snapshot(), old(rows), Elements(reaped[..i]) - failedMarks, reaped[i]);
          var changed := MarkExpiredByShortId(TrimEnv(reaped[i]));
        }
      }
      assert reaped[..|reaped|] == reaped;
    }

    /** One round of the reaper loop: reap, then mark the rows of what was reaped. */
    method ReaperPass(now: int, failedDeletes: set<string>, failedMarks: set<string>)
      requires Valid()
      modifies this`rows, this`namespaces
      ensures Valid()
      ensures Snapshot() == ReapSpec(old(Snapshot()), Reap(now, failedDeletes, failedMarks))
    {
      hide Inv, Marked, Reaped, Enabled;
      ghost var s := Snapshot();
      ReapInv(s, Reap(now, failedDeletes, failedMarks));
      var reaped := ReapExpired(now, failedDeletes);
      MarkReaped(reaped, failedMarks);
    }
  }

  lemma ZipOneMore(names: seq<string>, ports: seq<int>, kept: map<string, int>, i: nat)
    requires i < |names| <= |ports| && Distinct(names)
    ensures kept + Zip(names[..i + 1], ports) == (kept + Zip(names[..i], ports))[names[i] := ports[i]]
  {
    assert names[..i + 1][..i] == names[..i];
  }

  lemma RowWith(rows: map<Uuid, Row>, id: Uuid, instances: map<string, int>, name: string, port: int)
    requires id in rows
    ensures var some := rows[id := rows[id].(instances := instances)];
            some[id := some[id].(instances := some[id].instances[name := port])] ==
            rows[id := rows[id].(instances := instances[name := port])]
  {
  }

  lemma MarksSoFar(reaped: seq<string>, i: nat, failedMarks: set<string>)
    requires i < |reaped|
    ensures Elements(reaped[..i + 1]) - failedMarks
         == (if reaped[i] in failedMarks then Elements(reaped[..i]) - failedMarks
             else (Elements(reaped[..i]) - failedMarks) + {reaped[i]})
  {
    assert reaped[..i + 1] == reaped[..i] + [reaped[i]];
    ElementsAppend(reaped[..i], reaped[i]);
  }

  lemma ValidNames(lightning: seq<Instance>)
    requires ValidInstances(lightning)
    ensures Distinct(Names(lightning))
  {
  }

  /** The requested instances not recorded yet, in request order. */
  method AdditionsOf(row: Row, lightning: seq<Instance>) returns (additions: seq<Instance>)
    ensures additions == Additions(row, lightning)
  {
    additions := [];
    for i := 0 to |lightning|
      invariant additions == Additions(row, lightning[..i])
    {
      assert lightning[..i + 1][..i] == lightning[..i];
      if lightning[i].name !in row.instances {
        additions := additions + [lightning[i]];
      }
    }
    assert lightning[..|lightning|] == lightning;
  }

  lemma {:induction false} ZipPrefix(names: seq<string>, ports: seq<int>, k: nat)
    requires Distinct(names) && |names| <= k <= |ports|
    ensures Zip(names, ports[..k]) == Zip(names, ports)
  {
    if names != [] {
      ZipPrefix(names[..|names| - 1], ports, k);
    }
  }

  /** Purging the one row of a dead name is what drops the name. */
  lemma PurgeOfName(s: State, same: Option<Uuid>, owner: string, name: string)
    requires Inv(s) && !NameLive(s, owner, name)
    requires same.Some? ==> same.value in s.rows && Named(s.rows[same.value], owner, name)
    requires same.None? ==> forall id :: id in s.rows ==> !Named(s.rows[id], owner, name)
    ensures (if same.Some? then Purge(s, same.value) else s) == PurgeName(s, owner, name)
  {
    var s' := PurgeName(s, owner, name);
    if same.Some? {
      assert forall id :: id in s.rows && Named(s.rows[id], owner, name) ==> id == same.value;
      assert Purge(s, same.value).rows == s'.rows;
    } else {
      assert s.rows == s'.rows;
    }
  }

  /** Past every refusal a create inserts its row and finishes from there. */
  lemma CreateInserts(s: State, e: Event, s1: State, row: Row)
    requires Inv(s) && e.Create? && Enabled(s, e) && e.request.imagesResolve
    requires ResolveExpiresAt(e.request.ttl, e.now, e.latest).Ok? && ValidInstances(e.request.lightning)
    requires !NameLive(s, e.request.owner, e.request.name) && s1 == PurgeName(s, e.request.owner, e.request.name)
    requires ElectrumFor(s1, e.request) == Some(row.electrum)
    requires ExplorerFor(s1, e.request, e.explorerPorts) == Some(row.explorer)
    requires row == NewRow(e.request, row.electrum, row.explorer, ResolveExpiresAt(e.request.ttl, e.now, e.latest).value)
    ensures CreateSpec(s, e) == FinishCreate(InsertRow(s1, e.id, row), e)
    ensures LiveIn(InsertRow(s1, e.id, row), e.id) && !HasNamespace(InsertRow(s1, e.id, row), e.id)
  {
    PurgeNameInv(s, e);
    hide Lowest, HeldElectrum, HeldExplorer, FinishCreate, ValidInstances, NameLive, PurgeName;
    assert !HasNamespace(s1, e.id) by { ShortIdIsHex(e.id); }
  }

  lemma SpreadMore(starts: set<int>, start: int)
    ensures Spread(starts + {start}) == Spread(starts) + Triple(start)
  {
    hide Spread;
    forall p ensures p in Spread(starts + {start}) <==> p in Spread(starts) + Triple(start) {
      InSpread(starts + {start}, p);
      InSpread(starts, p);
    }
  }
}
