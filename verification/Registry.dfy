/** Environments as the database and the cluster know them, and what each
    request, reaper pass or outside event does to that state. */
module Registry {
  import opened Prelude
  import opened PortPool
  import opened Ttl

  // ---- identifiers

  predicate IsHex(c: char) { '0' <= c <= '9' || 'a' <= c <= 'f' }

  /** A UUID in simple form: 32 lower-case hex digits. */
  type Uuid = u: string | |u| == 32 && forall i :: 0 <= i < |u| ==> IsHex(u[i])
    witness "00000000000000000000000000000000"

  const SHORT_LENGTH: nat := 12

  function ShortId(id: Uuid): (r: string)
    ensures |r| == SHORT_LENGTH
  {
    id[..SHORT_LENGTH]
  }

  const ENV_PREFIX := "env-"

  function NamespaceFor(short: string): string { ENV_PREFIX + short }

  /** `trim_start_matches("env-")`: every leading repetition goes. */
  function TrimEnv(name: string): string
    decreases |name|
  {
    if |name| >= 4 && name[..4] == ENV_PREFIX then TrimEnv(name[4..]) else name
  }

  // ---- state

  datatype Status = Provisioning | Ready | Stopped | Expired | Destroyed

  predicate IsLive(s: Status) { s.Provisioning? || s.Ready? || s.Stopped? }

  /** One row, with the rows of its lightning instances as a map from name to port. */
  datatype Row = Row(owner: string, name: string, status: Status, electrum: Option<int>,
                     explorer: Option<int>, expiresAt: Option<int>, instances: map<string, int>)

  /** Expiry is None when the annotation is absent or unreadable. */
  datatype Namespace = Namespace(labelled: bool, expiresAt: Option<int>)

  /** Rows, namespaces by name, and every id ever given to a row. */
  datatype State = State(rows: map<Uuid, Row>, namespaces: map<string, Namespace>, issued: set<Uuid>)

  const INITIAL := State(map[], map[], {})

  predicate LiveIn(s: State, id: Uuid) { id in s.rows && IsLive(s.rows[id].status) }

  predicate HasNamespace(s: State, id: Uuid) { NamespaceFor(ShortId(id)) in s.namespaces }

  predicate Named(row: Row, owner: string, name: string) { row.owner == owner && row.name == name }

  // ---- database statements

  function SetStatus(s: State, id: Uuid, status: Status): State {
    if id in s.rows then s.(rows := s.rows[id := s.rows[id].(status := status)]) else s
  }

  /** `mark_expired_by_short_id`. */
  function MarkExpired(s: State, short: string): State {
    s.(rows := map id | id in s.rows ::
         if ShortId(id) == short && !s.rows[id].status.Destroyed? then s.rows[id].(status := Expired)
         else s.rows[id])
  }

  /** `purge_environment`, guarded on the status inside the statement. */
  function Purge(s: State, id: Uuid): State {
    if id in s.rows && !IsLive(s.rows[id].status) then s.(rows := s.rows - {id}) else s
  }

  function SetInstances(s: State, id: Uuid, instances: map<string, int>): State {
    if id in s.rows then s.(rows := s.rows[id := s.rows[id].(instances := instances)]) else s
  }

  function InsertRow(s: State, id: Uuid, row: Row): State {
    s.(rows := s.rows[id := row], issued := s.issued + {id})
  }

  function HeldElectrum(s: State): set<int> {
    set id | id in s.rows && IsLive(s.rows[id].status) && s.rows[id].electrum.Some? :: s.rows[id].electrum.value
  }

  function HeldExplorer(s: State): set<int> {
    set id | id in s.rows && IsLive(s.rows[id].status) && s.rows[id].explorer.Some? :: s.rows[id].explorer.value
  }

  function HeldStarts(s: State): set<int> {
    set id, n | id in s.rows && IsLive(s.rows[id].status) && n in s.rows[id].instances :: s.rows[id].instances[n]
  }

  /** Every port of the triples at the given starts. */
  function Spread(starts: set<int>): set<int> {
    starts + (set p | p in starts :: p + 1) + (set p | p in starts :: p + 2)
  }

  lemma InSpread(starts: set<int>, p: int)
    ensures p in Spread(starts) <==> p in starts || p - 1 in starts || p - 2 in starts
  {
  }

  /** Every live instance holds its port and the two after it. */
  function HeldLightning(s: State): set<int> { Spread(HeldStarts(s)) }

  // ---- cluster effects

  function AddNamespace(s: State, id: Uuid, ns: Namespace): State {
    s.(namespaces := s.namespaces[NamespaceFor(ShortId(id)) := ns])
  }

  function DropNamespace(s: State, id: Uuid): State {
    s.(namespaces := s.namespaces - {NamespaceFor(ShortId(id))})
  }

  // ---- requests

  datatype Implementation = Lnd | Cln | Eclair | LdkNode

  datatype Instance = Instance(name: string, implementation: Implementation)

  function Names(instances: seq<Instance>): (r: seq<string>)
    ensures |r| == |instances|
  {
    seq(|instances|, i requires 0 <= i < |instances| => instances[i].name)
  }

  predicate IsDnsLabel(name: string) {
    && 0 < |name| <= 63
    && ('a' <= name[0] <= 'z' || '0' <= name[0] <= '9')
    && forall i :: 0 <= i < |name| ==> 'a' <= name[i] <= 'z' || '0' <= name[i] <= '9' || name[i] == '-'
  }

  /** The instance lists `validate_lightning` lets through. */
  predicate ValidInstances(instances: seq<Instance>) {
    && (forall i :: 0 <= i < |instances| ==> IsDnsLabel(instances[i].name) && instances[i].implementation.Lnd?)
    && Distinct(Names(instances))
  }

  datatype CreateRequest = CreateRequest(
    owner: string, name: string, indexer: bool, explorer: bool, lightning: seq<Instance>,
    imagesResolve: bool, ttl: Option<int>)

  /** How provisioning ended, and whether the teardown after a failure worked. */
  datatype Provision = Provisioned | FailedBeforeNamespace | FailedAfterNamespace

  datatype Lifecycle = Stop | Start

  function RequiredStatus(kind: Lifecycle): Status { if kind.Stop? then Ready else Stopped }

  function ResultStatus(kind: Lifecycle): Status { if kind.Stop? then Stopped else Provisioning }

  /** One atomic event. Booleans record what the cluster answered: `checked` is
      whether the namespace existence check succeeded. */
  datatype Event =
    | Create(id: Uuid, request: CreateRequest, now: int, latest: int, explorerPorts: bool,
             provision: Provision, tornDown: bool)
    | Get(id: Uuid, checked: bool, coreReady: bool)
    | Update(id: Uuid, checked: bool, lightning: seq<Instance>, imagesResolve: bool, applied: bool)
    | Transition(id: Uuid, checked: bool, kind: Lifecycle, scaled: bool)
    | Destroy(id: Uuid, tornDown: bool)
    | Delete(id: Uuid)
    | Reap(now: int, failedDeletes: set<string>, failedMarks: set<string>)
    | NamespaceGone(name: string)
    | NamespaceAppears(name: string, ns: Namespace)

  // ---- handlers

  /** The port allocation of a create: None when a pool is exhausted. */
  function ElectrumFor(s: State, request: CreateRequest): Option<Option<int>> {
    if request.indexer || request.explorer then
      var p := Lowest(ELECTRUM_PORT_BASE, ELECTRUM_PORT_MAX, HeldElectrum(s));
      if p.None? then None else Some(p)
    else Some(None)
  }

  function ExplorerFor(s: State, request: CreateRequest, explorerPorts: bool): Option<Option<int>> {
    if request.explorer && explorerPorts then
      var p := Lowest(EXPLORER_PORT_BASE, EXPLORER_PORT_MAX, HeldExplorer(s));
      if p.None? then None else Some(p)
    else Some(None)
  }

  function FreeLightning(s: State): seq<int> {
    FreeStarts(LIGHTNING_PORT_BASE, LIGHTNING_PORT_MAX, HeldLightning(s))
  }

  /** Names zipped with the first free ports. */
  function Zip(names: seq<string>, ports: seq<int>): map<string, int>
    requires |names| <= |ports| && Distinct(names)
  {
    if names == [] then map[]
    else Zip(names[..|names| - 1], ports)[names[|names| - 1] := ports[|names| - 1]]
  }

  predicate NameLive(s: State, owner: string, name: string) {
    exists id :: id in s.rows && Named(s.rows[id], owner, name) && IsLive(s.rows[id].status)
  }

  /** A dead record of the name is dropped. */
  function PurgeName(s: State, owner: string, name: string): State {
    s.(rows := map id | id in s.rows && !(Named(s.rows[id], owner, name) && !IsLive(s.rows[id].status)) :: s.rows[id])
  }

  /** The cluster side of a create, and the row's fate when it fails. */
  function ProvisionStep(s: State, id: Uuid, ns: Namespace, provision: Provision, tornDown: bool): (State, bool) {
    if HasNamespace(s, id) || provision.FailedBeforeNamespace? then
      (SetStatus(if tornDown then DropNamespace(s, id) else s, id, Destroyed), false)
    else if provision.FailedAfterNamespace? then
      var made := AddNamespace(s, id, ns);
      (SetStatus(if tornDown then DropNamespace(made, id) else made, id, Destroyed), false)
    else (AddNamespace(s, id, ns), true)
  }

  function CreateSpec(s: State, e: Event): State
    requires e.Create?
  {
    var request := e.request;
    var expiry := ResolveExpiresAt(request.ttl, e.now, e.latest);
    if !request.imagesResolve || expiry.Err? || NameLive(s, request.owner, request.name) then s
    else
      var s1 := PurgeName(s, request.owner, request.name);
      var explorer := ExplorerFor(s1, request, e.explorerPorts);
      var electrum := ElectrumFor(s1, request);
      if !ValidInstances(request.lightning) || explorer.None? || electrum.None? then s1
      else
        var row := NewRow(request, electrum.value, explorer.value, expiry.value);
        FinishCreate(InsertRow(s1, e.id, row), e)
  }

  function NewRow(request: CreateRequest, electrum: Option<int>, explorer: Option<int>, expiresAt: Option<int>): Row {
    Row(request.owner, request.name, Provisioning, electrum, explorer, expiresAt, map[])
  }

  /** The part of a create after its row is inserted. When the lightning pool
      is short the row stays behind, provisioning and without a namespace. */
  function FinishCreate(s: State, e: Event): State
    requires e.Create? && e.id in s.rows
  {
    var ports := FreeLightning(s);
    if |ports| < |e.request.lightning| || !Distinct(Names(e.request.lightning)) then s
    else
      var (s', ok) := ProvisionStep(s, e.id, Namespace(true, s.rows[e.id].expiresAt), e.provision, e.tornDown);
      if ok then SetInstances(s', e.id, Zip(Names(e.request.lightning), ports)) else s'
  }

  /** `reconcile_reaped`. */
  function Reconcile(s: State, id: Uuid, checked: bool): State {
    if LiveIn(s, id) && checked && !HasNamespace(s, id) then SetStatus(s, id, Expired) else s
  }

  function GetSpec(s: State, e: Event): State
    requires e.Get?
  {
    var s1 := Reconcile(s, e.id, e.checked);
    if e.id in s1.rows && s1.rows[e.id].status.Provisioning? && e.coreReady then SetStatus(s1, e.id, Ready) else s1
  }

  function Additions(row: Row, lightning: seq<Instance>): (r: seq<Instance>) {
    if lightning == [] then []
    else
      var last := lightning[|lightning| - 1];
      var rest := Additions(row, lightning[..|lightning| - 1]);
      if last.name in row.instances then rest else rest + [last]
  }

  lemma {:induction false} AdditionsAre(row: Row, lightning: seq<Instance>)
    requires Distinct(Names(lightning))
    ensures Distinct(Names(Additions(row, lightning))) && |Additions(row, lightning)| <= |lightning|
    ensures forall n :: n in Names(Additions(row, lightning)) <==> n in Names(lightning) && n !in row.instances
  {
    if lightning != [] {
      var front, last := lightning[..|lightning| - 1], lightning[|lightning| - 1];
      assert Names(lightning) == Names(front) + [last.name];
      assert Distinct(Names(front)) && last.name !in Names(front) by {
        forall i | 0 <= i < |front| ensures Names(front)[i] == Names(lightning)[i] != last.name {
          assert Names(lightning)[|front|] == last.name;
        }
      }
      AdditionsAre(row, front);
      assert Names(Additions(row, front) + [last]) == Names(Additions(row, front)) + [last.name];
    }
  }

  /** The instances an update records; None when it is refused. */
  function UpdatedInstances(s: State, id: Uuid, e: Event): Option<map<string, int>>
    requires e.Update? && id in s.rows
  {
    var row := s.rows[id];
    if !ValidInstances(e.lightning) || (exists n :: n in row.instances && n !in Names(e.lightning)) then None
    else
      var additions := Additions(row, e.lightning);
      AdditionsAre(row, e.lightning);
      if additions == [] || !e.imagesResolve || |FreeLightning(s)| < |additions| || !e.applied then None
      else Some(row.instances + Zip(Names(additions), FreeLightning(s)))
  }

  function UpdateSpec(s: State, e: Event): State
    requires e.Update?
  {
    var s1 := Reconcile(s, e.id, e.checked);
    if e.id !in s1.rows || !s1.rows[e.id].status.Ready? then s1
    else
      var instances := UpdatedInstances(s1, e.id, e);
      if instances.None? then s1 else SetInstances(s1, e.id, instances.value)
  }

  function TransitionSpec(s: State, e: Event): State
    requires e.Transition?
  {
    var s1 := Reconcile(s, e.id, e.checked);
    if e.id in s1.rows && s1.rows[e.id].status == RequiredStatus(e.kind) && e.scaled
    then SetStatus(s1, e.id, ResultStatus(e.kind)) else s1
  }

  function DestroySpec(s: State, e: Event): State
    requires e.Destroy?
  {
    if e.id in s.rows && e.tornDown then SetStatus(DropNamespace(s, e.id), e.id, Destroyed) else s
  }

  // ---- the reaper

  /** Labelled and past its readable expiry. */
  predicate PastDue(now: int, ns: Namespace) {
    ns.labelled && ns.expiresAt.Some? && ns.expiresAt.value < now
  }

  function Reaped(s: State, now: int, failedDeletes: set<string>): set<string> {
    set name | name in s.namespaces && PastDue(now, s.namespaces[name]) && name !in failedDeletes
  }

  predicate MarkedBy(marks: set<string>, id: Uuid) {
    exists name :: name in marks && TrimEnv(name) == ShortId(id)
  }

  /** The rows after every name of a set has been used to mark rows expired. */
  function Marked(rows: map<Uuid, Row>, marks: set<string>): map<Uuid, Row> {
    map id | id in rows ::
      if MarkedBy(marks, id) && !rows[id].status.Destroyed? then rows[id].(status := Expired) else rows[id]
  }

  function ReapSpec(s: State, e: Event): State
    requires e.Reap?
  {
    var gone := Reaped(s, e.now, e.failedDeletes);
    var marks := gone - e.failedMarks;
    s.(namespaces := s.namespaces - gone, rows := Marked(s.rows, marks))
  }

  function Apply(s: State, e: Event): State {
    match e
    case Create(_, _, _, _, _, _, _) => CreateSpec(s, e)
    case Get(_, _, _) => GetSpec(s, e)
    case Update(_, _, _, _, _) => UpdateSpec(s, e)
    case Transition(_, _, _, _) => TransitionSpec(s, e)
    case Destroy(_, _) => DestroySpec(s, e)
    case Delete(id) => Purge(s, id)
    case Reap(_, _, _) => ReapSpec(s, e)
    case NamespaceGone(name) => s.(namespaces := s.namespaces - {name})
    case NamespaceAppears(name, ns) => s.(namespaces := s.namespaces[name := ns])
  }
}
