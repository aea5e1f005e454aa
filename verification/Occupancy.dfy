/** Host ports the cluster has bound, against the ports the rows claim: when a
    failed request leaves ports bound that the registry hands out again. */
module Occupancy {
  import opened Prelude
  import opened PortPool
  import opened Registry
  import opened Invariants
  import opened Runs
  import opened LifecycleTheorems
  import opened Leftovers
  import opened Admission
  import opened Creation
  import opened Updates

  /** Ports bound by the services inside each namespace. */
  type Bound = map<string, set<int>>

  // ---- what an event binds

  /** The update asks the cluster for its additions. */
  ghost predicate UpdateReaches(s: State, e: Event) {
    e.Update? && LiveIn(s, e.id) && UpdateGoesThrough(s, e.(applied := true))
  }

  /** Triples an event takes from the pool. */
  ghost function Wanted(s: State, e: Event): (n: nat)
    ensures n <= |FreeLightning(s)|
  {
    PoolIsClear(s);
    if e.Create? && ReachesCluster(s, e) then |e.request.lightning|
    else if UpdateReaches(s, e) then |Requested(e.lightning) - s.rows[e.id].instances.Keys|
    else 0
  }

  ghost function FirstTriples(s: State, n: nat): set<int>
    requires n <= |FreeLightning(s)|
  {
    Spread(Elements(FreeLightning(s)[..n]))
  }

  /** The ports an event asks the cluster to bind. */
  ghost function Planned(s: State, e: Event): set<int> {
    (if e.Create? && ReachesCluster(s, e) then PortsOf(RowOf(s, e)) else {}) + FirstTriples(s, Wanted(s, e))
  }

  predicate Worked(e: Event)
    requires e.Create? || e.Update?
  {
    if e.Create? then e.provision.Provisioned? else e.applied
  }

  /** Ports an event binds in a namespace: all it planned, or when it fails
      whichever of them its services came to hold. */
  ghost function Binds(s: State, e: Event, partial: set<int>, name: string): set<int> {
    if (e.Create? || e.Update?) && name == NamespaceFor(ShortId(e.id))
    then (if Worked(e) then Planned(s, e) else partial * Planned(s, e))
    else {}
  }

  function BoundIn(bound: Bound, name: string): set<int> { if name in bound then bound[name] else {} }

  /** Services last as long as their namespace. */
  ghost function BoundAfter(s: State, e: Event, partial: set<int>, bound: Bound): Bound {
    map name | name in Apply(s, e).namespaces :: BoundIn(bound, name) + Binds(s, e, partial, name)
  }

  // ---- every bound port is claimed

  ghost predicate Owns(s: State, id: Uuid, name: string, p: int) {
    LiveIn(s, id) && name == NamespaceFor(ShortId(id)) && p in PortsOf(s.rows[id])
  }

  /** Every bound port is one that the live row behind the namespace claims. */
  ghost predicate Backed(s: State, bound: Bound) {
    forall name, p :: name in bound && p in bound[name] ==> exists id :: Owns(s, id, name, p)
  }

  /** Then no two namespaces bind one port, and all lie in the window. */
  lemma BackedIsDisjoint(s: State, bound: Bound)
    requires Inv(s) && Backed(s, bound)
    ensures forall m, n :: m in bound && n in bound && m != n ==> bound[m] !! bound[n]
    ensures forall n, p :: n in bound && p in bound[n] ==> 20000 <= p <= 20399
  {
    LivePortsDisjoint(s);
    hide Inv, PortsOf;
    forall m, n, p | m in bound && n in bound && p in bound[m] && p in bound[n] ensures m == n {
      var a :| Owns(s, a, m, p);
      var b :| Owns(s, b, n, p);
      assert a == b;
    }
    forall n, p | n in bound && p in bound[n] ensures 20000 <= p <= 20399 {
      var a :| Owns(s, a, n, p);
    }
  }

  /** A request fails in the cluster after some of its ports were bound, and
      its namespace stays. */
  ghost predicate Strands(s: State, e: Event, partial: set<int>) {
    && (e.Create? || e.Update?) && !Worked(e) && (exists p :: p in partial && p in Planned(s, e))
    && (e.Create? ==> e.provision.FailedAfterNamespace? && !e.tornDown)
    && (e.Update? ==> HasNamespace(s, e.id))
  }

  lemma GrownPorts(before: Row, after: Row)
    requires Grown(before, after)
    ensures PortsOf(before) <= PortsOf(after)
  {
  }

  /** A bound port whose namespace outlasts the event keeps its owner. */
  lemma OwnerStays(s: State, e: Event, id: Uuid, name: string, p: int)
    requires Inv(s) && Enabled(s, e) && Owns(s, id, name, p) && name in Apply(s, e).namespaces
    ensures Owns(Apply(s, e), id, name, p)
  {
    RowIsIssued(s, id);
    assert e.Create? ==> id != e.id;
    hide Inv, Enabled, Apply, PortsOf, Leaks;
    StepLeftover(s, e, id);
    StepKeepsDeath(s, e, id);
    assert LiveIn(Apply(s, e), id);
    StepIsStable(s, e, id);
    GrownPorts(s.rows[id], Apply(s, e).rows[id]);
  }

  lemma SpreadOfFree(starts: seq<int>, held: set<int>, p: int)
    requires forall q :: q in starts ==> FreeStart(LIGHTNING_PORT_BASE, LIGHTNING_PORT_MAX, held, q)
    requires p in Spread(Elements(starts))
    ensures p !in held && LIGHTNING_PORT_BASE <= p
  {
    InSpread(Elements(starts), p);
    hide Spread;
    var start: int :| start in starts && start <= p <= start + 2;
    assert TripleFree(held, start);
  }

  lemma FirstTriplesAreFree(s: State, n: nat, p: int)
    requires n <= |FreeLightning(s)| && p in FirstTriples(s, n)
    ensures p !in HeldLightning(s) && LIGHTNING_PORT_BASE <= p
  {
    FreeStartsExact(LIGHTNING_PORT_BASE, LIGHTNING_PORT_MAX, HeldLightning(s));
    hide FreeStarts, HeldLightning, Spread, FreeStart;
    SpreadOfFree(FreeLightning(s)[..n], HeldLightning(s), p);
  }

  lemma ClaimedIsHeld(s: State, id: Uuid, p: int)
    requires Inv(s) && LiveIn(s, id) && p in PortsOf(s.rows[id]) && LIGHTNING_PORT_BASE <= p
    ensures p in HeldLightning(s)
  {
    PortHolder(s, id, p);
    hide Inv, PortsOf;
    var i :| HasInstance(s, id, i) && PortOf(s, id, i) == p - p % 3;
    assert p - p % 3 in HeldStarts(s);
    InSpread(HeldStarts(s), p);
    hide Spread;
    assert p % 3 == 0 || p % 3 == 1 || p % 3 == 2;
  }

  /** Recorded ports are claimed, each with its triple. */
  lemma ZipIsClaimed(row: Row, kept: map<string, int>, names: seq<string>, ports: seq<int>)
    requires Distinct(names) && |names| <= |ports| && row.instances == kept + Zip(names, ports)
    ensures Spread(Elements(ports[..|names|])) <= PortsOf(row)
  {
    ZipPorts(names, ports);
    hide Zip;
    var starts := ports[..|names|];
    forall p | p in Spread(Elements(starts)) ensures p in PortsOf(row) {
      InSpread(Elements(starts), p);
      var i :| 0 <= i < |starts| && starts[i] <= p <= starts[i] + 2;
      assert names[i] in row.instances && row.instances[names[i]] == starts[i];
    }
  }

  lemma CreateOutcome(s: State, e: Event)
    requires e.Create? && e.id !in s.rows && ReachesCluster(s, e) && e.provision.Provisioned? && !HasNamespace(s, e.id)
    ensures var s', names := CreateSpec(s, e), Names(e.request.lightning);
            && Distinct(names) && |names| == Wanted(s, e) && RowOf(s, e).instances == map[]
            && LiveIn(s', e.id) && s'.rows[e.id] == RowOf(s, e).(instances := Zip(names, FreeLightning(s)))
  {
    CreateCases(s, e);
    hide FreeLightning, Zip, CreateSpec, PurgeName, ShortId;
  }

  lemma CreatedClaimsPlan(s: State, e: Event)
    requires e.Create? && e.id !in s.rows && ReachesCluster(s, e) && e.provision.Provisioned? && !HasNamespace(s, e.id)
    ensures LiveIn(CreateSpec(s, e), e.id) && Planned(s, e) <= PortsOf(CreateSpec(s, e).rows[e.id])
  {
    hide FreeLightning, Zip, CreateSpec, Admitted, ClearTriples, Planned, Wanted, RowOf, PortsOf, FirstTriples;
    var names, free, row := Names(e.request.lightning), FreeLightning(s), RowOf(s, e);
    CreateOutcome(s, e);
    CreatePlan(s, e);
    assert Zip(names, free) == map[] + Zip(names, free);
    ZipIsClaimed(row.(instances := Zip(names, free)), map[], names, free);
    FirstTriplesAre(s, |names|);
    MoreInstances(row, Zip(names, free));
  }

  lemma CreatePlan(s: State, e: Event)
    requires e.Create? && ReachesCluster(s, e)
    ensures Planned(s, e) == PortsOf(RowOf(s, e)) + FirstTriples(s, Wanted(s, e))
  {
    hide FirstTriples, PortsOf, RowOf, Wanted, ReachesCluster;
  }

  lemma FirstTriplesAre(s: State, n: nat)
    requires n <= |FreeLightning(s)|
    ensures FirstTriples(s, n) == Spread(Elements(FreeLightning(s)[..n]))
  {
    hide FreeLightning, Spread;
  }

  lemma MoreInstances(row: Row, instances: map<string, int>)
    requires row.instances == map[]
    ensures PortsOf(row) <= PortsOf(row.(instances := instances))
  {
  }

  lemma UpdateOutcome(s: State, e: Event)
    requires UpdateReaches(s, e) && e.applied
    ensures var row, names := s.rows[e.id], Names(Additions(s.rows[e.id], e.lightning));
            && Distinct(names) && |names| == Wanted(s, e)
            && UpdateSpec(s, e) == SetInstances(s, e.id, row.instances + Zip(names, FreeLightning(s)))
  {
    ValidIsProper(e.lightning);
    RequestedAreNames(e.lightning);
    PoolIsClear(s);
    UpdatedExactly(s, e);
    hide ProperList, Requested, ClearTriples, FreeLightning, Zip, ValidInstances, Additions;
    AdditionsCounted(s.rows[e.id], e.lightning);
  }

  lemma UpdatedClaimsPlan(s: State, e: Event)
    requires UpdateReaches(s, e) && e.applied
    ensures LiveIn(UpdateSpec(s, e), e.id) && Planned(s, e) <= PortsOf(UpdateSpec(s, e).rows[e.id])
  {
    var row, names, free := s.rows[e.id], Names(Additions(s.rows[e.id], e.lightning)), FreeLightning(s);
    UpdateOutcome(s, e);
    assert Planned(s, e) == FirstTriples(s, |names|);
    assert LiveIn(s, e.id);
    hide FreeLightning, Zip, UpdateSpec, UpdateReaches, Planned, Wanted;
    ZipIsClaimed(row.(instances := row.instances + Zip(names, free)), row.instances, names, free);
  }

  lemma FailedUpdateChangesNothing(s: State, e: Event)
    requires e.Update? && LiveIn(s, e.id) && HasNamespace(s, e.id) && !e.applied
    ensures UpdateSpec(s, e) == s
  {
    hide ValidInstances, FreeLightning, Zip;
  }

  /** What an event newly binds is claimed by its own live row, unless it
      strands ports; then no live row claims those. */
  lemma BindsAreClaimed(s: State, e: Event, partial: set<int>, name: string, p: int)
    requires Inv(s) && Enabled(s, e) && name in Apply(s, e).namespaces && p in Binds(s, e, partial, name)
    ensures Owns(Apply(s, e), e.id, name, p) <==> !Strands(s, e, partial)
  {
    if e.Create? {
      FreshIdUnused(s, e.id);
      hide Inv, Enabled;
      CreateEffect(s, e);
      if ReachesCluster(s, e) && Worked(e) {
        CreatedClaimsPlan(s, e);
      }
      hide CreateSpec, ReachesCluster, PortsOf;
    } else {
      BoundByUpdate(s, e, partial, name, p);
    }
  }

  lemma BoundByUpdate(s: State, e: Event, partial: set<int>, name: string, p: int)
    requires Inv(s) && e.Update? && name in UpdateSpec(s, e).namespaces && p in Binds(s, e, partial, name)
    ensures Owns(UpdateSpec(s, e), e.id, name, p) <==> !Strands(s, e, partial)
  {
    RequestEffect(s, e, e.id);
    assert UpdateReaches(s, e) && p in FirstTriples(s, Wanted(s, e));
    if e.applied {
      UpdatedClaimsPlan(s, e);
    } else {
      FailedUpdateChangesNothing(s, e);
      FirstTriplesAreFree(s, Wanted(s, e), p);
      if p in PortsOf(s.rows[e.id]) {
        ClaimedIsHeld(s, e.id, p);
      }
    }
    hide Inv, UpdateSpec, UpdateReaches, PortsOf, Planned;
  }

  /** One event keeps every bound port claimed exactly when it strands none. */
  lemma StepBacked(s: State, e: Event, partial: set<int>, bound: Bound)
    requires Inv(s) && Enabled(s, e) && Backed(s, bound)
    ensures Backed(Apply(s, e), BoundAfter(s, e, partial, bound)) <==> !Strands(s, e, partial)
  {
    var s', after := Apply(s, e), BoundAfter(s, e, partial, bound);
    StepInv(s, e);
    hide Inv, Enabled, Apply, PortsOf, Binds, Planned;
    if !Strands(s, e, partial) {
      forall name, p | name in after && p in after[name] ensures exists id :: Owns(s', id, name, p) {
        if p in Binds(s, e, partial, name) {
          assert e.Create? || e.Update? by { BindsOnlyOwn(s, e, partial, name, p); }
          BindsAreClaimed(s, e, partial, name, p);
        } else {
          var id :| Owns(s, id, name, p);
          OwnerStays(s, e, id, name, p);
        }
      }
    } else {
      var name, p := StrandedPort(s, e, partial);
      BindsAreClaimed(s, e, partial, name, p);
      if Backed(s', after) {
        assert p in after[name];
        var id :| Owns(s', id, name, p);
        OneOwner(s', id, e.id, name, p);
      }
    }
  }

  lemma BindsOnlyOwn(s: State, e: Event, partial: set<int>, name: string, p: int)
    requires p in Binds(s, e, partial, name)
    ensures (e.Create? || e.Update?) && name == NamespaceFor(ShortId(e.id))
  {
  }

  lemma PlannedOnlyWhenReached(s: State, e: Event, p: int)
    requires p in Planned(s, e)
    ensures if e.Create? then ReachesCluster(s, e) else UpdateReaches(s, e)
  {
    hide ReachesCluster, UpdateGoesThrough, PortsOf;
    assert Elements(FreeLightning(s)[..0]) == {};
  }

  lemma StrandKeepsNamespace(s: State, e: Event)
    requires Inv(s) && Enabled(s, e)
    requires e.Create? ==> ReachesCluster(s, e) && e.provision.FailedAfterNamespace? && !e.tornDown
    requires !e.Create? ==> UpdateReaches(s, e) && HasNamespace(s, e.id)
    ensures NamespaceFor(ShortId(e.id)) in Apply(s, e).namespaces && e.id in Apply(s, e).issued
  {
    if e.Create? {
      FreshIdUnused(s, e.id);
      hide Inv, Enabled;
      CreateEffect(s, e);
      hide CreateSpec, Admitted, FreeLightning;
    } else {
      RowIsIssued(s, e.id);
      hide Inv, UpdateGoesThrough;
      RequestEffect(s, e, e.id);
    }
  }

  lemma StrandedPort(s: State, e: Event, partial: set<int>) returns (name: string, p: int)
    requires Inv(s) && Enabled(s, e) && Strands(s, e, partial)
    ensures name in Apply(s, e).namespaces && p in Binds(s, e, partial, name) && name == NamespaceFor(ShortId(e.id))
    ensures e.id in Apply(s, e).issued
  {
    hide Inv, Enabled, Apply, Planned, ReachesCluster, UpdateReaches;
    name := NamespaceFor(ShortId(e.id));
    p :| p in partial && p in Planned(s, e);
    PlannedOnlyWhenReached(s, e, p);
    StrandKeepsNamespace(s, e);
  }

  lemma OneOwner(s: State, a: Uuid, b: Uuid, name: string, p: int)
    requires Inv(s) && Owns(s, a, name, p) && name == NamespaceFor(ShortId(b)) && b in s.issued
    ensures a == b
  {
    SameNamespace(a, b);
    RowIsIssued(s, a);
  }

  // ---- whole runs

  /** The bound ports along a run; `partials` says what each failed request left. */
  ghost predicate IsBoundRun(states: seq<State>, events: seq<Event>, partials: seq<set<int>>, bounds: seq<Bound>) {
    && IsRun(states, events) && |partials| == |events| && |bounds| == |states| && bounds[0] == map[]
    && forall i :: 0 <= i < |events| ==> bounds[i + 1] == BoundAfter(states[i], events[i], partials[i], bounds[i])
  }

  lemma {:induction false} BackedWithoutStrands(states: seq<State>, events: seq<Event>, partials: seq<set<int>>, bounds: seq<Bound>, i: nat)
    requires IsBoundRun(states, events, partials, bounds) && i < |states|
    requires forall k :: 0 <= k < i ==> !Strands(states[k], events[k], partials[k])
    ensures Backed(states[i], bounds[i])
  {
    if i > 0 {
      hide Inv, Enabled, Apply, BoundAfter, Strands, Backed;
      BackedWithoutStrands(states, events, partials, bounds, i - 1);
      RunInv(states, events, i - 1);
      StepBacked(states[i - 1], events[i - 1], partials[i - 1], bounds[i - 1]);
    }
  }

  /** Throughout a run every bound port is claimed by the live row behind its
      namespace exactly when no request in it strands ports. */
  lemma RunBacked(states: seq<State>, events: seq<Event>, partials: seq<set<int>>, bounds: seq<Bound>)
    requires IsBoundRun(states, events, partials, bounds)
    ensures (forall i :: 0 <= i < |states| ==> Backed(states[i], bounds[i]))
       <==> (forall k :: 0 <= k < |events| ==> !Strands(states[k], events[k], partials[k]))
  {
    hide Inv, Enabled, Apply, BoundAfter, Strands, Backed;
    if forall i :: 0 <= i < |states| ==> Backed(states[i], bounds[i]) {
      forall k | 0 <= k < |events| ensures !Strands(states[k], events[k], partials[k]) {
        RunInv(states, events, k);
        assert Backed(states[k + 1], bounds[k + 1]);
        StepBacked(states[k], events[k], partials[k], bounds[k]);
      }
    }
    if forall k :: 0 <= k < |events| ==> !Strands(states[k], events[k], partials[k]) {
      forall i | 0 <= i < |states| ensures Backed(states[i], bounds[i]) {
        BackedWithoutStrands(states, events, partials, bounds, i);
      }
    }
  }

  // ---- stranded ports are handed out again

  lemma PrefixSpread(ports: seq<int>, m: nat, n: nat)
    requires m <= n <= |ports|
    ensures Spread(Elements(ports[..m])) <= Spread(Elements(ports[..n]))
  {
    assert ports[..m] == ports[..n][..m];
    assert Elements(ports[..m]) <= Elements(ports[..n]);
    forall p | p in Spread(Elements(ports[..m])) ensures p in Spread(Elements(ports[..n])) {
      InSpread(Elements(ports[..m]), p);
      InSpread(Elements(ports[..n]), p);
    }
  }

  /** An update that strands ports leaves the database as it was, so the next
      event that wants at least as many triples plans all of them again, for
      whichever environment it serves. */
  lemma StrandedIsPlannedAgain(s: State, e: Event, partial: set<int>, next: Event)
    requires e.Update? && Strands(s, e, partial) && Wanted(s, e) <= Wanted(s, next)
    ensures Apply(s, e) == s && partial * Planned(s, e) <= Planned(Apply(s, e), next)
  {
    var p :| p in partial && p in Planned(s, e);
    PlannedOnlyWhenReached(s, e, p);
    FailedUpdateChangesNothing(s, e);
    PrefixSpread(FreeLightning(s), Wanted(s, e), Wanted(s, next));
    hide FreeLightning, Wanted, UpdateReaches, UpdateSpec, Spread;
  }

  /** When that next request works for another environment, one port is bound
      in two namespaces. */
  lemma StrandedIsBoundTwice(s: State, e: Event, partial: set<int>, bound: Bound, next: Event, rest: set<int>)
    requires e.Update? && Strands(s, e, partial) && next.Update? && UpdateReaches(s, next) && next.applied
    requires Wanted(s, e) <= Wanted(s, next) && HasNamespace(s, next.id)
    ensures var once := BoundAfter(s, e, partial, bound);
            var twice := BoundAfter(Apply(s, e), next, rest, once);
            forall p :: p in partial * Planned(s, e) ==>
              && p in BoundIn(twice, NamespaceFor(ShortId(e.id)))
              && p in BoundIn(twice, NamespaceFor(ShortId(next.id)))
  {
    hide Apply, Planned, Wanted, UpdateReaches, BoundAfter;
    StrandedIsPlannedAgain(s, e, partial, next);
    RequestEffect(s, next, next.id);
    var once := BoundAfter(s, e, partial, bound);
    forall p | p in partial * Planned(s, e)
      ensures p in BoundIn(BoundAfter(s, next, rest, once), NamespaceFor(ShortId(e.id)))
      ensures p in BoundIn(BoundAfter(s, next, rest, once), NamespaceFor(ShortId(next.id)))
    {
      BoundStays(s, e, partial, bound, p, NamespaceFor(ShortId(e.id)));
      BoundStays(s, next, rest, once, p, NamespaceFor(ShortId(e.id)));
      BoundStays(s, next, rest, once, p, NamespaceFor(ShortId(next.id)));
    }
  }

  lemma BoundStays(s: State, e: Event, partial: set<int>, bound: Bound, p: int, name: string)
    requires name in Apply(s, e).namespaces && (p in BoundIn(bound, name) || p in Binds(s, e, partial, name))
    ensures p in BoundIn(BoundAfter(s, e, partial, bound), name)
  {
    hide Apply, Binds;
  }
}
