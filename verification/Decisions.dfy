/** Decision tables: what every request and every reaper pass does to the whole
    state, in terms of statuses, the namespace's presence and the cluster's answers. */
module Decisions {
  import opened Registry
  import opened Invariants

  predicate Asked(e: Event) { e.Get? || e.Transition? }

  /** The status a get, stop or start leaves a row with. A stop needs a ready
      environment and a start a stopped one; a live row found without its
      namespace is expired first; dead rows stay what they are. */
  function NextStatus(e: Event, before: Status, present: bool): Status
    requires Asked(e)
  {
    match (before, e.checked && !present)
    case (Destroyed, _) => Destroyed
    case (Expired, _) => Expired
    case (_, true) => Expired
    case (Provisioning, false) => if e.Get? && e.coreReady then Ready else Provisioning
    case (Ready, false) => if e.Transition? && e.kind == Stop && e.scaled then Stopped else Ready
    case (Stopped, false) => if e.Transition? && e.kind == Start && e.scaled then Provisioning else Stopped
  }

  /** A get, stop or start gives its row that status and touches nothing else. */
  lemma RequestExactly(s: State, e: Event)
    requires Asked(e)
    ensures e.id !in s.rows ==> Apply(s, e) == s
    ensures e.id in s.rows ==>
      Apply(s, e) == s.(rows := s.rows[e.id := s.rows[e.id].(
        status := NextStatus(e, s.rows[e.id].status, "env-" + e.id[..12] in s.namespaces))])
  {
    if e.id in s.rows {
      assert s.rows[e.id := s.rows[e.id].(status := s.rows[e.id].status)] == s.rows;
    }
  }

  /** A destroy that the cluster accepts takes the namespace away and leaves the
      row destroyed, whatever it was; any other changes nothing. */
  lemma DestroyExactly(s: State, e: Event)
    requires e.Destroy?
    ensures !e.tornDown || e.id !in s.rows ==> Apply(s, e) == s
    ensures e.tornDown && e.id in s.rows ==>
      Apply(s, e) == State(s.rows[e.id := s.rows[e.id].(status := Destroyed)],
                           s.namespaces - {"env-" + e.id[..12]}, s.issued)
  {
  }

  /** A delete removes exactly the expired or destroyed row it names. */
  lemma DeleteExactly(s: State, e: Event)
    requires e.Delete?
    ensures e.id in s.rows && (s.rows[e.id].status == Expired || s.rows[e.id].status == Destroyed) ==>
      Apply(s, e) == s.(rows := s.rows - {e.id})
    ensures e.id !in s.rows || !(s.rows[e.id].status == Expired || s.rows[e.id].status == Destroyed) ==> Apply(s, e) == s
    ensures e.id in s.rows ==> (e.id !in Apply(s, e).rows <==> !LiveIn(s, e.id))
  {
  }

  /** An update leaves every other row, and every namespace, alone; of its own row
      it changes nothing but the instances and, when the namespace is found
      gone, the status. */
  lemma UpdateFrame(s: State, e: Event)
    requires e.Update?
    ensures Apply(s, e).namespaces == s.namespaces && Apply(s, e).issued == s.issued
    ensures Apply(s, e).rows.Keys == s.rows.Keys
    ensures forall a :: a in s.rows && a != e.id ==> Apply(s, e).rows[a] == s.rows[a]
    ensures e.id in s.rows ==>
      var row, after := s.rows[e.id], Apply(s, e).rows[e.id];
      && after.(status := row.status, instances := row.instances) == row
      && after.status == (if e.checked && "env-" + e.id[..12] !in s.namespaces
                             && row.status != Expired && row.status != Destroyed
                          then Expired else row.status)
  {
    hide UpdatedInstances;
  }

  // ---- the reaper

  /** Reaped: carrying the environment label, with a readable expiry strictly in
      the past, and deleted without error. */
  ghost predicate Goes(s: State, e: Event, name: string)
    requires e.Reap?
  {
    && name in s.namespaces && s.namespaces[name].labelled && s.namespaces[name].expiresAt.Some?
    && s.namespaces[name].expiresAt.value < e.now && name !in e.failedDeletes
  }

  /** A pass removes exactly those namespaces, whether or not a live row stands
      behind them, and leaves the others as they were. It expires exactly the
      rows, other than destroyed ones, whose short id is what is left of such a
      name without its prefixes and whose row update works; nothing else of any
      row changes, and no row goes. */
  lemma ReapExactly(s: State, e: Event, name: string, id: Uuid)
    requires e.Reap?
    ensures var t := Apply(s, e);
            && (name in t.namespaces <==> name in s.namespaces && !Goes(s, e, name))
            && (name in t.namespaces ==> t.namespaces[name] == s.namespaces[name])
            && t.issued == s.issued && (id in t.rows <==> id in s.rows)
    ensures id in s.rows ==>
      Apply(s, e).rows[id] ==
        if s.rows[id].status != Destroyed
           && exists n: string, k: nat :: Goes(s, e, n) && n !in e.failedMarks && n == Repeated(k, id[..12])
        then s.rows[id].(status := Expired) else s.rows[id]
  {
    forall n: string ensures TrimEnv(n) == ShortId(id) <==> exists k: nat :: n == Repeated(k, ShortId(id)) {
      TrimEnvExact(n, id);
    }
    forall n: string ensures n in Reaped(s, e.now, e.failedDeletes) <==> Goes(s, e, n) {
    }
    hide TrimEnv, Repeated, Goes, Reaped;
    if id in s.rows {
      if MarkedBy(Reaped(s, e.now, e.failedDeletes) - e.failedMarks, id) {
        var n :| n in Reaped(s, e.now, e.failedDeletes) - e.failedMarks && TrimEnv(n) == ShortId(id);
        var k: nat :| n == Repeated(k, ShortId(id));
        assert Goes(s, e, n) && n !in e.failedMarks && n == Repeated(k, id[..12]);
      }
      if n: string, k: nat :| Goes(s, e, n) && n !in e.failedMarks && n == Repeated(k, id[..12]) {
        assert TrimEnv(n) == ShortId(id);
        assert n in Reaped(s, e.now, e.failedDeletes) - e.failedMarks;
      }
    }
  }
}
