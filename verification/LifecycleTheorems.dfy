/** Death, purge, port stability, reconciliation and reaping across runs. */
module LifecycleTheorems {
  import opened Ttl
  import opened Registry
  import opened Invariants
  import opened Runs

  // ---- death is final

  /** One event never revives an id whose row is dead or gone, and never drops
      the row of a live one. */
  lemma StepKeepsDeath(s: State, e: Event, id: Uuid)
    requires Inv(s) && Enabled(s, e) && id in s.issued
    ensures id in Apply(s, e).issued
    ensures !LiveIn(s, id) ==> !LiveIn(Apply(s, e), id)
    ensures id in s.rows && id !in Apply(s, e).rows ==> !LiveIn(s, id)
  {
    if e.Create? {
      CreateTouches(s, e, id);
    }
  }

  /** A create changes no other row than its own, beyond dropping a dead one. */
  lemma CreateTouches(s: State, e: Event, id: Uuid)
    requires e.Create? && id != e.id
    ensures s.issued <= CreateSpec(s, e).issued
    ensures id in CreateSpec(s, e).rows ==> id in s.rows && CreateSpec(s, e).rows[id] == s.rows[id]
    ensures id in s.rows && id !in CreateSpec(s, e).rows ==> !LiveIn(s, id)
  {
    hide ElectrumFor, ExplorerFor, ResolveExpiresAt, ValidInstances, NameLive, PurgeName, FinishCreate;
    var s1 := PurgeName(s, e.request.owner, e.request.name);
    PurgeTouches(s, e.request.owner, e.request.name, id);
    forall row { FinishTouches(InsertRow(s1, e.id, row), e, id); }
  }

  lemma PurgeTouches(s: State, owner: string, name: string, id: Uuid)
    ensures var s' := PurgeName(s, owner, name);
            && s'.issued == s.issued && (id in s'.rows ==> id in s.rows && s'.rows[id] == s.rows[id])
            && (id in s.rows && id !in s'.rows ==> !LiveIn(s, id))
  {
  }

  lemma FinishTouches(s: State, e: Event, id: Uuid)
    requires e.Create? && e.id in s.rows && id != e.id
    ensures var s' := FinishCreate(s, e);
            s'.issued == s.issued && (id in s'.rows <==> id in s.rows) && (id in s.rows ==> s'.rows[id] == s.rows[id])
  {
    hide FreeLightning, Zip, ShortId;
  }

  /** A dead or purged environment is not live in any later state of the run. */
  lemma {:induction false} DeathIsFinal(states: seq<State>, events: seq<Event>, i: nat, j: nat, id: Uuid)
    requires IsRun(states, events) && i <= j < |states|
    requires id in states[i].issued && !LiveIn(states[i], id)
    ensures id in states[j].issued && !LiveIn(states[j], id)
    decreases j
  {
    if i < j {
      DeathIsFinal(states, events, i, j - 1, id);
      RunInv(states, events, j - 1);
      StepKeepsDeath(states[j - 1], events[j - 1], id);
    }
  }

  /** A row that has disappeared between two states was dead before it went. */
  lemma {:induction false} OnlyDeadRowsArePurged(states: seq<State>, events: seq<Event>, i: nat, j: nat, id: Uuid) returns (k: nat)
    requires IsRun(states, events) && i <= j < |states|
    requires id in states[i].rows && id !in states[j].rows
    ensures i <= k < j && id in states[k].rows && !LiveIn(states[k], id)
    decreases j
  {
    hide Inv, Apply, Enabled;
    RunInv(states, events, i);
    RunInv(states, events, j - 1);
    if id in states[j - 1].rows {
      RowIsIssued(states[j - 1], id);
      StepKeepsDeath(states[j - 1], events[j - 1], id);
      k := j - 1;
    } else {
      k := OnlyDeadRowsArePurged(states, events, i, j - 1, id);
    }
  }

  // ---- ports and names are stable while an environment lives

  ghost predicate Grown(before: Row, after: Row) {
    && after.owner == before.owner && after.name == before.name && after.expiresAt == before.expiresAt
    && after.electrum == before.electrum && after.explorer == before.explorer
    && forall n :: n in before.instances ==> n in after.instances && after.instances[n] == before.instances[n]
  }

  lemma StepIsStable(s: State, e: Event, id: Uuid)
    requires Inv(s) && Enabled(s, e) && LiveIn(s, id) && LiveIn(Apply(s, e), id)
    ensures Grown(s.rows[id], Apply(s, e).rows[id])
  {
    RowIsIssued(s, id);
    assert e.Create? ==> id != e.id;
    hide Inv, Enabled, CreateSpec, UpdateSpec;
    if e.Create? {
      CreateTouches(s, e, id);
    } else if e.Update? {
      UpdateIsStable(s, e, id);
    } else {
      OtherStepIsStable(s, e, id);
    }
  }

  lemma OtherStepIsStable(s: State, e: Event, id: Uuid)
    requires !e.Create? && !e.Update? && id in s.rows && id in Apply(s, e).rows
    ensures Grown(s.rows[id], Apply(s, e).rows[id])
  {
    hide CreateSpec, UpdateSpec;
  }

  lemma UpdateIsStable(s: State, e: Event, id: Uuid)
    requires e.Update? && LiveIn(s, id) && id in UpdateSpec(s, e).rows
    ensures Grown(s.rows[id], UpdateSpec(s, e).rows[id])
  {
    hide FreeLightning, Zip, Additions, ShortId;
    var s1 := Reconcile(s, e.id, e.checked);
    if e.id in s1.rows && UpdatedInstances(s1, e.id, e).Some? {
      var row, additions := s1.rows[e.id], Additions(s1.rows[e.id], e.lightning);
      AdditionsAre(row, e.lightning);
      ZipPorts(Names(additions), FreeLightning(s1));
    }
  }

  /** While an environment is live, across any stops, starts and updates, its
      owner, name, expiry and ports stay, and no instance's port changes. */
  lemma {:induction false} LiveIsStable(states: seq<State>, events: seq<Event>, i: nat, j: nat, id: Uuid)
    requires IsRun(states, events) && i <= j < |states|
    requires LiveIn(states[i], id) && LiveIn(states[j], id)
    ensures Grown(states[i].rows[id], states[j].rows[id])
    decreases j
  {
    hide Inv, Apply, Enabled;
    if i < j {
      RunInv(states, events, i);
      RunInv(states, events, j - 1);
      RowIsIssued(states[i], id);
      if !LiveIn(states[j - 1], id) {
        IssuedStays(states, events, i, j - 1, id);
        DeathIsFinal(states, events, j - 1, j, id);
      }
      LiveIsStable(states, events, i, j - 1, id);
      StepIsStable(states[j - 1], events[j - 1], id);
    }
  }

  lemma RowIsIssued(s: State, id: Uuid)
    requires Inv(s) && id in s.rows
    ensures id in s.issued
  {
  }

  lemma {:induction false} IssuedStays(states: seq<State>, events: seq<Event>, i: nat, j: nat, id: Uuid)
    requires IsRun(states, events) && i <= j < |states| && id in states[i].issued
    ensures id in states[j].issued
    decreases j
  {
    if i < j {
      IssuedStays(states, events, i, j - 1, id);
      RunInv(states, events, j - 1);
      StepKeepsDeath(states[j - 1], events[j - 1], id);
    }
  }

  // ---- reconciliation

  /** A live row whose namespace is gone: after any get, update, stop or start of
      it the row is expired, unless the existence check failed, in which case
      the row is still live. */
  lemma GoneRowIsExpired(s: State, e: Event)
    requires e.Get? || e.Update? || e.Transition?
    requires LiveIn(s, e.id) && !HasNamespace(s, e.id)
    ensures LiveIn(Apply(s, e), e.id) <==> !e.checked
    ensures e.checked ==> Apply(s, e) == SetStatus(s, e.id, Expired)
  {
  }

  /** A live row that still has its namespace is never expired by these events. */
  lemma PresentRowIsKept(s: State, e: Event)
    requires e.Get? || e.Update? || e.Transition?
    requires LiveIn(s, e.id) && HasNamespace(s, e.id)
    ensures LiveIn(Apply(s, e), e.id)
  {
  }

  // ---- the status machine

  lemma ReapKeepsStatus(s: State, e: Event, id: Uuid)
    requires e.Reap? && LiveIn(s, id) && LiveIn(ReapSpec(s, e), id)
    ensures ReapSpec(s, e).rows[id].status == s.rows[id].status
  {
    hide Reaped, MarkedBy;
  }

  /** A live status turned into another one by an event about that row. */
  ghost predicate Moves(e: Event, id: Uuid, before: Status, after: Status) {
    || (before == Provisioning && after == Ready && e.Get? && e.id == id && e.coreReady)
    || (before == Ready && after == Stopped && e.Transition? && e.id == id && e.kind == Stop && e.scaled)
    || (before == Stopped && after == Provisioning && e.Transition? && e.id == id && e.kind == Start && e.scaled)
  }

  /** The only changes of a live row's status that keep it live, and what causes each. */
  lemma LiveTransitions(s: State, e: Event, id: Uuid)
    requires Inv(s) && Enabled(s, e) && LiveIn(s, id) && LiveIn(Apply(s, e), id)
    ensures var before, after := s.rows[id].status, Apply(s, e).rows[id].status;
            before != after ==> Moves(e, id, before, after)
  {
    RowIsIssued(s, id);
    assert e.Create? ==> id != e.id;
    hide Inv, Enabled, CreateSpec, ReapSpec, GetSpec, UpdateSpec, TransitionSpec, Moves;
    if e.Create? {
      CreateTouches(s, e, id);
    } else if e.Reap? {
      ReapKeepsStatus(s, e, id);
    } else if e.Get? || e.Update? || e.Transition? {
      RequestMoves(s, e, id);
    }
  }

  lemma RequestMoves(s: State, e: Event, id: Uuid)
    requires (e.Get? || e.Update? || e.Transition?) && LiveIn(s, id) && LiveIn(Apply(s, e), id)
    ensures var before, after := s.rows[id].status, Apply(s, e).rows[id].status;
            before != after ==> Moves(e, id, before, after)
  {
    hide UpdatedInstances, ShortId;
  }

  /** Stopping, starting and polling until the core answers gives back the very
      state of a ready environment: nothing is lost on the way. */
  lemma StopStartRoundTrip(s: State, id: Uuid, checks: (bool, bool, bool))
    requires LiveIn(s, id) && s.rows[id].status == Ready && HasNamespace(s, id)
    ensures var stopped := Apply(s, Transition(id, checks.0, Stop, true));
            var started := Apply(stopped, Transition(id, checks.1, Start, true));
            && stopped.rows[id].status == Stopped && started.rows[id].status == Provisioning
            && Apply(started, Get(id, checks.2, true)) == s
  {
    var stopped := Apply(s, Transition(id, checks.0, Stop, true));
    assert stopped == SetStatus(s, id, Stopped);
    var started := Apply(stopped, Transition(id, checks.1, Start, true));
    assert started == SetStatus(stopped, id, Provisioning);
    var ready := Apply(started, Get(id, checks.2, true));
    assert ready == SetStatus(started, id, Ready);
    assert ready.rows == s.rows;
  }

  /** A destroyed environment's ports are free again: no live row holds them. */
  lemma DestroyReleasesPorts(s: State, id: Uuid)
    requires Inv(s) && LiveIn(s, id)
    ensures var s' := Apply(s, Destroy(id, true));
            && !LiveIn(s', id) && !HasNamespace(s', id)
            && (s.rows[id].electrum.Some? ==> s.rows[id].electrum.value !in HeldElectrum(s'))
            && (s.rows[id].explorer.Some? ==> s.rows[id].explorer.value !in HeldExplorer(s'))
            && (forall n :: n in s.rows[id].instances ==> s.rows[id].instances[n] !in HeldStarts(s'))
  {
    var s' := Apply(s, Destroy(id, true));
    assert forall a :: LiveIn(s', a) ==> a != id && LiveIn(s, a) && s'.rows[a] == s.rows[a];
    forall n | n in s.rows[id].instances ensures s.rows[id].instances[n] !in HeldStarts(s') {
      assert HasInstance(s, id, n);
      forall p | p in HeldStarts(s') ensures p != PortOf(s, id, n) {
        var a, m :| a in s'.rows && IsLive(s'.rows[a].status) && m in s'.rows[a].instances && p == s'.rows[a].instances[m];
        assert HasInstance(s, a, m);
      }
    }
  }

  // ---- the reaper

  /** A pass removes exactly the labelled namespaces strictly past expiry whose
      deletion works, and a live row dies in it exactly when its own expiry has
      passed, its namespace was there, and neither the deletion nor the row
      update failed. */
  lemma ReapIsExact(s: State, e: Event, id: Uuid)
    requires Inv(s) && e.Reap? && LiveIn(s, id)
    ensures var own, s' := NamespaceFor(ShortId(id)), ReapSpec(s, e);
            && id in s'.rows
            && (HasNamespace(s, id) && !HasNamespace(s', id) <==>
                  HasNamespace(s, id) && s.rows[id].expiresAt.Some? && s.rows[id].expiresAt.value < e.now
                  && own !in e.failedDeletes)
            && (!LiveIn(s', id) <==> HasNamespace(s, id) && !HasNamespace(s', id) && own !in e.failedMarks)
            && (!LiveIn(s', id) ==> s'.rows[id].status == Expired)
  {
    var own := NamespaceFor(ShortId(id));
    var marks := Reaped(s, e.now, e.failedDeletes) - e.failedMarks;
    ShortIdIsHex(id);
    assert id in s.issued;
    assert MarkedBy(marks, id) <==> own in marks;
  }

  /** After a pass in which nothing failed, no live row has lost its namespace
      to it, and no live row with a namespace is past its expiry. */
  lemma CleanPassConverges(s: State, e: Event)
    requires Inv(s) && e.Reap? && e.failedDeletes == {} && e.failedMarks == {}
    ensures forall id :: LiveIn(ReapSpec(s, e), id) ==>
      && (HasNamespace(s, id) ==> HasNamespace(ReapSpec(s, e), id))
      && (HasNamespace(s, id) && s.rows[id].expiresAt.Some? ==> s.rows[id].expiresAt.value >= e.now)
  {
    forall id | LiveIn(ReapSpec(s, e), id)
      ensures (HasNamespace(s, id) ==> HasNamespace(ReapSpec(s, e), id))
           && (HasNamespace(s, id) && s.rows[id].expiresAt.Some? ==> s.rows[id].expiresAt.value >= e.now)
    {
      assert LiveIn(s, id);
      ReapIsExact(s, e, id);
    }
  }

  /** Unlabelled namespaces, those without a readable expiry and those not yet
      past it survive every pass. */
  lemma ReaperSpares(s: State, e: Event, name: string)
    requires e.Reap? && name in s.namespaces
    ensures name !in ReapSpec(s, e).namespaces ==>
      s.namespaces[name].labelled && s.namespaces[name].expiresAt.Some? && s.namespaces[name].expiresAt.value < e.now
    ensures name in ReapSpec(s, e).namespaces ==> ReapSpec(s, e).namespaces[name] == s.namespaces[name]
  {
  }

  /** Without the id assumption the reaper reaches too far: of two environments
      that share twelve digits, reaping the namespace expires both rows. */
  lemma SharedShortIdExpiresBoth(s: State, e: Event, a: Uuid, b: Uuid)
    requires e.Reap? && ShortId(a) == ShortId(b) && LiveIn(s, a) && LiveIn(s, b) && HasNamespace(s, a)
    requires PastDue(e.now, s.namespaces[NamespaceFor(ShortId(a))])
    requires NamespaceFor(ShortId(a)) !in e.failedDeletes + e.failedMarks
    ensures ReapSpec(s, e).rows[a].status == Expired && ReapSpec(s, e).rows[b].status == Expired
  {
    var own := NamespaceFor(ShortId(a));
    ShortIdIsHex(a);
    var marks := Reaped(s, e.now, e.failedDeletes) - e.failedMarks;
    assert own in marks;
    assert MarkedBy(marks, a) && MarkedBy(marks, b);
  }
}
