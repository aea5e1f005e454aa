/** Namespaces that outlive their environment and environments that outlive
    their namespace, with the exact histories behind each. */
module Leftovers {
  import opened Registry
  import opened Invariants
  import opened Runs
  import opened LifecycleTheorems
  import opened Admission
  import opened Creation

  // ---- namespaces without an environment

  /** A dead or purged environment whose namespace is still there. */
  ghost predicate Leftover(s: State, id: Uuid) {
    id in s.issued && !LiveIn(s, id) && HasNamespace(s, id)
  }

  /** A create whose provisioning fails inside its namespace and whose teardown
      fails too. */
  ghost predicate Leaks(s: State, e: Event) {
    e.Create? && ReachesCluster(s, e) && e.provision.FailedAfterNamespace? && !e.tornDown
  }

  ghost predicate LeaksFor(s: State, e: Event, id: Uuid) { e.Create? && e.id == id && Leaks(s, e) }

  lemma CreateLeftover(s: State, e: Event, id: Uuid)
    requires Inv(s) && e.Create? && Enabled(s, e)
    ensures Leftover(CreateSpec(s, e), id) <==> LeaksFor(s, e, id) || (Leftover(s, id) && HasNamespace(CreateSpec(s, e), id))
    ensures id in s.issued && HasNamespace(CreateSpec(s, e), id) ==> HasNamespace(s, id)
  {
    assert !HasNamespace(s, e.id) by { ShortIdIsHex(e.id); }
    SameNamespace(id, e.id);
    assert id in s.issued ==> ShortId(id) != ShortId(e.id);
    assert e.id !in s.rows;
    hide *;
    CreateMoves(s, e, id);
  }

  lemma CreateMoves(s: State, e: Event, id: Uuid)
    requires e.Create? && e.id !in s.rows && e.id !in s.issued && !HasNamespace(s, e.id)
    requires id in s.issued ==> NamespaceFor(ShortId(id)) != NamespaceFor(ShortId(e.id))
    ensures Leftover(CreateSpec(s, e), id) <==> LeaksFor(s, e, id) || (Leftover(s, id) && HasNamespace(CreateSpec(s, e), id))
    ensures id in s.issued && HasNamespace(CreateSpec(s, e), id) ==> HasNamespace(s, id)
  {
    CreateEffect(s, e);
    if id != e.id {
      CreateTouches(s, e, id);
    }
    hide CreateSpec, ReachesCluster;
  }

  /** One event: what is left over afterwards was leaked by it, or was left over
      before and is still there. */
  lemma StepLeftover(s: State, e: Event, id: Uuid)
    requires Inv(s) && Enabled(s, e)
    ensures Leftover(Apply(s, e), id) <==> LeaksFor(s, e, id) || (Leftover(s, id) && HasNamespace(Apply(s, e), id))
    ensures id in s.issued && HasNamespace(Apply(s, e), id) ==> HasNamespace(s, id)
  {
    if e.Create? {
      CreateLeftover(s, e, id);
    } else if e.Reap? {
      ReapLeftover(s, e, id);
    } else {
      OtherLeftover(s, e, id);
    }
  }

  lemma ReapLeftover(s: State, e: Event, id: Uuid)
    requires Inv(s) && e.Reap?
    ensures Leftover(ReapSpec(s, e), id) <==> Leftover(s, id) && HasNamespace(ReapSpec(s, e), id)
    ensures HasNamespace(ReapSpec(s, e), id) ==> HasNamespace(s, id)
  {
    if LiveIn(s, id) {
      ReapIsExact(s, e, id);
    }
    hide Reaped;
  }

  /** A get, update, stop or start moves no namespace, and ends exactly an
      environment found to have none. */
  lemma RequestEffect(s: State, e: Event, id: Uuid)
    requires e.Get? || e.Update? || e.Transition?
    ensures Apply(s, e).namespaces == s.namespaces && Apply(s, e).issued == s.issued
    ensures LiveIn(Apply(s, e), id) <==> LiveIn(s, id) && (id == e.id && e.checked ==> HasNamespace(s, id))
  {
    hide UpdatedInstances, ShortId;
  }

  lemma OtherLeftover(s: State, e: Event, id: Uuid)
    requires Inv(s) && Enabled(s, e) && !e.Create? && !e.Reap?
    ensures Leftover(Apply(s, e), id) <==> Leftover(s, id) && HasNamespace(Apply(s, e), id)
    ensures id in s.issued && HasNamespace(Apply(s, e), id) ==> HasNamespace(s, id)
  {
    if e.Get? || e.Update? || e.Transition? {
      RequestEffect(s, e, id);
      hide Apply, Inv, Enabled;
    } else if e.Destroy? {
      hide Inv;
    } else {
      ShortIdIsHex(id);
      hide Inv;
    }
  }

  /** In any run, an environment is dead and yet has its namespace exactly when
      its own create leaked and the namespace has been there ever since. */
  lemma {:induction false} LeftoverHistory(states: seq<State>, events: seq<Event>, j: nat, id: Uuid)
    requires IsRun(states, events) && j < |states|
    ensures Leftover(states[j], id)
       <==> exists k: nat :: k < j && LeaksFor(states[k], events[k], id)
                             && forall m :: k < m <= j ==> HasNamespace(states[m], id)
    decreases j
  {
    hide Inv, Enabled, Apply, LeaksFor;
    if j > 0 {
      LeftoverHistory(states, events, j - 1, id);
      RunInv(states, events, j - 1);
      StepLeftover(states[j - 1], events[j - 1], id);
      if LeaksFor(states[j - 1], events[j - 1], id) {
        var k: nat := j - 1;
        assert Leftover(states[j], id);
        assert forall m :: k < m <= j ==> HasNamespace(states[m], id);
      }
    }
  }

  /** No dead record has cluster state. */
  ghost predicate DeadClean(s: State) { forall id :: !Leftover(s, id) }

  lemma StepDeadClean(s: State, e: Event)
    requires Inv(s) && Enabled(s, e) && DeadClean(s)
    ensures DeadClean(Apply(s, e)) <==> !Leaks(s, e)
  {
    hide Inv, Enabled, Apply, ReachesCluster;
    var s' := Apply(s, e);
    forall id ensures Leftover(s', id) <==> LeaksFor(s, e, id) {
      StepLeftover(s, e, id);
      assert !Leftover(s, id);
    }
    if Leaks(s, e) {
      assert LeaksFor(s, e, e.id);
      assert Leftover(s', e.id);
    } else {
      assert forall id :: !Leftover(s', id);
    }
  }

  lemma {:induction false} CleanWithoutLeaks(states: seq<State>, events: seq<Event>, i: nat)
    requires IsRun(states, events) && i < |states|
    requires forall k :: 0 <= k < i ==> !Leaks(states[k], events[k])
    ensures DeadClean(states[i])
  {
    if i > 0 {
      hide Inv, Enabled, Apply, Leaks, DeadClean;
      CleanWithoutLeaks(states, events, i - 1);
      RunInv(states, events, i - 1);
      StepDeadClean(states[i - 1], events[i - 1]);
    }
  }

  /** Dead records stay without cluster state throughout a run exactly when no
      create in it leaks. */
  lemma RunDeadClean(states: seq<State>, events: seq<Event>)
    requires IsRun(states, events)
    ensures (forall i :: 0 <= i < |states| ==> DeadClean(states[i]))
       <==> (forall k :: 0 <= k < |events| ==> !Leaks(states[k], events[k]))
  {
    hide Inv, Enabled, Apply, Leaks, DeadClean;
    if forall i :: 0 <= i < |states| ==> DeadClean(states[i]) {
      forall k | 0 <= k < |events| ensures !Leaks(states[k], events[k]) {
        RunInv(states, events, k);
        assert DeadClean(states[k + 1]);
        StepDeadClean(states[k], events[k]);
      }
    }
    if forall k :: 0 <= k < |events| ==> !Leaks(states[k], events[k]) {
      forall i | 0 <= i < |states| ensures DeadClean(states[i]) {
        CleanWithoutLeaks(states, events, i);
      }
    }
  }

  // ---- environments without a namespace

  /** The events that end an environment whose namespace is gone: a request that
      checks for the namespace, and a destroy that the cluster accepts. */
  predicate Ends(e: Event, id: Uuid) {
    match e
    case Get(a, checked, _) => a == id && checked
    case Update(a, checked, _, _, _) => a == id && checked
    case Transition(a, checked, _, _) => a == id && checked
    case Destroy(a, tornDown) => a == id && tornDown
    case _ => false
  }

  lemma StepGone(s: State, e: Event, id: Uuid)
    requires Inv(s) && Enabled(s, e) && LiveIn(s, id) && !HasNamespace(s, id)
    ensures LiveIn(Apply(s, e), id) <==> !Ends(e, id)
  {
    if e.Create? {
      assert id in s.issued && id != e.id;
      CreateTouches(s, e, id);
      hide CreateSpec, Inv, Enabled;
    } else if e.Reap? {
      ReapIsExact(s, e, id);
      hide Inv, ReapSpec;
    } else if e.Get? || e.Update? || e.Transition? {
      RequestEffect(s, e, id);
      hide Apply, Inv, Enabled;
    } else {
      hide Inv;
    }
  }

  /** A namespace that is gone never comes back, and its environment lives on
      exactly until the first event that ends it; it is never revived. */
  lemma {:induction false} GoneForGood(states: seq<State>, events: seq<Event>, i: nat, j: nat, id: Uuid)
    requires IsRun(states, events) && i <= j < |states| && LiveIn(states[i], id) && !HasNamespace(states[i], id)
    ensures !HasNamespace(states[j], id)
    ensures LiveIn(states[j], id) <==> forall k :: i <= k < j ==> !Ends(events[k], id)
    decreases j
  {
    hide Inv, Enabled, Apply, Ends;
    RunInv(states, events, i);
    RowIsIssued(states[i], id);
    if i < j {
      GoneForGood(states, events, i, j - 1, id);
      IssuedStays(states, events, i, j - 1, id);
      RunInv(states, events, j - 1);
      StepLeftover(states[j - 1], events[j - 1], id);
      if LiveIn(states[j - 1], id) {
        StepGone(states[j - 1], events[j - 1], id);
      } else {
        DeathIsFinal(states, events, j - 1, j, id);
      }
    }
  }
}
