/** A run in which a failed update leads to one host port bound in two namespaces. */
module StrandedRun {
  import opened Prelude
  import opened PortPool
  import opened Registry
  import opened Invariants
  import opened Runs
  import opened Admission
  import opened SharedIds
  import opened Occupancy

  const OTHER: Uuid := "10000000000000000000000000000000"

  function Adding(id: Uuid, applied: bool): Event { Update(id, true, [Instance("alice", Lnd)], true, applied) }

  const ONE := State(map[FIRST := PlainRow("first", Ready)], map[Home(FIRST) := UNLIMITED], {FIRST})
  const BOTH := State(map[FIRST := PlainRow("first", Ready), OTHER := PlainRow("other", Ready)],
                      map[Home(FIRST) := UNLIMITED, Home(OTHER) := UNLIMITED], {FIRST, OTHER})

  lemma Apart()
    ensures ShortId(FIRST) != ShortId(OTHER) && FIRST != OTHER && Home(FIRST) != Home(OTHER)
  {
    assert ShortId(FIRST)[0] != ShortId(OTHER)[0];
    SameNamespace(FIRST, OTHER);
  }

  lemma FreshAt(s: State, id: Uuid)
    requires id !in s.issued
    requires forall name :: name in s.namespaces ==> exists a :: a in s.issued && name == Home(a)
    requires forall a :: a in s.issued ==> ShortId(a) != ShortId(id)
    ensures FreshId(s, id) && !HasNamespace(s, id)
  {
    forall name | name in s.namespaces ensures TrimEnv(name) != ShortId(id) {
      var a :| a in s.issued && name == Home(a);
      ShortIdIsHex(a);
    }
    if HasNamespace(s, id) {
      ShortIdIsHex(id);
    }
  }

  /** A create that asks for no ports and a poll add a ready environment. */
  lemma JoinsReady(s: State, id: Uuid, name: string)
    requires id !in s.rows && !HasNamespace(s, id) && forall a :: a in s.rows ==> s.rows[a].name != name
    ensures Apply(Apply(s, Plain(id, name)), Event.Get(id, true, true)) ==
      State(s.rows[id := PlainRow(name, Ready)], s.namespaces[Home(id) := UNLIMITED], s.issued + {id})
  {
    PlainCreate(s, id, name);
    hide CreateSpec, ShortId;
    var joined := State(s.rows[id := PlainRow(name, Provisioning)], s.namespaces[Home(id) := UNLIMITED], s.issued + {id});
    assert Apply(joined, Event.Get(id, true, true)) == SetStatus(joined, id, Ready);
    assert SetStatus(joined, id, Ready).rows == s.rows[id := PlainRow(name, Ready)];
  }

  lemma ReachesOne()
    ensures Enabled(INITIAL, Plain(FIRST, "first"))
    ensures Apply(Apply(INITIAL, Plain(FIRST, "first")), Event.Get(FIRST, true, true)) == ONE
  {
    FreshAt(INITIAL, FIRST);
    JoinsReady(INITIAL, FIRST, "first");
    hide Apply, FreshId, ShortId;
    assert INITIAL.issued + {FIRST} == ONE.issued;
  }

  lemma ReachesBoth()
    ensures Enabled(ONE, Plain(OTHER, "other"))
    ensures Apply(Apply(ONE, Plain(OTHER, "other")), Event.Get(OTHER, true, true)) == BOTH
  {
    Apart();
    assert Home(FIRST) in ONE.namespaces && FIRST in ONE.issued;
    hide ShortId, FreshId, Apply;
    FreshAt(ONE, OTHER);
    assert "first"[0] != "other"[0];
    JoinsReady(ONE, OTHER, "other");
    assert ONE.issued + {OTHER} == BOTH.issued;
    assert ONE.rows[OTHER := PlainRow("other", Ready)] == BOTH.rows;
    assert ONE.namespaces[Home(OTHER) := UNLIMITED] == BOTH.namespaces;
  }

  lemma NothingHeld()
    ensures |FreeLightning(BOTH)| == 66 && FreeLightning(BOTH)[0] == 20202
  {
    assert HeldStarts(BOTH) == {};
    assert HeldLightning(BOTH) == {};
    ShippedCapacity();
  }

  /** Both updates want one triple, and plan the same one. */
  lemma WantsOne(id: Uuid, applied: bool)
    requires id == FIRST || id == OTHER
    ensures UpdateReaches(BOTH, Adding(id, applied)) && Wanted(BOTH, Adding(id, applied)) == 1
    ensures 20202 in Planned(BOTH, Adding(id, applied)) && HasNamespace(BOTH, id)
  {
    NothingHeld();
    hide FreeLightning;
    var lightning := [Instance("alice", Lnd)];
    assert Names(lightning) == ["alice"];
    assert Elements(Names(lightning)) == {"alice"};
    assert ProperList(lightning);
    RequestedAreNames(lightning);
    PoolIsClear(BOTH);
    assert Requested(lightning) - BOTH.rows[id].instances.Keys == {"alice"};
    assert UpdateReaches(BOTH, Adding(id, applied));
    assert FreeLightning(BOTH)[..1] == [20202];
    InSpread(Elements(FreeLightning(BOTH)[..1]), 20202);
  }

  datatype Trace = Trace(states: seq<State>, events: seq<Event>, partials: seq<set<int>>, bounds: seq<Bound>)

  ghost predicate Real(t: Trace) { IsBoundRun(t.states, t.events, t.partials, t.bounds) }

  function Now(t: Trace): State
    requires |t.states| > 0
  {
    t.states[|t.states| - 1]
  }

  function BoundNow(t: Trace): Bound
    requires |t.bounds| > 0
  {
    t.bounds[|t.bounds| - 1]
  }

  const START := Trace([INITIAL], [], [], [map[]])

  lemma Then(t: Trace, e: Event, partial: set<int>) returns (t': Trace)
    requires Real(t) && |t.states| > 0 && |t.bounds| > 0 && Enabled(Now(t), e)
    ensures Real(t') && |t'.events| == |t.events| + 1 && |t'.states| > 0 && |t'.bounds| > 0 && Now(t') == Apply(Now(t), e)
    ensures BoundNow(t') == BoundAfter(Now(t), e, partial, BoundNow(t))
  {
    hide Enabled, Apply, BoundAfter;
    t' := Trace(t.states + [Apply(Now(t), e)], t.events + [e], t.partials + [partial],
                t.bounds + [BoundAfter(Now(t), e, partial, BoundNow(t))]);
  }

  lemma Starts()
    ensures Real(START) && |START.events| == 0 && |START.states| == |START.bounds| == 1 && Now(START) == INITIAL
  {
  }

  lemma BothTrace() returns (t: Trace)
    ensures Real(t) && |t.events| == 4 && |t.bounds| > 0 && |t.states| > 0 && Now(t) == BOTH
  {
    hide *;
    Starts();
    ReachesOne();
    ReachesBoth();
    PollsAreEnabled(Apply(INITIAL, Plain(FIRST, "first")), FIRST);
    PollsAreEnabled(Apply(ONE, Plain(OTHER, "other")), OTHER);
    t := Then(START, Plain(FIRST, "first"), {});
    t := Then(t, Event.Get(FIRST, true, true), {});
    t := Then(t, Plain(OTHER, "other"), {});
    t := Then(t, Event.Get(OTHER, true, true), {});
  }

  lemma PollsAreEnabled(s: State, id: Uuid)
    ensures Enabled(s, Event.Get(id, true, true))
  {
  }

  const FAILING := Adding(FIRST, false)
  const WORKING := Adding(OTHER, true)

  /** What the two updates do to two ready environments. */
  lemma TwoUpdates(bound: Bound)
    ensures Enabled(BOTH, FAILING) && Enabled(BOTH, WORKING) && Apply(BOTH, FAILING) == BOTH
    ensures var twice := BoundAfter(BOTH, WORKING, {}, BoundAfter(BOTH, FAILING, {20202}, bound));
            20202 in BoundIn(twice, Home(FIRST)) && 20202 in BoundIn(twice, Home(OTHER))
  {
    hide Apply, Planned, Wanted, UpdateReaches, BoundAfter, ShortId, Strands;
    WantsOne(FIRST, false);
    WantsOne(OTHER, true);
    FailingStrands();
    StrandedIsPlannedAgain(BOTH, FAILING, {20202}, WORKING);
    StrandedIsBoundTwice(BOTH, FAILING, {20202}, bound, WORKING, {});
  }

  lemma FailingStrands()
    ensures Strands(BOTH, FAILING, {20202}) && 20202 in {20202} * Planned(BOTH, FAILING)
  {
    hide Planned, ShortId;
    WantsOne(FIRST, false);
  }

  /** The first environment's update fails with its port bound; the second's
      then works, and binds that port too. */
  lemma BoundTwiceRun() returns (t: Trace)
    ensures Real(t) && |t.events| == 6 && |t.bounds| > 0 && Home(FIRST) != Home(OTHER)
    ensures 20202 in BoundIn(BoundNow(t), Home(FIRST)) && 20202 in BoundIn(BoundNow(t), Home(OTHER))
  {
    hide *;
    Apart();
    t := BothTrace();
    TwoUpdates(BoundNow(t));
    t := Then(t, FAILING, {20202});
    t := Then(t, WORKING, {});
  }
}
