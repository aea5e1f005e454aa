/** What happens when two environments share the twelve digits their namespace
    is named after, as ids made within one millisecond do. */
module SharedIds {
  import opened Prelude
  import opened PortPool
  import opened Ttl
  import opened Registry
  import opened Invariants
  import opened Runs
  import opened LifecycleTheorems
  import opened Leftovers
  import opened Admission
  import opened Creation

  /** Events without the assumption on short ids: a created id is new, but its
      short id and even its namespace may be in use. */
  ghost predicate LooselyEnabled(s: State, e: Event) {
    match e
    case Create(id, _, _, _, _, _, _) =>
      id !in s.issued
      && forall name :: name in s.namespaces && TrimEnv(name) == ShortId(id) ==> name == NamespaceFor(ShortId(id))
    case NamespaceAppears(name, _) => forall id :: id in s.issued ==> TrimEnv(name) != ShortId(id)
    case _ => true
  }

  ghost predicate IsLooseRun(states: seq<State>, events: seq<Event>) {
    && |states| == |events| + 1 && states[0] == INITIAL
    && forall i :: 0 <= i < |events| ==>
         LooselyEnabled(states[i], events[i]) && states[i + 1] == Apply(states[i], events[i])
  }

  // ---- the create that meets a namespace in use

  /** A create whose namespace name is taken by a live environment dies, and its
      teardown takes the other environment's namespace with it; the next
      request that checks then expires the other environment. */
  lemma CollidingCreate(s: State, e: Event, a: Uuid, coreReady: bool)
    requires e.Create? && e.id !in s.rows && ReachesCluster(s, e)
    requires LiveIn(s, a) && HasNamespace(s, a) && ShortId(e.id) == ShortId(a)
    ensures var s' := CreateSpec(s, e);
            && e.id in s'.rows && s'.rows[e.id].status == Destroyed
            && LiveIn(s', a) && s'.rows[a] == s.rows[a]
            && (HasNamespace(s', a) <==> !e.tornDown)
            && (e.tornDown ==> Apply(s', Get(a, true, coreReady)).rows[a].status == Expired)
  {
    CreateCases(s, e);
    CreateTouches(s, e, a);
    hide FreeLightning, Zip, PurgeName, ElectrumFor, ExplorerFor, CreateSpec, Admitted, RowOf, ShortId;
  }

  // ---- two live environments on one short id

  /** A pass expires only rows whose own expiry has passed. */
  ghost predicate ExpiresOnlyDue(s: State, e: Event)
    requires e.Reap?
  {
    forall id :: LiveIn(s, id) && !LiveIn(ReapSpec(s, e), id) ==> RowDue(s, e.now, id)
  }

  predicate RowDue(s: State, now: int, id: Uuid)
    requires id in s.rows
  {
    s.rows[id].expiresAt.Some? && s.rows[id].expiresAt.value < now
  }

  /** The reaper takes the namespace for the environment's, and may delete it one day. */
  predicate Threatens(s: State, name: string, id: Uuid) {
    name in s.namespaces && TrimEnv(name) == ShortId(id) && s.namespaces[name].labelled && s.namespaces[name].expiresAt.Some?
  }

  /** Every live environment expires no later than any namespace taken for it. */
  ghost predicate RowsExpireFirst(s: State) {
    forall id, name :: LiveIn(s, id) && Threatens(s, name, id) ==>
      s.rows[id].expiresAt.Some? && s.rows[id].expiresAt.value <= s.namespaces[name].expiresAt.value
  }

  lemma MarkedRows(s: State, e: Event, id: Uuid)
    requires e.Reap? && LiveIn(s, id)
    ensures LiveIn(ReapSpec(s, e), id) <==> !MarkedBy(Reaped(s, e.now, e.failedDeletes) - e.failedMarks, id)
  {
    hide Reaped, MarkedBy;
  }

  /** In any state, no pass at any time and under any failures expires a row
      before its time exactly when the rows expire no later than the namespaces
      taken for them. */
  lemma OnlyDueExactly(s: State)
    ensures (forall now, deletes, marks :: ExpiresOnlyDue(s, Reap(now, deletes, marks))) <==> RowsExpireFirst(s)
  {
    if RowsExpireFirst(s) {
      forall now, deletes, marks ensures ExpiresOnlyDue(s, Reap(now, deletes, marks)) {
        DueWhenRowsFirst(s, Reap(now, deletes, marks));
      }
    }
    if forall now, deletes, marks :: ExpiresOnlyDue(s, Reap(now, deletes, marks)) {
      forall id, name | LiveIn(s, id) && Threatens(s, name, id)
        ensures s.rows[id].expiresAt.Some? && s.rows[id].expiresAt.value <= s.namespaces[name].expiresAt.value
      {
        var e := Reap(s.namespaces[name].expiresAt.value + 1, {}, {});
        assert ExpiresOnlyDue(s, e);
        ThreatStrikes(s, e, id, name);
      }
    }
  }

  lemma DueWhenRowsFirst(s: State, e: Event)
    requires e.Reap? && RowsExpireFirst(s)
    ensures ExpiresOnlyDue(s, e)
  {
    forall id | LiveIn(s, id) && !LiveIn(ReapSpec(s, e), id) ensures RowDue(s, e.now, id) {
      MarkedRows(s, e, id);
      var name :| name in Reaped(s, e.now, e.failedDeletes) - e.failedMarks && TrimEnv(name) == ShortId(id);
      assert Threatens(s, name, id);
    }
  }

  lemma ThreatStrikes(s: State, e: Event, id: Uuid, name: string)
    requires e.Reap? && e == Reap(e.now, {}, {}) && LiveIn(s, id) && Threatens(s, name, id)
    requires s.namespaces[name].expiresAt.value < e.now
    ensures !LiveIn(ReapSpec(s, e), id)
  {
    MarkedRows(s, e, id);
    assert name in Reaped(s, e.now, {}) - {};
  }

  /** With short ids unshared, every reachable state is safe in that sense. */
  lemma UnsharedIsSafe(s: State)
    requires Inv(s)
    ensures RowsExpireFirst(s)
  {
    forall id, name | LiveIn(s, id) && Threatens(s, name, id)
      ensures s.rows[id].expiresAt == s.namespaces[name].expiresAt
    {
      assert id in s.issued;
    }
  }

  // ---- such a state is reachable

  function Label(i: nat): string
    requires i < 100
  {
    [('a' as int + i / 10) as char, ('0' as int + i % 10) as char]
  }

  const MANY: seq<Instance> := seq(67, i requires 0 <= i < 67 => Instance(Label(i), Lnd))

  lemma ManyIsValid()
    ensures |MANY| == 67 && ValidInstances(MANY)
  {
    forall i, j | 0 <= i < j < 67 ensures Names(MANY)[i] != Names(MANY)[j] {
      assert Names(MANY)[i] == Label(i) && Names(MANY)[j] == Label(j);
      assert i / 10 != j / 10 || i % 10 != j % 10;
    }
  }

  const FIRST: Uuid := "00000000000000000000000000000000"
  const SECOND: Uuid := "00000000000000000000000000000001"

  function Asking(name: string, lightning: seq<Instance>, ttl: Option<int>): CreateRequest {
    CreateRequest("owner", name, false, false, lightning, true, ttl)
  }

  const FAR := 1_000_000 * TICKS_PER_SECOND

  /** Asks for more lightning than there is, without a lifetime. */
  const GREEDY := Create(FIRST, Asking("first", MANY, None), 0, FAR, true, Provisioned, true)

  /** Asks for nothing, for one second. */
  const BRIEF := Create(SECOND, Asking("second", [], Some(1)), 0, FAR, true, Provisioned, true)

  const ORPHAN := Row("owner", "first", Provisioning, None, None, None, map[])
  const SHARING := Row("owner", "second", Provisioning, None, None, Some(TICKS_PER_SECOND), map[])
  const ONE_LIVE := State(map[FIRST := ORPHAN], map[], {FIRST})
  const TWO_LIVE := State(map[FIRST := ORPHAN, SECOND := SHARING],
                          map[NamespaceFor(ShortId(FIRST)) := Namespace(true, Some(TICKS_PER_SECOND))], {FIRST, SECOND})
  const LATE := Reap(TICKS_PER_SECOND + 1, {}, {})

  lemma GreedyLeavesOrphan()
    ensures CreateSpec(INITIAL, GREEDY) == ONE_LIVE
  {
    ManyIsValid();
    ValidIsProper(MANY);
    assert HeldLightning(INITIAL) == {};
    ShippedCapacity();
    PoolIsClear(INITIAL);
    CreateCases(INITIAL, GREEDY);
    hide FreeLightning, ClearTriples, ProperList, MANY, CreateSpec;
    assert Admitted(INITIAL, GREEDY);
    assert !ReachesCluster(INITIAL, GREEDY);
    assert CreateSpec(INITIAL, GREEDY) == Inserted(INITIAL, GREEDY);
  }

  lemma BriefJoinsIt()
    ensures CreateSpec(ONE_LIVE, BRIEF) == TWO_LIVE
  {
    var s := ONE_LIVE;
    CreateCases(s, BRIEF);
    assert PurgeName(s, "owner", "second") == s;
    assert s.rows[FIRST].name == "first" && "first"[0] != "second"[0];
    assert Admitted(s, BRIEF);
    assert RowOf(s, BRIEF) == SHARING;
    assert ShortId(FIRST) == ShortId(SECOND);
    hide FreeLightning;
    assert TWO_LIVE.rows == s.rows[SECOND := SHARING];
  }

  lemma Siblings()
    ensures FIRST != SECOND && ShortId(FIRST) == ShortId(SECOND)
  {
    assert FIRST[31] != SECOND[31];
  }

  lemma LatePassExpiresBoth()
    ensures !RowsExpireFirst(TWO_LIVE) && !ExpiresOnlyDue(TWO_LIVE, LATE)
    ensures FIRST in ReapSpec(TWO_LIVE, LATE).rows && ReapSpec(TWO_LIVE, LATE).rows[FIRST].status == Expired
    ensures SECOND in ReapSpec(TWO_LIVE, LATE).rows && ReapSpec(TWO_LIVE, LATE).rows[SECOND].status == Expired
  {
    Siblings();
    ShortIdIsHex(FIRST);
    assert FIRST in ReapSpec(TWO_LIVE, LATE).rows && SECOND in ReapSpec(TWO_LIVE, LATE).rows;
    hide ShortId, ReapSpec;
    assert LiveIn(TWO_LIVE, FIRST) && LiveIn(TWO_LIVE, SECOND) && HasNamespace(TWO_LIVE, FIRST);
    SharedShortIdExpiresBoth(TWO_LIVE, LATE, FIRST, SECOND);
    assert Threatens(TWO_LIVE, NamespaceFor(ShortId(FIRST)), FIRST);
    assert !RowDue(TWO_LIVE, LATE.now, FIRST);
  }

  /** Without the assumption the platform reaches two live environments on one
      short id by itself: the first create finds the lightning pool short, the
      second takes the namespace. The pass that reaps the second then expires
      the first, which was never to expire. */
  lemma TwoLiveRun()
    ensures IsLooseRun([INITIAL, ONE_LIVE, TWO_LIVE, ReapSpec(TWO_LIVE, LATE)], [GREEDY, BRIEF, LATE])
    ensures FIRST != SECOND && ShortId(FIRST) == ShortId(SECOND)
    ensures LiveIn(TWO_LIVE, FIRST) && LiveIn(TWO_LIVE, SECOND) && TWO_LIVE.rows[FIRST].expiresAt == None
    ensures !RowsExpireFirst(TWO_LIVE) && !ExpiresOnlyDue(TWO_LIVE, LATE)
    ensures !LiveIn(ReapSpec(TWO_LIVE, LATE), FIRST)
  {
    Siblings();
    GreedyLeavesOrphan();
    BriefJoinsIt();
    LatePassExpiresBoth();
    hide CreateSpec, ReapSpec, ShortId, RowsExpireFirst, ExpiresOnlyDue;
    assert LooselyEnabled(INITIAL, GREEDY) && LooselyEnabled(ONE_LIVE, BRIEF) && LooselyEnabled(TWO_LIVE, LATE);
    assert Apply(INITIAL, GREEDY) == ONE_LIVE && Apply(ONE_LIVE, BRIEF) == TWO_LIVE;
  }

  // ---- so is the create that meets a namespace in use

  function Plain(id: Uuid, name: string): Event { Create(id, Asking(name, [], None), 0, FAR, true, Provisioned, true) }

  function PlainRow(name: string, status: Status): Row { Row("owner", name, status, None, None, None, map[]) }

  const UNLIMITED := Namespace(true, None)

  function Home(id: Uuid): string { NamespaceFor(ShortId(id)) }

  /** A create that asks for no ports, under a name nobody has. */
  lemma PlainCreate(s: State, id: Uuid, name: string)
    requires id !in s.rows && !HasNamespace(s, id) && forall a :: a in s.rows ==> s.rows[a].name != name
    ensures CreateSpec(s, Plain(id, name)) ==
      State(s.rows[id := PlainRow(name, Provisioning)], s.namespaces[Home(id) := UNLIMITED], s.issued + {id})
  {
    CreateCases(s, Plain(id, name));
    assert PurgeName(s, "owner", name) == s;
    assert Admitted(s, Plain(id, name));
    hide FreeLightning, ShortId;
  }

  const ALONE := State(map[FIRST := PlainRow("first", Provisioning)], map[Home(FIRST) := UNLIMITED], {FIRST})

  /** Two creates on one short id: the second takes the first one's namespace down. */
  lemma CollidingRun()
    ensures var first, second := Plain(FIRST, "first"), Plain(SECOND, "second");
            var s := CreateSpec(ALONE, second);
            && IsLooseRun([INITIAL, ALONE, s], [first, second])
            && LiveIn(ALONE, FIRST) && HasNamespace(ALONE, FIRST)
            && LiveIn(s, FIRST) && !HasNamespace(s, FIRST) && SECOND in s.rows && s.rows[SECOND].status == Destroyed
  {
    Siblings();
    FirstIsAlone();
    SecondReaches();
    hide CreateSpec, ShortId, ReachesCluster, LooselyEnabled;
    CollidingCreate(ALONE, Plain(SECOND, "second"), FIRST, true);
  }

  lemma FirstIsAlone()
    ensures LooselyEnabled(INITIAL, Plain(FIRST, "first")) && CreateSpec(INITIAL, Plain(FIRST, "first")) == ALONE
  {
    PlainCreate(INITIAL, FIRST, "first");
    hide CreateSpec, ShortId;
  }

  lemma SecondReaches()
    ensures ReachesCluster(ALONE, Plain(SECOND, "second")) && LooselyEnabled(ALONE, Plain(SECOND, "second"))
  {
    Siblings();
    assert "first"[0] != "second"[0];
    assert Admitted(ALONE, Plain(SECOND, "second"));
    hide FreeLightning;
  }

  // ---- a leak is reachable

  const BROKEN := Create(FIRST, Asking("first", [], None), 0, FAR, true, FailedAfterNamespace, false)

  /** A single create can leave a dead record with its namespace still there. */
  lemma LeakingRun()
    ensures Enabled(INITIAL, BROKEN) && Leaks(INITIAL, BROKEN) && Leftover(CreateSpec(INITIAL, BROKEN), FIRST)
  {
    assert PurgeName(INITIAL, "owner", "first") == INITIAL;
    assert Admitted(INITIAL, BROKEN);
    hide FreeLightning;
    assert Inv(INITIAL);
    CreateLeftover(INITIAL, BROKEN, FIRST);
  }
}
