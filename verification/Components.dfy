/** Selecting components with everything they depend on. */
module Components {
  import opened Prelude

  /** A registered component, its dependencies, and whether the caller asked for it. */
  datatype Spec = Spec(key: string, deps: seq<string>, requested: bool)

  ghost predicate IsKey(registry: seq<Spec>, key: string) { exists i :: 0 <= i < |registry| && registry[i].key == key }

  /** Keys are unique and every dependency is registered. */
  ghost predicate WellFormed(registry: seq<Spec>) {
    && (forall i, j :: 0 <= i < j < |registry| ==> registry[i].key != registry[j].key)
    && (forall i, d :: 0 <= i < |registry| && d in registry[i].deps ==> IsKey(registry, d))
  }

  /** Dependency order: every dependency is registered before its dependent. */
  ghost predicate InDependencyOrder(registry: seq<Spec>) {
    forall i, d :: 0 <= i < |registry| && d in registry[i].deps ==> IsKey(registry[..i], d)
  }

  /** A set of keys that contains what its members depend on. */
  ghost predicate Closed(registry: seq<Spec>, keys: set<string>) {
    forall i, d :: 0 <= i < |registry| && registry[i].key in keys && d in registry[i].deps ==> d in keys
  }

  ghost predicate CoversRequested(registry: seq<Spec>, keys: set<string>) {
    forall i :: 0 <= i < |registry| && registry[i].requested ==> registry[i].key in keys
  }

  /** A set of keys that answers the request. */
  ghost predicate Answers(registry: seq<Spec>, keys: set<string>) {
    Closed(registry, keys) && CoversRequested(registry, keys)
  }

  function Keys(specs: seq<Spec>): set<string> { set i | 0 <= i < |specs| :: specs[i].key }

  /** The registry entries whose key is wanted, in registry order. */
  function Filter(registry: seq<Spec>, wanted: seq<string>): seq<Spec> {
    if registry == [] then []
    else
      var front := Filter(registry[..|registry| - 1], wanted);
      var last := registry[|registry| - 1];
      if last.key in wanted then front + [last] else front
  }

  lemma {:induction false} FilterKeys(registry: seq<Spec>, wanted: seq<string>)
    ensures forall k :: k in Keys(Filter(registry, wanted)) <==> IsKey(registry, k) && k in wanted
  {
    if registry != [] {
      var front, last := registry[..|registry| - 1], registry[|registry| - 1];
      FilterKeys(front, wanted);
      var kept := Filter(front, wanted);
      forall k ensures IsKey(registry, k) <==> IsKey(front, k) || k == last.key {
        if IsKey(front, k) {
          var i :| 0 <= i < |front| && front[i].key == k;
          assert registry[i].key == k;
        }
        if IsKey(registry, k) && k != last.key {
          var i :| 0 <= i < |registry| && registry[i].key == k;
          assert front[i].key == k;
        }
      }
      assert Keys(kept + [last]) == Keys(kept) + {last.key} by {
        assert forall i :: 0 <= i < |kept| ==> (kept + [last])[i] == kept[i];
        assert (kept + [last])[|kept|] == last;
      }
    }
  }

  /** Selected specs come in registry order: a subsequence of the registry. */
  ghost predicate InOrder(registry: seq<Spec>, specs: seq<Spec>, at: seq<nat>) {
    && |at| == |specs|
    && (forall i :: 0 <= i < |at| ==> at[i] < |registry| && registry[at[i]] == specs[i])
    && (forall i, j :: 0 <= i < j < |at| ==> at[i] < at[j])
  }

  lemma {:induction false} FilterInOrder(registry: seq<Spec>, wanted: seq<string>) returns (at: seq<nat>)
    ensures InOrder(registry, Filter(registry, wanted), at)
  {
    if registry == [] {
      at := [];
    } else {
      var n := |registry| - 1;
      at := FilterInOrder(registry[..n], wanted);
      if registry[n].key in wanted {
        at := at + [n];
      }
    }
  }

  /** Distinct keys of a registry are no more than its entries. */
  lemma WantedBound(registry: seq<Spec>, wanted: seq<string>)
    requires Distinct(wanted) && forall k :: k in wanted ==> IsKey(registry, k)
    ensures |wanted| <= |registry|
  {
    DistinctCount(wanted);
    assert forall k :: k in Elements(wanted) ==> k in Keys(registry);
    SubsetCount(Elements(wanted), Keys(registry));
    KeysCount(registry);
  }

  lemma {:induction false} KeysCount(registry: seq<Spec>)
    ensures |Keys(registry)| <= |registry|
  {
    if registry != [] {
      var front, last := registry[..|registry| - 1], registry[|registry| - 1];
      KeysCount(front);
      assert Keys(registry) == Keys(front) + {last.key} by {
        assert registry == front + [last];
        assert forall i :: 0 <= i < |front| ==> registry[i] == front[i];
      }
    }
  }

  /** The entry of a wanted key: the source's `find`, whose `expect` cannot fail. */
  method FindSpec(registry: seq<Spec>, key: string) returns (i: nat)
    requires IsKey(registry, key)
    ensures i < |registry| && registry[i].key == key
  {
    i := 0;
    while registry[i].key != key
      invariant i < |registry|
      invariant forall j :: 0 <= j < i ==> registry[j].key != key
      decreases |registry| - i
    {
      assert i + 1 < |registry| by {
        var j :| 0 <= j < |registry| && registry[j].key == key;
        assert j > i;
      }
      i := i + 1;
    }
  }

  /** Everything in `wanted` is needed by every closed set that covers the request. */
  ghost predicate Needed(registry: seq<Spec>, wanted: seq<string>) {
    forall keys: set<string>, k :: Answers(registry, keys) && k in wanted ==> k in keys
  }

  /** The dependencies of the first `n` wanted keys are all wanted. */
  ghost predicate ClosedUpTo(registry: seq<Spec>, wanted: seq<string>, n: nat) {
    forall i, j, d :: 0 <= i < |registry| && 0 <= j < n && j < |wanted| && registry[i].key == wanted[j] && d in registry[i].deps
      ==> d in wanted
  }

  method Requested(registry: seq<Spec>) returns (wanted: seq<string>)
    requires WellFormed(registry)
    ensures Distinct(wanted) && CoversRequested(registry, Elements(wanted))
    ensures forall k :: k in wanted ==> IsKey(registry, k)
    ensures Needed(registry, wanted)
  {
    wanted := [];
    for i := 0 to |registry|
      invariant Distinct(wanted)
      invariant forall j :: 0 <= j < i && registry[j].requested ==> registry[j].key in wanted
      invariant forall k :: k in wanted ==> exists j :: 0 <= j < i && registry[j].key == k && registry[j].requested
    {
      if registry[i].requested {
        assert registry[i].key !in wanted;
        DistinctAppend(wanted, registry[i].key);
        wanted := wanted + [registry[i].key];
      }
    }
  }

  /** Adds the dependencies of one spec that are not wanted yet. */
  method AddDeps(registry: seq<Spec>, s: nat, wanted0: seq<string>) returns (wanted: seq<string>)
    requires WellFormed(registry) && s < |registry| && registry[s].key in wanted0
    requires Distinct(wanted0) && Needed(registry, wanted0) && forall k :: k in wanted0 ==> IsKey(registry, k)
    ensures wanted0 <= wanted && Distinct(wanted) && Needed(registry, wanted)
    ensures forall k :: k in wanted ==> IsKey(registry, k)
    ensures forall d :: d in registry[s].deps ==> d in wanted
  {
    wanted := wanted0;
    var deps := registry[s].deps;
    for j := 0 to |deps|
      invariant wanted0 <= wanted && Distinct(wanted) && Needed(registry, wanted)
      invariant forall k :: k in wanted ==> IsKey(registry, k)
      invariant forall i :: 0 <= i < j ==> deps[i] in wanted
    {
      if deps[j] !in wanted {
        DistinctAppend(wanted, deps[j]);
        assert deps[j] in deps;
        assert registry[s].key in wanted;
        ghost var before := wanted;
        wanted := wanted + [deps[j]];
        assert forall k :: k in wanted <==> k in before || k == deps[j];
      }
    }
  }

  /** `selected_specs`: the least set of components that contains the requested
      ones and is closed under dependencies, in registry order. */
  method SelectedSpecs(registry: seq<Spec>) returns (specs: seq<Spec>)
    requires WellFormed(registry)
    ensures Answers(registry, Keys(specs))
    ensures forall keys: set<string> :: Answers(registry, keys) ==> Keys(specs) <= keys
    ensures exists at :: InOrder(registry, specs, at)
  {
    var wanted := Requested(registry);
    var i := 0;
    WantedBound(registry, wanted);
    while i < |wanted|
      invariant i <= |wanted| <= |registry|
      invariant Distinct(wanted) && Needed(registry, wanted) && CoversRequested(registry, Elements(wanted))
      invariant forall k :: k in wanted ==> IsKey(registry, k)
      invariant ClosedUpTo(registry, wanted, i)
      decreases |registry| - i
    {
      assert wanted[i] in wanted;
      var s := FindSpec(registry, wanted[i]);
      ghost var before := wanted;
      wanted := AddDeps(registry, s, wanted);
      StillClosed(registry, before, wanted, i, s);
      WantedBound(registry, wanted);
      assert forall k :: k in before ==> k in wanted;
      i := i + 1;
    }
    specs := Filter(registry, wanted);
    FilterKeys(registry, wanted);
    WantedIsClosed(registry, wanted);
    assert forall k :: k in Keys(specs) <==> k in wanted;
    var at := FilterInOrder(registry, wanted);
  }

  lemma StillClosed(registry: seq<Spec>, before: seq<string>, wanted: seq<string>, i: nat, s: nat)
    requires WellFormed(registry) && before <= wanted && i < |before| && s < |registry| && registry[s].key == wanted[i]
    requires ClosedUpTo(registry, before, i) && forall d :: d in registry[s].deps ==> d in wanted
    ensures ClosedUpTo(registry, wanted, i + 1)
  {
    forall e, j, d | 0 <= e < |registry| && 0 <= j < i + 1 && j < |wanted| && registry[e].key == wanted[j] && d in registry[e].deps
      ensures d in wanted
    {
      if j < i {
        assert wanted[j] == before[j];
        assert d in before;
      } else {
        assert e == s;
      }
    }
  }

  lemma WantedIsClosed(registry: seq<Spec>, wanted: seq<string>)
    requires ClosedUpTo(registry, wanted, |wanted|)
    ensures Closed(registry, Elements(wanted))
  {
    forall i, d | 0 <= i < |registry| && registry[i].key in Elements(wanted) && d in registry[i].deps ensures d in Elements(wanted) {
      var j :| 0 <= j < |wanted| && wanted[j] == registry[i].key;
    }
  }

  /** In a registry in dependency order, a closed selection in registry order
      lists every dependency before its dependent. */
  lemma DependenciesComeFirst(registry: seq<Spec>, specs: seq<Spec>, at: seq<nat>, i: nat, d: string)
    requires WellFormed(registry) && InDependencyOrder(registry) && Closed(registry, Keys(specs))
    requires InOrder(registry, specs, at) && i < |specs| && d in specs[i].deps
    ensures exists j :: 0 <= j < i && specs[j].key == d
  {
    var m := at[i];
    assert registry[m] == specs[i] && specs[i].key in Keys(specs);
    assert d in Keys(specs);
    var j :| 0 <= j < |specs| && specs[j].key == d;
    var n :| 0 <= n < |registry[..m]| && registry[..m][n].key == d;
    assert registry[n].key == d && registry[at[j]].key == d;
    assert at[j] == n;
    assert at[j] < at[i];
    assert j < i;
  }

  /** The shipped registry. */
  function Shipped(indexer: bool, faucet: bool, explorer: bool): seq<Spec> {
    [Spec("electrs", [], indexer), Spec("faucet", [], faucet), Spec("explorer", ["electrs"], explorer)]
  }

  /** What the shipped registry selects: each component that is asked for, and
      the indexer also for the explorer. */
  lemma ShippedSelection(indexer: bool, faucet: bool, explorer: bool, keys: set<string>)
    requires Answers(Shipped(indexer, faucet, explorer), keys)
    requires forall other: set<string> :: Answers(Shipped(indexer, faucet, explorer), other) ==> keys <= other
    ensures keys == (if indexer || explorer then {"electrs"} else {})
                    + (if faucet then {"faucet"} else {}) + (if explorer then {"explorer"} else {})
  {
    var r := Shipped(indexer, faucet, explorer);
    var expected := (if indexer || explorer then {"electrs"} else {})
                    + (if faucet then {"faucet"} else {}) + (if explorer then {"explorer"} else {});
    assert r[0].key == "electrs" && r[1].key == "faucet" && r[2].key == "explorer";
    assert r[2].deps[0] == "electrs" && "electrs" in r[2].deps;
    assert Answers(r, expected);
    assert r[0].requested == indexer && r[1].requested == faucet && r[2].requested == explorer;
  }

  /** It is in dependency order, and its closed sets with the explorer have electrs. */
  lemma ShippedIsOrdered(indexer: bool, faucet: bool, explorer: bool)
    ensures WellFormed(Shipped(indexer, faucet, explorer)) && InDependencyOrder(Shipped(indexer, faucet, explorer))
    ensures explorer ==>
      forall keys: set<string> :: Answers(Shipped(indexer, faucet, explorer), keys) ==> "electrs" in keys
  {
    var r := Shipped(indexer, faucet, explorer);
    assert r[0].key == "electrs" && r[..2][0].key == "electrs";
    assert IsKey(r, "electrs") && IsKey(r[..2], "electrs");
    assert r[2].key == "explorer" && "electrs" in r[2].deps;
  }
}
