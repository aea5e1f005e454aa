/** Peering the lightning instances of one environment: pair by pair, over a
    link graph that other connections extend at any time. */
module Mesh {

  type NodeId = string

  /** Connections, each recorded from its initiator's side; both ends list it. */
  type Links = set<(NodeId, NodeId)>

  predicate Peered(links: Links, a: NodeId, b: NodeId) { (a, b) in links || (b, a) in links }

  datatype Answer<+T> = Failed | Answered(value: T)

  /** A call and what came of it. A connect call also says whether its two
      nodes were peered when it returned. */
  datatype Call =
    | Asked(instance: string, answered: bool)
    | Listed(instance: string, peers: Answer<set<NodeId>>)
    | Tried(instance: string, peer: NodeId, worked: bool, peered: bool)

  /** The call at `k` is one that a pass cannot get over: an instance did not
      answer, or a connect failed and the listing after it lacks the peer. */
  ghost predicate Trouble(log: seq<Call>, k: nat)
    requires k < |log|
  {
    match log[k]
    case Asked(_, answered) => !answered
    case Listed(_, peers) => peers.Failed?
    case Tried(_, peer, worked, _) =>
      !worked && k + 1 < |log| && log[k + 1].Listed? && log[k + 1].peers.Answered? && peer !in log[k + 1].peers.value
  }

  ghost predicate Troubled(log: seq<Call>, from: nat) {
    exists k: nat :: from <= k < |log| && Trouble(log, k)
  }

  /** Every instance answered, and every connect that failed was to a peer. */
  ghost predicate Smooth(log: seq<Call>, from: nat) {
    forall k: nat :: from <= k < |log| ==>
      match log[k]
      case Asked(_, answered) => answered
      case Listed(_, peers) => peers.Answered?
      case Tried(_, _, worked, peered) => worked || peered
  }

  /** Nothing is pending: the last call since `from` is no failed connect. */
  ghost predicate Settled(log: seq<Call>, from: nat) {
    |log| > from && log[|log| - 1].Tried? ==> log[|log| - 1].worked
  }

  /** In a settled log a further call adds its own trouble and no other. */
  lemma OneMoreCall(log: seq<Call>, from: nat, call: Call)
    requires from <= |log| && Settled(log, from)
    ensures Troubled(log + [call], from) <==> Troubled(log, from) || Trouble(log + [call], |log|)
  {
    var longer := log + [call];
    assert forall k: nat :: from <= k < |log| ==> (Trouble(longer, k) <==> Trouble(log, k));
    if Troubled(log, from) {
      var k: nat :| from <= k < |log| && Trouble(log, k);
      assert Trouble(longer, k);
    }
  }

  /** Trouble in a settled log and in what is added to it is trouble in the whole. */
  lemma MoreCalls(log: seq<Call>, longer: seq<Call>, from: nat)
    requires from <= |log| && Settled(log, from) && log <= longer
    ensures Troubled(longer, from) <==> Troubled(log, from) || Troubled(longer, |log|)
    ensures Smooth(longer, from) ==> Smooth(longer, |log|)
  {
    assert forall k: nat :: from <= k < |log| ==> (Trouble(longer, k) <==> Trouble(log, k));
    if Troubled(log, from) {
      var k: nat :| from <= k < |log| && Trouble(log, k);
      assert Trouble(longer, k);
    }
    if Troubled(longer, from) && !Troubled(log, from) {
      var k: nat :| from <= k < |longer| && Trouble(longer, k);
      assert k >= |log|;
    }
  }

  /** A failed connect and the listing after it make trouble exactly when the
      listing fails or lacks the peer. */
  lemma FailedConnect(log: seq<Call>, from: nat, tried: Call, listed: Call)
    requires from <= |log| && Settled(log, from) && tried.Tried? && !tried.worked && listed.Listed?
    ensures Troubled(log + [tried] + [listed], from) <==>
      Troubled(log, from) || listed.peers.Failed? || tried.peer !in listed.peers.value
  {
    var longer := log + [tried] + [listed];
    assert forall k: nat :: from <= k < |log| ==> (Trouble(longer, k) <==> Trouble(log, k));
    assert longer[|log|] == tried && longer[|log| + 1] == listed;
    assert Trouble(longer, |log|) <==> listed.peers.Answered? && tried.peer !in listed.peers.value;
    assert Trouble(longer, |log| + 1) <==> listed.peers.Failed?;
    if Troubled(log, from) {
      var k: nat :| from <= k < |log| && Trouble(log, k);
      assert Trouble(longer, k);
    }
  }

  /** The cluster's instances. `log` records every call, `attempts` the pairs of
      the connect calls among them, and `successes` counts those that worked. */
  class Cluster {
    var links: Links
    const ids: map<string, NodeId>
    ghost var log: seq<Call>
    ghost var attempts: seq<(NodeId, NodeId)>
    ghost var successes: nat

    constructor (ids: map<string, NodeId>, links: Links)
      ensures this.ids == ids && this.links == links && log == [] && attempts == [] && successes == 0
    {
      this.ids, this.links, this.log, this.attempts, this.successes := ids, links, [], [], 0;
    }

    /** Between any two calls other parties may add connections; none is dropped. */
    method OthersConnect()
      modifies this`links
      ensures old(links) <= links
    {
      var extra: Links := *;
      links := links + extra;
    }

    /** `lightning_node_id`: answers once the instance's wallet is up. */
    method NodeIdOf(instance: string) returns (r: Answer<NodeId>)
      modifies this`links, this`log
      ensures old(links) <= links && log == old(log) + [Asked(instance, r.Answered?)]
      ensures r.Answered? ==> instance in ids && r.value == ids[instance]
    {
      OthersConnect();
      var up: bool := *;
      r := if up && instance in ids then Answered(ids[instance]) else Failed;
      log := log + [Asked(instance, r.Answered?)];
    }

    /** `lightning_peer_keys`: the peers at the moment of the call. */
    method PeerKeys(instance: string) returns (r: Answer<set<NodeId>>)
      modifies this`links, this`log
      ensures old(links) <= links && log == old(log) + [Listed(instance, r)]
      ensures r.Answered? ==> instance in ids
      ensures r.Answered? ==> forall k :: k in r.value <==> Peered(links, ids[instance], k)
    {
      OthersConnect();
      var up: bool := *;
      if !up || instance !in ids {
        log := log + [Listed(instance, Failed)];
        return Failed;
      }
      var me := ids[instance];
      r := Answered((set l | l in links && l.0 == me :: l.1) + (set l | l in links && l.1 == me :: l.0));
      assert forall k :: k in r.value ==> Peered(links, me, k);
      forall k | Peered(links, me, k) ensures k in r.value {
        if (me, k) in links { assert (me, k).0 == me; } else { assert (k, me).1 == me; }
      }
      log := log + [Listed(instance, r)];
    }

    /** `lightning_connect_peer`: success means the two are connected. */
    method Connect(instance: string, peer: NodeId) returns (ok: bool)
      requires instance in ids
      modifies this`links, this`log, this`attempts, this`successes
      ensures old(links) <= links
      ensures log == old(log) + [Tried(instance, peer, ok, Peered(links, ids[instance], peer))]
      ensures successes == old(successes) + if ok then 1 else 0
      ensures ok ==> Peered(links, ids[instance], peer)
      ensures attempts == old(attempts) + [(ids[instance], peer)]
    {
      OthersConnect();
      attempts := attempts + [(ids[instance], peer)];
      ok := *;
      if ok {
        links := links + {(ids[instance], peer)};
        successes := successes + 1;
      }
      log := log + [Tried(instance, peer, ok, Peered(links, ids[instance], peer))];
    }

    /** Attempts since `from` went only to pairs unpeered in `base`. */
    ghost predicate OnlyMissing(base: Links, from: nat)
      reads this
    {
      forall k :: from <= k < |attempts| ==> !Peered(base, attempts[k].0, attempts[k].1)
    }

    /** Connects one pair; a failed connect is made good by a listing that has the
        peer. Says whether the connect itself worked. */
    method Join(instance: string, peer: NodeId, ghost from: nat) returns (r: Answer<bool>)
      requires instance in ids && from <= |log| && Settled(log, from)
      modifies this`links, this`log, this`attempts, this`successes
      ensures old(links) <= links && old(log) <= log && |log| > from
      ensures Troubled(log, from) <==> Troubled(old(log), from) || r.Failed?
      ensures Smooth(log, from) ==> r.Answered?
      ensures r.Answered? ==> Settled(log, from) && Peered(links, ids[instance], peer)
      ensures successes == old(successes) + if r == Answered(true) then 1 else 0
      ensures attempts == old(attempts) + [(ids[instance], peer)]
    {
      var ok := Connect(instance, peer);
      ghost var tried := log[|old(log)|];
      OneMoreCall(old(log), from, tried);
      if ok {
        return Answered(true);
      }
      var again := PeerKeys(instance);
      FailedConnect(old(log), from, tried, Listed(instance, again));
      assert log[|old(log)|] == tried && log[|old(log)| + 1] == Listed(instance, again);
      r := if again.Failed? || peer !in again.value then Failed else Answered(false);
    }

    /** The inner loop: connects instance `a` to every later one it does not list.
        It fails exactly when a call of its own is trouble. */
    method ConnectRow(instances: seq<string>, nodeIds: seq<NodeId>, a: nat, ghost base: Links) returns (r: Answer<nat>)
      requires |nodeIds| == |instances| && a < |instances| && base <= links
      requires forall i :: 0 <= i < |instances| ==> instances[i] in ids && nodeIds[i] == ids[instances[i]]
      modifies this`links, this`log, this`attempts, this`successes
      ensures old(log) <= log && (r.Failed? <==> Troubled(log, |old(log)|)) && (r.Answered? ==> |log| > |old(log)| && Settled(log, |old(log)|))
      ensures Smooth(log, |old(log)|) ==> r.Answered?
      ensures old(links) <= links && old(attempts) <= attempts && OnlyMissing(base, |old(attempts)|)
      ensures r.Answered? ==> r.value == successes - old(successes)
      ensures r.Answered? ==> forall b :: a < b < |nodeIds| ==> Peered(links, nodeIds[a], nodeIds[b])
      ensures (forall b :: a < b < |nodeIds| ==> Peered(base, nodeIds[a], nodeIds[b]))
              ==> attempts == old(attempts) && successes == old(successes)
    {
      ghost var from, first := |attempts|, |log|;
      OneMoreCall(log, first, Listed(instances[a], Failed));
      var listed := PeerKeys(instances[a]);
      OneMoreCall(old(log), first, log[first]);
      if listed.Failed? {
        assert !Smooth(log, first) by { assert log[first].Listed?; }
        return Failed;
      }
      var initiated := 0;
      for b := a + 1 to |instances|
        invariant old(log) <= log && |log| > first && Settled(log, first) && !Troubled(log, first)
        invariant old(links) <= links && base <= links && old(attempts) <= attempts && OnlyMissing(base, from)
        invariant forall k :: k in listed.value ==> Peered(links, nodeIds[a], k)
        invariant forall k :: Peered(base, nodeIds[a], k) ==> k in listed.value
        invariant initiated == successes - old(successes)
        invariant forall c :: a < c < b ==> Peered(links, nodeIds[a], nodeIds[c])
        invariant (forall c :: a < c < b ==> Peered(base, nodeIds[a], nodeIds[c]))
                  ==> attempts == old(attempts) && successes == old(successes)
      {
        if nodeIds[b] in listed.value {
          continue;
        }
        var joined := Join(instances[a], nodeIds[b], first);
        if joined.Failed? {
          return Failed;
        }
        initiated := initiated + if joined.value then 1 else 0;
      }
      r := Answered(initiated);
    }

    /** `mesh_lightning_peers`. It fails exactly when an instance does not answer or
        a failed connect is not made good by another party, so a lost race is
        no failure. On success every pair is peered and the count is
        that of the connects that worked. In every case links only grow, no pair
        peered at the start is connected again, and a pass over instances that
        are all peered connects nobody. */
    method MeshLightningPeers(instances: seq<string>) returns (r: Answer<nat>)
      modifies this`links, this`log, this`attempts, this`successes
      ensures old(log) <= log && (r.Failed? <==> Troubled(log, |old(log)|)) && (r.Answered? ==> Settled(log, |old(log)|))
      ensures Smooth(log, |old(log)|) ==> r.Answered?
      ensures |instances| < 2 ==> r == Answered(0) && log == old(log)
      ensures old(links) <= links && old(attempts) <= attempts
      ensures OnlyMissing(old(links), |old(attempts)|)
      ensures r.Answered? ==> r.value == successes - old(successes)
      ensures r.Answered? && |instances| >= 2 ==>
        && (forall i :: 0 <= i < |instances| ==> instances[i] in ids)
        && (forall i, j :: 0 <= i < j < |instances| ==> Peered(links, ids[instances[i]], ids[instances[j]]))
      ensures (forall i :: 0 <= i < |instances| ==> instances[i] in ids)
           && (forall i, j :: 0 <= i < j < |instances| ==> Peered(old(links), ids[instances[i]], ids[instances[j]]))
           ==> attempts == old(attempts) && successes == old(successes)
    {
      if |instances| < 2 {
        return Answered(0);
      }
      ghost var base, from, first := links, |attempts|, |log|;
      var nodeIds: seq<NodeId> := [];
      for n := 0 to |instances|
        invariant old(log) <= log && Settled(log, first) && !Troubled(log, first)
        invariant |nodeIds| == n && base <= links && attempts == old(attempts) && successes == old(successes)
        invariant forall i :: 0 <= i < n ==> instances[i] in ids && nodeIds[i] == ids[instances[i]]
      {
        ghost var before := log;
        var id := NodeIdOf(instances[n]);
        OneMoreCall(before, first, log[|before|]);
        if id.Failed? {
          assert !Smooth(log, first) by { assert log[|before|].Asked?; }
          return Failed;
        }
        nodeIds := nodeIds + [id.value];
      }
      var initiated := 0;
      for a := 0 to |instances|
        invariant old(log) <= log && Settled(log, first) && !Troubled(log, first)
        invariant base <= links && old(attempts) <= attempts && OnlyMissing(base, from)
        invariant initiated == successes - old(successes)
        invariant forall i, j :: 0 <= i < a && i < j < |nodeIds| ==> Peered(links, nodeIds[i], nodeIds[j])
        invariant (forall i, j :: 0 <= i < j < |nodeIds| ==> Peered(base, nodeIds[i], nodeIds[j]))
                  ==> attempts == old(attempts) && successes == old(successes)
      {
        ghost var before := log;
        var row := ConnectRow(instances, nodeIds, a, base);
        MoreCalls(before, log, first);
        if row.Failed? {
          return Failed;
        }
        initiated := initiated + row.value;
      }
      r := Answered(initiated);
    }
  }

  // ---- the reconciler's grouping loop

  /** The names are those of all targets of the environment, in target order,
      `at` being their places in the list. */
  ghost predicate Picks(targets: seq<(string, string)>, env: string, names: seq<string>, at: seq<nat>) {
    && |at| == |names|
    && (forall k :: 0 <= k < |at| ==> at[k] < |targets| && targets[at[k]] == (env, names[k]))
    && (forall j, k :: 0 <= j < k < |at| ==> at[j] < at[k])
    && (forall i :: 0 <= i < |targets| && targets[i].0 == env ==> i in at)
  }

  ghost predicate Picked(targets: seq<(string, string)>, env: string, names: seq<string>) {
    exists at :: Picks(targets, env, names, at)
  }

  lemma PicksOneMore(targets: seq<(string, string)>, n: nat, env: string, names: seq<string>, at: seq<nat>)
    requires n < |targets| && Picks(targets[..n], env, names, at)
    ensures targets[n].0 != env ==> Picks(targets[..n + 1], env, names, at)
    ensures targets[n].0 == env ==> Picks(targets[..n + 1], env, names + [targets[n].1], at + [n])
  {
    var longer := targets[..n + 1];
    assert longer[..n] == targets[..n];
    forall i | 0 <= i < n + 1 && longer[i].0 == env && i < n ensures i in at {
      assert targets[..n][i] == longer[i];
    }
    assert forall i :: i in at ==> i in at + [n];
  }

  lemma PickedOneMore(targets: seq<(string, string)>, n: nat, env: string, names: seq<string>)
    requires n < |targets| && Picked(targets[..n], env, names)
    ensures Picked(targets[..n + 1], env, if targets[n].0 == env then names + [targets[n].1] else names)
  {
    var at :| Picks(targets[..n], env, names, at);
    PicksOneMore(targets, n, env, names, at);
  }

  lemma NonePicked(targets: seq<(string, string)>, env: string)
    requires forall i :: 0 <= i < |targets| ==> targets[i].0 != env
    ensures Picked(targets, env, [])
  {
    assert Picks(targets, env, [], []);
  }

  /** Groups (environment, instance) targets: every environment of the list
      with exactly its instances in order, and no other. */
  method GroupTargets(targets: seq<(string, string)>) returns (envs: map<string, seq<string>>)
    ensures forall env :: env in envs <==> exists i :: 0 <= i < |targets| && targets[i].0 == env
    ensures forall env :: env in envs ==> Picked(targets, env, envs[env])
  {
    hide Picked;
    envs := map[];
    for n := 0 to |targets|
      invariant forall env :: env in envs <==> exists i :: 0 <= i < n && targets[i].0 == env
      invariant forall env :: env in envs ==> Picked(targets[..n], env, envs[env])
    {
      var (env, name) := targets[n];
      ghost var before := envs;
      if env !in envs {
        NonePicked(targets[..n], env);
      }
      var names := if env in envs then envs[env] else [];
      envs := envs[env := names + [name]];
      forall other | other in envs ensures Picked(targets[..n + 1], other, envs[other]) {
        PickedOneMore(targets, n, other, if other in before then before[other] else []);
      }
    }
    assert targets[..|targets|] == targets;
  }
}
