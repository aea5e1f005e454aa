/** What every run of the platform keeps: ports, names, ids and namespaces. */
module Invariants {
  import opened Prelude
  import opened PortPool
  import opened Registry

  // ---- the invariant

  ghost predicate ElectrumOk(s: State) {
    && (forall a :: LiveIn(s, a) && s.rows[a].electrum.Some? ==>
          ELECTRUM_PORT_BASE <= s.rows[a].electrum.value <= ELECTRUM_PORT_MAX)
    && (forall a, b :: a != b && LiveIn(s, a) && LiveIn(s, b) && s.rows[a].electrum.Some? ==>
          s.rows[a].electrum != s.rows[b].electrum)
  }

  ghost predicate ExplorerOk(s: State) {
    && (forall a :: LiveIn(s, a) && s.rows[a].explorer.Some? ==>
          EXPLORER_PORT_BASE <= s.rows[a].explorer.value <= EXPLORER_PORT_MAX)
    && (forall a, b :: a != b && LiveIn(s, a) && LiveIn(s, b) && s.rows[a].explorer.Some? ==>
          s.rows[a].explorer != s.rows[b].explorer)
  }

  ghost predicate HasInstance(s: State, a: Uuid, n: string) { LiveIn(s, a) && n in s.rows[a].instances }

  function PortOf(s: State, a: Uuid, n: string): int
    requires a in s.rows && n in s.rows[a].instances
  {
    s.rows[a].instances[n]
  }

  ghost predicate LightningOk(s: State) {
    && (forall a, n :: HasInstance(s, a, n) ==>
          var p := PortOf(s, a, n); LIGHTNING_PORT_BASE <= p && p + 2 <= LIGHTNING_PORT_MAX && p % 3 == 0)
    && (forall a, n, b, m :: HasInstance(s, a, n) && HasInstance(s, b, m) && (a, n) != (b, m) ==>
          PortOf(s, a, n) != PortOf(s, b, m))
  }

  ghost predicate NamesUnique(s: State) {
    forall a, b :: a in s.rows && b in s.rows && a != b ==> !Named(s.rows[b], s.rows[a].owner, s.rows[a].name)
  }

  /** The working assumption about ids: rows only carry issued ids, and no two
      issued ids share their first twelve digits. */
  ghost predicate IdsOk(s: State) {
    && s.rows.Keys <= s.issued
    && forall a, b :: a in s.issued && b in s.issued && ShortId(a) == ShortId(b) ==> a == b
  }

  /** A namespace the reaper would take for an environment is that
      environment's own, and carries the expiry of its row. */
  ghost predicate NamespacesOk(s: State) {
    && (forall id, name :: id in s.issued && name in s.namespaces && TrimEnv(name) == ShortId(id) ==>
          name == NamespaceFor(ShortId(id)))
    && (forall id :: LiveIn(s, id) && HasNamespace(s, id) ==>
          s.namespaces[NamespaceFor(ShortId(id))] == Namespace(true, s.rows[id].expiresAt))
  }

  ghost predicate Inv(s: State) {
    ElectrumOk(s) && ExplorerOk(s) && LightningOk(s) && NamesUnique(s) && IdsOk(s) && NamespacesOk(s)
  }

  // ---- names of namespaces

  /** Hex text never starts with the environment prefix. */
  lemma ShortIdIsHex(id: Uuid)
    ensures TrimEnv(ShortId(id)) == ShortId(id)
    ensures TrimEnv(NamespaceFor(ShortId(id))) == ShortId(id)
    ensures ShortId(id)[..4] != ENV_PREFIX
  {
    var short := ShortId(id);
    assert short[1] == id[1] && IsHex(id[1]);
    assert short[..4] != ENV_PREFIX by { assert short[..4][1] == id[1] && ENV_PREFIX[1] == 'n'; }
    assert NamespaceFor(short)[..4] == ENV_PREFIX && NamespaceFor(short)[4..] == short;
  }

  ghost function Repeated(k: nat, short: string): string {
    if k == 0 then short else ENV_PREFIX + Repeated(k - 1, short)
  }

  lemma {:induction false} TrimmedByRepeats(k: nat, id: Uuid)
    ensures TrimEnv(Repeated(k, ShortId(id))) == ShortId(id)
  {
    if k == 0 {
      ShortIdIsHex(id);
    } else {
      var inner, outer := Repeated(k - 1, ShortId(id)), Repeated(k, ShortId(id));
      assert outer[..4] == ENV_PREFIX && outer[4..] == inner;
      TrimmedByRepeats(k - 1, id);
    }
  }

  lemma {:induction false} TrimmedRepeats(name: string, short: string) returns (k: nat)
    requires TrimEnv(name) == short
    ensures name == Repeated(k, short)
    decreases |name|
  {
    if |name| >= 4 && name[..4] == ENV_PREFIX {
      var inner := TrimmedRepeats(name[4..], short);
      assert name == ENV_PREFIX + name[4..];
      k := inner + 1;
    } else {
      k := 0;
    }
  }

  /** The names the reaper takes for an environment: its short id behind any
      number of prefixes, not only the one name the platform gives. */
  lemma TrimEnvExact(name: string, id: Uuid)
    ensures TrimEnv(name) == ShortId(id) <==> exists k: nat :: name == Repeated(k, ShortId(id))
  {
    hide TrimEnv, Repeated, ShortId;
    if TrimEnv(name) == ShortId(id) {
      var k := TrimmedRepeats(name, ShortId(id));
    }
    forall k: nat | name == Repeated(k, ShortId(id)) ensures TrimEnv(name) == ShortId(id) {
      TrimmedByRepeats(k, id);
    }
  }

  // ---- each statement keeps the invariant

  /** Dropping rows and killing rows keeps everything. */
  lemma ShrinkInv(s: State, s': State)
    requires Inv(s) && s'.namespaces == s.namespaces && s'.issued == s.issued
    requires forall a :: a in s'.rows ==> a in s.rows && s'.rows[a].(status := s.rows[a].status) == s.rows[a]
    requires forall a :: LiveIn(s', a) ==> LiveIn(s, a)
    ensures Inv(s')
  {
    assert forall a, n :: HasInstance(s', a, n) ==> HasInstance(s, a, n) && PortOf(s', a, n) == PortOf(s, a, n);
    assert NamesUnique(s');
    assert s'.rows.Keys <= s.rows.Keys;
  }

  lemma SetStatusInv(s: State, id: Uuid, status: Status)
    requires Inv(s) && (IsLive(status) ==> id !in s.rows || LiveIn(s, id))
    ensures Inv(SetStatus(s, id, status))
  {
    hide Inv;
    ShrinkInv(s, SetStatus(s, id, status));
  }

  /** Removing namespaces keeps everything. */
  lemma FewerNamespacesInv(s: State, s': State)
    requires Inv(s) && s'.rows == s.rows && s'.issued == s.issued
    requires forall name :: name in s'.namespaces ==> name in s.namespaces && s'.namespaces[name] == s.namespaces[name]
    ensures Inv(s')
  {
    assert forall a :: LiveIn(s', a) == LiveIn(s, a);
    assert forall a, n :: HasInstance(s', a, n) == HasInstance(s, a, n);
  }

  /** An id that collides with nothing: never issued, its short id unshared, and
      no namespace the reaper would take for it. */
  ghost predicate FreshId(s: State, id: Uuid) {
    && id !in s.issued
    && (forall a :: a in s.issued ==> ShortId(a) != ShortId(id))
    && (forall name :: name in s.namespaces ==> TrimEnv(name) != ShortId(id))
  }

  lemma FreshIdUnused(s: State, id: Uuid)
    requires Inv(s) && FreshId(s, id)
    ensures id !in s.issued && id !in s.rows && !HasNamespace(s, id)
  {
    ShortIdIsHex(id);
  }

  lemma InsertElectrumInv(s: State, id: Uuid, row: Row)
    requires ElectrumOk(s) && id !in s.rows
    requires row.electrum.Some? ==>
      row.electrum == Lowest(ELECTRUM_PORT_BASE, ELECTRUM_PORT_MAX, HeldElectrum(s))
    ensures ElectrumOk(InsertRow(s, id, row))
  {
    var s' := InsertRow(s, id, row);
    forall a | a != id && LiveIn(s', a) && s.rows[a].electrum.Some?
      ensures LiveIn(s, a) && s.rows[a].electrum.value in HeldElectrum(s) {
    }
  }

  lemma InsertExplorerInv(s: State, id: Uuid, row: Row)
    requires ExplorerOk(s) && id !in s.rows
    requires row.explorer.Some? ==>
      row.explorer == Lowest(EXPLORER_PORT_BASE, EXPLORER_PORT_MAX, HeldExplorer(s))
    ensures ExplorerOk(InsertRow(s, id, row))
  {
    var s' := InsertRow(s, id, row);
    forall a | a != id && LiveIn(s', a) && s.rows[a].explorer.Some?
      ensures LiveIn(s, a) && s.rows[a].explorer.value in HeldExplorer(s) {
    }
  }

  /** A row with freshly allocated ports, under a free name and a fresh id. */
  lemma InsertInv(s: State, id: Uuid, row: Row)
    requires Inv(s) && FreshId(s, id) && row.instances == map[]
    requires forall a :: a in s.rows ==> !Named(s.rows[a], row.owner, row.name)
    requires row.electrum.Some? ==>
      row.electrum == Lowest(ELECTRUM_PORT_BASE, ELECTRUM_PORT_MAX, HeldElectrum(s))
    requires row.explorer.Some? ==>
      row.explorer == Lowest(EXPLORER_PORT_BASE, EXPLORER_PORT_MAX, HeldExplorer(s))
    ensures Inv(InsertRow(s, id, row)) && !HasNamespace(InsertRow(s, id, row), id)
  {
    assert id !in s.rows;
    InsertElectrumInv(s, id, row);
    InsertExplorerInv(s, id, row);
    InsertLightningInv(s, id, row);
    InsertNamespacesInv(s, id, row);
    assert NamesUnique(InsertRow(s, id, row));
    assert IdsOk(InsertRow(s, id, row));
  }

  lemma InsertLightningInv(s: State, id: Uuid, row: Row)
    requires LightningOk(s) && id !in s.rows && row.instances == map[]
    ensures LightningOk(InsertRow(s, id, row))
  {
    var s' := InsertRow(s, id, row);
    assert forall a, n :: HasInstance(s', a, n) ==> a != id && HasInstance(s, a, n) && PortOf(s', a, n) == PortOf(s, a, n);
  }

  lemma InsertNamespacesInv(s: State, id: Uuid, row: Row)
    requires NamespacesOk(s) && FreshId(s, id) && id !in s.rows
    ensures NamespacesOk(InsertRow(s, id, row)) && !HasNamespace(InsertRow(s, id, row), id)
  {
    var s' := InsertRow(s, id, row);
    ShortIdIsHex(id);
    assert !HasNamespace(s, id);
    forall a | LiveIn(s', a) && HasNamespace(s', a)
      ensures s'.namespaces[NamespaceFor(ShortId(a))] == Namespace(true, s'.rows[a].expiresAt)
    {
      assert a != id;
      assert LiveIn(s, a);
    }
  }

  lemma {:induction false} ZipPorts(names: seq<string>, ports: seq<int>)
    requires |names| <= |ports| && Distinct(names)
    ensures forall n :: n in Zip(names, ports) <==> n in names
    ensures forall i :: 0 <= i < |names| ==> names[i] in Zip(names, ports) && Zip(names, ports)[names[i]] == ports[i]
  {
    if names != [] {
      var k := |names| - 1;
      ZipPorts(names[..k], ports);
      assert names == names[..k] + [names[k]];
    }
  }

  lemma HeldStart(s: State, a: Uuid, n: string)
    requires HasInstance(s, a, n)
    ensures PortOf(s, a, n) in HeldLightning(s)
  {
    assert PortOf(s, a, n) in HeldStarts(s);
  }

  ghost predicate InLightningRange(p: int) {
    LIGHTNING_PORT_BASE <= p && p + 2 <= LIGHTNING_PORT_MAX && p % 3 == 0
  }

  /** Recording new instances on free triples keeps the triples apart. */
  lemma AddInstancesInv(s: State, id: Uuid, names: seq<string>)
    requires Inv(s) && id in s.rows && Distinct(names) && |names| <= |FreeLightning(s)|
    requires forall n :: n in names ==> n !in s.rows[id].instances
    ensures Inv(SetInstances(s, id, s.rows[id].instances + Zip(names, FreeLightning(s))))
  {
    hide FreeLightning, Zip;
    var instances := s.rows[id].instances + Zip(names, FreeLightning(s));
    SetInstancesRest(s, id, instances);
    AddInstancesLightning(s, SetInstances(s, id, instances), id, names);
  }

  lemma SetInstancesRest(s: State, id: Uuid, instances: map<string, int>)
    requires Inv(s) && id in s.rows
    ensures var s' := SetInstances(s, id, instances);
            ElectrumOk(s') && ExplorerOk(s') && NamesUnique(s') && IdsOk(s') && NamespacesOk(s')
  {
    var s' := SetInstances(s, id, instances);
    assert forall a :: a in s'.rows <==> a in s.rows;
    assert forall a :: a in s.rows ==> s'.rows[a].(instances := s.rows[a].instances) == s.rows[a];
    assert forall a :: LiveIn(s', a) <==> LiveIn(s, a);
    assert NamesUnique(s');
  }

  lemma AddInstancesLightning(s: State, s': State, id: Uuid, names: seq<string>)
    requires LightningOk(s) && id in s.rows && Distinct(names) && |names| <= |FreeLightning(s)|
    requires forall n :: n in names ==> n !in s.rows[id].instances
    requires s' == SetInstances(s, id, s.rows[id].instances + Zip(names, FreeLightning(s)))
    ensures LightningOk(s')
  {
    hide FreeLightning, HeldLightning, SetInstances, Zip, IsOld, IsNew;
    forall a, n | HasInstance(s', a, n) ensures InLightningRange(PortOf(s', a, n)) {
      NewOrOld(s, s', id, names, a, n);
    }
    forall a, n, b, m | HasInstance(s', a, n) && HasInstance(s', b, m) && (a, n) != (b, m)
      ensures PortOf(s', a, n) != PortOf(s', b, m)
    {
      NewOrOld(s, s', id, names, a, n);
      NewOrOld(s, s', id, names, b, m);
      FreePortsDistinct(s);
      OldAndNewApart(s, s', id, names, a, n, b, m);
    }
  }

  lemma OldAndNewApart(s: State, s': State, id: Uuid, names: seq<string>, a: Uuid, n: string, b: Uuid, m: string)
    requires LightningOk(s) && |names| <= |FreeLightning(s)| && Distinct(FreeLightning(s))
    requires HasInstance(s', a, n) && HasInstance(s', b, m) && (a, n) != (b, m)
    requires IsOld(s, s', a, n) || (a == id && IsNew(s, s', names, a, n))
    requires IsOld(s, s', b, m) || (b == id && IsNew(s, s', names, b, m))
    ensures PortOf(s', a, n) != PortOf(s', b, m)
  {
    hide FreeLightning, HeldLightning, PortOf, HasInstance;
  }

  lemma FreePortsDistinct(s: State)
    ensures Distinct(FreeLightning(s))
  {
    FreeStartsExact(LIGHTNING_PORT_BASE, LIGHTNING_PORT_MAX, HeldLightning(s));
  }

  ghost predicate IsOld(s: State, s': State, a: Uuid, n: string)
    requires HasInstance(s', a, n)
  {
    HasInstance(s, a, n) && PortOf(s', a, n) == PortOf(s, a, n) && PortOf(s', a, n) in HeldLightning(s)
  }

  ghost predicate IsNew(s: State, s': State, names: seq<string>, a: Uuid, n: string)
    requires HasInstance(s', a, n) && |names| <= |FreeLightning(s)|
  {
    PortOf(s', a, n) !in HeldLightning(s)
    && exists i :: 0 <= i < |names| && names[i] == n && PortOf(s', a, n) == FreeLightning(s)[i]
  }

  /** An instance after the update is an old one with its port, or the `i`-th
      addition on the `i`-th free port, which no live instance holds. */
  lemma NewOrOld(s: State, s': State, id: Uuid, names: seq<string>, a: Uuid, n: string)
    requires id in s.rows && Distinct(names) && |names| <= |FreeLightning(s)|
    requires forall n :: n in names ==> n !in s.rows[id].instances
    requires s' == SetInstances(s, id, s.rows[id].instances + Zip(names, FreeLightning(s)))
    requires HasInstance(s', a, n)
    ensures InLightningRange(PortOf(s', a, n))
         || (HasInstance(s, a, n) && PortOf(s', a, n) == PortOf(s, a, n))
    ensures IsOld(s, s', a, n) || (a == id && IsNew(s, s', names, a, n))
  {
    var ports := FreeLightning(s);
    ZipPorts(names, ports);
    FreeStartsExact(LIGHTNING_PORT_BASE, LIGHTNING_PORT_MAX, HeldLightning(s));
    if a == id && n in names {
      var i :| 0 <= i < |names| && names[i] == n;
      assert ports[i] in ports;
    } else {
      HeldStart(s, a, n);
    }
  }
}
