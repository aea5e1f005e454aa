/** The version catalog: defaults, validation of a selection, and the image
    references an environment is provisioned with. */
module Catalog {
  import opened Prelude
  import opened Versions

  // ---- the catalog, as ordered maps listed in key order

  type Dict<T> = seq<(string, T)>

  predicate Has<T>(d: Dict<T>, key: string) { exists i :: 0 <= i < |d| && d[i].0 == key }

  function Get<T>(d: Dict<T>, key: string): (r: Option<T>)
    ensures r.Some? <==> Has(d, key)
    ensures r.Some? ==> exists i :: 0 <= i < |d| && d[i].0 == key && d[i].1 == r.value
  {
    if d == [] then None
    else if d[0].0 == key then Some(d[0].1)
    else
      var rest := Get(d[1..], key);
      assert Has(d[1..], key) <==> Has(d, key) by {
        if i :| 0 <= i < |d| && d[i].0 == key { assert d[1..][i - 1].0 == key; }
      }
      rest
  }

  datatype VersionEntry = VersionEntry(isDefault: bool, requirements: Dict<string>)

  type Entries = Dict<Dict<VersionEntry>>

  function FirstDefault(versions: Dict<VersionEntry>): Option<string> {
    if versions == [] then None
    else if versions[0].1.isDefault then Some(versions[0].0)
    else FirstDefault(versions[1..])
  }

  /** `default_version`. */
  function DefaultVersion(catalog: Entries, component: string): Option<string> {
    var versions := Get(catalog, component);
    if versions.None? then None else FirstDefault(versions.value)
  }

  function EntryOf(catalog: Entries, component: string, version: string): Option<VersionEntry> {
    var versions := Get(catalog, component);
    if versions.None? then None else Get(versions.value, version)
  }

  /** The version in effect: the pin, or the default. */
  function Effective(catalog: Entries, tags: map<string, string>, component: string): Option<string> {
    if component in tags then Some(tags[component]) else DefaultVersion(catalog, component)
  }

  /** Every requirement of an entry holds, where the dependency has a version in effect. */
  ghost predicate RequirementsHold(catalog: Entries, tags: map<string, string>, entry: VersionEntry) {
    forall i :: 0 <= i < |entry.requirements| ==> RequirementHolds(catalog, tags, entry.requirements[i])
  }

  predicate RequirementHolds(catalog: Entries, tags: map<string, string>, requirement: (string, string)) {
    var version := Effective(catalog, tags, requirement.0);
    version.None? || Satisfies(version.value, requirement.1)
  }

  ghost predicate ComponentOk(catalog: Entries, tags: map<string, string>, component: (string, Dict<VersionEntry>)) {
    var version := Effective(catalog, tags, component.0);
    version.None? || Get(component.1, version.value).None?
    || RequirementsHold(catalog, tags, Get(component.1, version.value).value)
  }

  // ---- the same, from the lists alone

  /** The first place of a key. */
  ghost predicate At<T>(d: Dict<T>, key: string, i: nat) {
    i < |d| && d[i].0 == key && forall j :: 0 <= j < i ==> d[j].0 != key
  }

  /** The first version marked as the default. */
  ghost predicate DefaultAt(versions: Dict<VersionEntry>, k: nat) {
    k < |versions| && versions[k].1.isDefault && forall j :: 0 <= j < k ==> !versions[j].1.isDefault
  }

  /** `v` is the component's version in effect: its pin, or with no pin the first
      version the catalog marks as the default. */
  ghost predicate Chosen(catalog: Entries, tags: map<string, string>, c: string, v: string) {
    if c in tags then v == tags[c]
    else exists i: nat, k: nat :: At(catalog, c, i) && DefaultAt(catalog[i].1, k) && catalog[i].1[k].0 == v
  }

  /** Every pin is a version the catalog has. */
  ghost predicate PinsExist(catalog: Entries, tags: map<string, string>) {
    forall c :: c in tags ==> PinExists(catalog, c, tags[c])
  }

  ghost predicate PinExists(catalog: Entries, c: string, v: string) {
    exists i: nat, k: nat :: At(catalog, c, i) && At(catalog[i].1, v, k)
  }

  /** The `q`-th requirement of the version at `k` of the component at `i`. */
  ghost predicate Requires(catalog: Entries, i: nat, k: nat, q: nat, dependency: string, constraint: string) {
    && i < |catalog| && k < |catalog[i].1| && q < |catalog[i].1[k].1.requirements|
    && catalog[i].1[k].1.requirements[q] == (dependency, constraint)
  }

  /** A requirement of a chosen version that the dependency's chosen version breaks. */
  ghost predicate Broken(catalog: Entries, tags: map<string, string>, i: nat, k: nat, q: nat,
                         dependency: string, constraint: string, selected: string) {
    && Requires(catalog, i, k, q, dependency, constraint)
    && At(catalog[i].1, catalog[i].1[k].0, k) && Chosen(catalog, tags, catalog[i].0, catalog[i].1[k].0)
    && Chosen(catalog, tags, dependency, selected) && !Satisfies(selected, constraint)
  }

  /** No requirement of a chosen version is broken. */
  ghost predicate NoneBroken(catalog: Entries, tags: map<string, string>) {
    forall i: nat, k: nat, q: nat, dependency, constraint, selected ::
      !Broken(catalog, tags, i, k, q, dependency, constraint, selected)
  }

  lemma {:induction false} GetIsFirst<T>(d: Dict<T>, key: string)
    ensures Get(d, key).Some? ==> exists i: nat :: At(d, key, i) && d[i].1 == Get(d, key).value
    ensures forall i: nat :: At(d, key, i) ==> Get(d, key) == Some(d[i].1)
  {
    if d != [] {
      GetIsFirst(d[1..], key);
      if d[0].0 == key {
        assert At(d, key, 0);
      } else {
        if Get(d[1..], key).Some? {
          var i: nat :| At(d[1..], key, i) && d[1..][i].1 == Get(d[1..], key).value;
          assert At(d, key, i + 1) && d[i + 1].1 == d[1..][i].1;
        }
        forall i: nat | At(d, key, i) ensures Get(d, key) == Some(d[i].1) {
          assert forall j :: 0 <= j < i - 1 ==> d[1..][j] == d[j + 1];
          assert At(d[1..], key, i - 1);
        }
      }
    }
  }

  lemma {:induction false} DefaultIsFirst(versions: Dict<VersionEntry>)
    ensures FirstDefault(versions).Some? ==>
      exists k: nat :: DefaultAt(versions, k) && versions[k].0 == FirstDefault(versions).value
    ensures forall k: nat :: DefaultAt(versions, k) ==> FirstDefault(versions) == Some(versions[k].0)
  {
    if versions != [] {
      DefaultIsFirst(versions[1..]);
      if versions[0].1.isDefault {
        assert DefaultAt(versions, 0);
      } else {
        if FirstDefault(versions[1..]).Some? {
          var k: nat :| DefaultAt(versions[1..], k) && versions[1..][k].0 == FirstDefault(versions[1..]).value;
          assert DefaultAt(versions, k + 1) && versions[k + 1] == versions[1..][k];
        }
        forall k: nat | DefaultAt(versions, k) ensures FirstDefault(versions) == Some(versions[k].0) {
          assert forall j :: 0 <= j < k - 1 ==> versions[1..][j] == versions[j + 1];
          assert DefaultAt(versions[1..], k - 1);
        }
      }
    }
  }

  lemma EffectiveIsChosen(catalog: Entries, tags: map<string, string>, c: string, v: string)
    ensures Effective(catalog, tags, c) == Some(v) <==> Chosen(catalog, tags, c, v)
  {
    if c !in tags {
      GetIsFirst(catalog, c);
      if Get(catalog, c).Some? {
        DefaultIsFirst(Get(catalog, c).value);
      }
    }
  }

  lemma PinIsEntry(catalog: Entries, c: string, v: string)
    ensures EntryOf(catalog, c, v).Some? <==> PinExists(catalog, c, v)
  {
    GetIsFirst(catalog, c);
    if Get(catalog, c).Some? {
      GetIsFirst(Get(catalog, c).value, v);
    }
    hide Get;
  }

  /** What the loop over the components checks. */
  lemma ComponentsExactly(catalog: Entries, tags: map<string, string>)
    ensures (forall i :: 0 <= i < |catalog| ==> ComponentOk(catalog, tags, catalog[i])) <==> NoneBroken(catalog, tags)
  {
    hide ComponentOk, Broken;
    forall i: nat, k: nat, q: nat, dependency, constraint, selected | Broken(catalog, tags, i, k, q, dependency, constraint, selected)
      ensures i < |catalog| && !ComponentOk(catalog, tags, catalog[i])
    {
      BrokenIsNotOk(catalog, tags, i, k, q, dependency, constraint, selected);
    }
    forall i | 0 <= i < |catalog| && !ComponentOk(catalog, tags, catalog[i]) ensures !NoneBroken(catalog, tags) {
      var k, q, selected := NotOkIsBroken(catalog, tags, i);
      var requirement := catalog[i].1[k].1.requirements[q];
      assert Broken(catalog, tags, i, k, q, requirement.0, requirement.1, selected);
    }
  }

  lemma BrokenIsNotOk(catalog: Entries, tags: map<string, string>, i: nat, k: nat, q: nat,
                      dependency: string, constraint: string, selected: string)
    requires Broken(catalog, tags, i, k, q, dependency, constraint, selected)
    ensures i < |catalog| && !ComponentOk(catalog, tags, catalog[i])
  {
    var version := catalog[i].1[k].0;
    EffectiveIsChosen(catalog, tags, catalog[i].0, version);
    EffectiveIsChosen(catalog, tags, dependency, selected);
    GetIsFirst(catalog[i].1, version);
    hide Effective, Chosen, Satisfies, Get;
    assert !RequirementHolds(catalog, tags, catalog[i].1[k].1.requirements[q]);
  }

  lemma NotOkIsBroken(catalog: Entries, tags: map<string, string>, i: nat) returns (k: nat, q: nat, selected: string)
    requires i < |catalog| && !ComponentOk(catalog, tags, catalog[i])
    ensures k < |catalog[i].1| && q < |catalog[i].1[k].1.requirements|
    ensures var (dependency, constraint) := catalog[i].1[k].1.requirements[q];
            Broken(catalog, tags, i, k, q, dependency, constraint, selected)
  {
    var version := Effective(catalog, tags, catalog[i].0).value;
    EffectiveIsChosen(catalog, tags, catalog[i].0, version);
    GetIsFirst(catalog[i].1, version);
    var entry := Get(catalog[i].1, version).value;
    hide Effective, Chosen, Satisfies, Get;
    k :| At(catalog[i].1, version, k) && catalog[i].1[k].1 == entry;
    q :| 0 <= q < |entry.requirements| && !RequirementHolds(catalog, tags, entry.requirements[q]);
    var dependency := entry.requirements[q].0;
    selected := Effective(catalog, tags, dependency).value;
    EffectiveIsChosen(catalog, tags, dependency, selected);
  }

  datatype SelectionError =
    | UnknownVersion(component: string, version: string)
    | Conflict(component: string, version: string, dependency: string, constraint: string, selected: string)

  /** `validate_selection`: succeeds exactly when every pin exists and no
      requirement of a version in effect is broken; a refusal names a pin that
      does not exist, or otherwise a requirement that is broken and by what. */
  method ValidateSelection(catalog: Entries, tags: map<string, string>) returns (r: Result<(), SelectionError>)
    ensures r.Ok? <==> PinsExist(catalog, tags) && NoneBroken(catalog, tags)
    ensures r.Err? ==> (r.error.UnknownVersion? <==> !PinsExist(catalog, tags))
    ensures r.Err? && r.error.UnknownVersion? ==>
      r.error.component in tags && tags[r.error.component] == r.error.version
      && !PinExists(catalog, r.error.component, r.error.version)
    ensures r.Err? && r.error.Conflict? ==>
      exists i: nat, k: nat, q: nat :: ConflictAt(catalog, tags, r.error, i, k, q)
  {
    ComponentsExactly(catalog, tags);
    hide PinsExist, PinExists, NoneBroken, ComponentOk, ConflictAt;
    var pins := ValidatePins(catalog, tags);
    if pins.Some? {
      return Err(pins.value);
    }
    for i := 0 to |catalog|
      invariant forall j :: 0 <= j < i ==> ComponentOk(catalog, tags, catalog[j])
    {
      var conflict := ValidateComponent(catalog, tags, i);
      if conflict.Some? {
        return Err(conflict.value);
      }
    }
    r := Ok(());
  }

  /** The conflict reported is the broken requirement found at these places. */
  ghost predicate ConflictAt(catalog: Entries, tags: map<string, string>, e: SelectionError, i: nat, k: nat, q: nat) {
    && e.Conflict? && i < |catalog| && k < |catalog[i].1|
    && catalog[i].0 == e.component && catalog[i].1[k].0 == e.version
    && Broken(catalog, tags, i, k, q, e.dependency, e.constraint, e.selected)
  }

  method ValidatePins(catalog: Entries, tags: map<string, string>) returns (r: Option<SelectionError>)
    ensures r.None? <==> PinsExist(catalog, tags)
    ensures r.Some? ==> r.value.UnknownVersion? && r.value.component in tags
    ensures r.Some? ==> tags[r.value.component] == r.value.version
    ensures r.Some? ==> !PinExists(catalog, r.value.component, r.value.version)
  {
    forall c, v ensures EntryOf(catalog, c, v).Some? <==> PinExists(catalog, c, v) { PinIsEntry(catalog, c, v); }
    hide EntryOf, PinExists;
    var left := tags.Keys;
    while left != {}
      invariant left <= tags.Keys
      invariant forall c :: c in tags && c !in left ==> EntryOf(catalog, c, tags[c]).Some?
      decreases |left|
    {
      var component :| component in left;
      if EntryOf(catalog, component, tags[component]).None? {
        return Some(UnknownVersion(component, tags[component]));
      }
      left := left - {component};
    }
    r := None;
  }

  method ValidateComponent(catalog: Entries, tags: map<string, string>, i: nat) returns (r: Option<SelectionError>)
    requires i < |catalog|
    ensures r.None? <==> ComponentOk(catalog, tags, catalog[i])
    ensures r.Some? ==> r.value.Conflict? && exists k: nat, q: nat :: ConflictAt(catalog, tags, r.value, i, k, q)
  {
    hide Satisfies;
    var (name, versions) := catalog[i];
    var selected := Effective(catalog, tags, name);
    if selected.None? || Get(versions, selected.value).None? {
      return None;
    }
    var entry := Get(versions, selected.value).value;
    for q := 0 to |entry.requirements|
      invariant forall j :: 0 <= j < q ==> RequirementHolds(catalog, tags, entry.requirements[j])
    {
      var (dependency, constraint) := entry.requirements[q];
      var version := Effective(catalog, tags, dependency);
      if version.Some? && !Satisfies(version.value, constraint) {
        assert !RequirementHolds(catalog, tags, entry.requirements[q]);
        ghost var k := ConflictIsBroken(catalog, tags, i, selected.value, entry, q, version.value);
        return Some(Conflict(name, selected.value, dependency, constraint, version.value));
      }
    }
    r := None;
  }

  lemma ConflictIsBroken(catalog: Entries, tags: map<string, string>, i: nat, version: string, entry: VersionEntry,
                         q: nat, selected: string) returns (k: nat)
    requires i < |catalog| && Effective(catalog, tags, catalog[i].0) == Some(version)
    requires Get(catalog[i].1, version) == Some(entry) && q < |entry.requirements|
    requires Effective(catalog, tags, entry.requirements[q].0) == Some(selected)
    requires !Satisfies(selected, entry.requirements[q].1)
    ensures ConflictAt(catalog, tags,
                       Conflict(catalog[i].0, version, entry.requirements[q].0, entry.requirements[q].1, selected), i, k, q)
  {
    EffectiveIsChosen(catalog, tags, catalog[i].0, version);
    EffectiveIsChosen(catalog, tags, entry.requirements[q].0, selected);
    GetIsFirst(catalog[i].1, version);
    hide Effective, Chosen, Satisfies, Get;
    k :| At(catalog[i].1, version, k) && catalog[i].1[k].1 == entry;
  }

  // ---- image references

  predicate IsTagChar(c: char) {
    'a' <= c <= 'z' || 'A' <= c <= 'Z' || '0' <= c <= '9' || c == '.' || c == '_' || c == '-'
  }

  /** `validate_tag`. */
  predicate ValidTag(tag: string) {
    0 < |tag| <= 64 && forall i :: 0 <= i < |tag| ==> IsTagChar(tag[i])
  }

  /** One to 64 letters, digits, dots, underscores and hyphens, by code. */
  ghost predicate LegalTag(tag: string) {
    1 <= |tag| <= 64
    && forall i :: 0 <= i < |tag| ==>
         var code := tag[i] as int;
         97 <= code <= 122 || 65 <= code <= 90 || 48 <= code <= 57 || code == 46 || code == 95 || code == 45
  }

  lemma ValidIsLegal(tag: string)
    ensures ValidTag(tag) <==> LegalTag(tag)
  {
  }

  /** A versionable component: its key, repository and registry prefix. */
  datatype Versioned = Versioned(key: string, repository: string, registry: string)

  const BACKEND := "mempool/backend"
  const FRONTEND := "mempool/frontend"
  const DOCKER := "docker.io/"

  const VERSIONED_COMPONENTS: seq<Versioned> := [
    Versioned("bitcoind", "bitcoin/bitcoin", DOCKER),
    Versioned("electrs", "electrs", "ghcr.io/nully0x/"),
    Versioned("lnd", "lightninglabs/lnd", DOCKER),
    Versioned("explorer", BACKEND, DOCKER)]

  function Reference(c: Versioned, tag: string): string { c.registry + c.repository + ":" + tag }

  /** Position of the first occurrence of a non-empty pattern. */
  function Find(s: string, pattern: string): (r: Option<nat>)
    requires pattern != ""
    ensures r.Some? ==> r.value + |pattern| <= |s| && s[r.value..r.value + |pattern|] == pattern
    decreases |s|
  {
    if pattern <= s then Some(0)
    else if s == "" then None
    else
      var rest := Find(s[1..], pattern);
      if rest.None? then None else Some(rest.value + 1)
  }

  /** `replacen(from, to, 1)`. */
  function ReplaceFirst(s: string, from: string, to: string): string
    requires from != ""
  {
    var at := Find(s, from);
    if at.None? then s else s[..at.value] + to + s[at.value + |from|..]
  }

  lemma {:induction false} FindAfter(prefix: string, pattern: string, rest: string)
    requires pattern != "" && pattern[0] !in prefix
    ensures Find(prefix + pattern + rest, pattern) == Some(|prefix|)
    decreases |prefix|
  {
    var s := prefix + pattern + rest;
    if prefix == "" {
      assert s == pattern + rest;
    } else {
      assert s[0] == prefix[0];
      assert s[1..] == prefix[1..] + pattern + rest;
      FindAfter(prefix[1..], pattern, rest);
    }
  }

  lemma ReplaceAfter(prefix: string, from: string, to: string, rest: string)
    requires from != "" && from[0] !in prefix
    ensures ReplaceFirst(prefix + from + rest, from, to) == prefix + to + rest
  {
    FindAfter(prefix, from, rest);
    var s := prefix + from + rest;
    assert s[..|prefix|] == prefix && s[|prefix| + |from|..] == rest;
  }

  lemma {:induction false} ReplaceSelf(s: string, from: string)
    requires from != ""
    ensures ReplaceFirst(s, from, from) == s
  {
    var at := Find(s, from);
    if at.Some? {
      assert s == s[..at.value] + s[at.value..at.value + |from|] + s[at.value + |from|..];
    }
  }

  datatype ImageError = BadTag | UnknownComponent | Incompatible

  /** A component has a version in effect that is a legal tag. */
  predicate HasTag(catalog: Entries, tags: map<string, string>, key: string) {
    var version := Effective(catalog, tags, key);
    version.Some? && ValidTag(version.value)
  }

  function TagOf(catalog: Entries, tags: map<string, string>, key: string): string
    requires HasTag(catalog, tags, key)
  {
    Effective(catalog, tags, key).value
  }

  ghost predicate DistinctKeys(table: seq<Versioned>) {
    forall i, j :: 0 <= i < j < |table| ==> table[i].key != table[j].key
  }

  /** The loop over the versionable components: one reference each, on the
      version in effect. */
  method VersionedImages(catalog: Entries, tags: map<string, string>, table: seq<Versioned>, base: map<string, string>)
    returns (r: Result<map<string, string>, ImageError>)
    requires DistinctKeys(table)
    ensures r.Ok? <==> forall i :: 0 <= i < |table| ==> HasTag(catalog, tags, table[i].key)
    ensures r.Ok? ==> forall k :: k in r.value <==> k in base || exists i :: 0 <= i < |table| && table[i].key == k
    ensures r.Ok? ==> forall i :: 0 <= i < |table| ==>
      table[i].key in r.value && r.value[table[i].key] == Reference(table[i], TagOf(catalog, tags, table[i].key))
    ensures r.Ok? ==> forall k :: k in base && (forall i :: 0 <= i < |table| ==> table[i].key != k) ==> r.value[k] == base[k]
  {
    hide Effective, ValidTag, Reference;
    var images := base;
    for n := 0 to |table|
      invariant forall i :: 0 <= i < n ==> HasTag(catalog, tags, table[i].key)
      invariant forall k :: k in images <==> k in base || exists i :: 0 <= i < n && table[i].key == k
      invariant forall i :: 0 <= i < n ==>
        table[i].key in images && images[table[i].key] == Reference(table[i], TagOf(catalog, tags, table[i].key))
      invariant forall k :: k in base && (forall i :: 0 <= i < n ==> table[i].key != k) ==> images[k] == base[k]
    {
      var tag := Effective(catalog, tags, table[n].key);
      if tag.None? {
        return Err(UnknownComponent);
      }
      if !ValidTag(tag.value) {
        return Err(BadTag);
      }
      images := images[table[n].key := Reference(table[n], tag.value)];
    }
    r := Ok(images);
  }

  method TagsAreValid(tags: map<string, string>) returns (ok: bool)
    ensures ok <==> forall c :: c in tags ==> LegalTag(tags[c])
  {
    forall v ensures ValidTag(v) <==> LegalTag(v) { ValidIsLegal(v); }
    var left := tags.Keys;
    while left != {}
      invariant left <= tags.Keys
      invariant forall c :: c in tags && c !in left ==> ValidTag(tags[c])
      decreases |left|
    {
      var component :| component in left;
      if !ValidTag(tags[component]) {
        return false;
      }
      left := left - {component};
    }
    ok := true;
  }

  const FIXED_KEYS := {"signer", "faucet", "explorer-web"}

  lemma ShippedTable()
    ensures DistinctKeys(VERSIONED_COMPONENTS) && |VERSIONED_COMPONENTS| == 4
    ensures VERSIONED_COMPONENTS[3] == Versioned("explorer", BACKEND, DOCKER)
    ensures forall i :: 0 <= i < 4 ==> VERSIONED_COMPONENTS[i].key !in FIXED_KEYS
  {
  }

  ghost predicate IsVersioned(key: string) {
    exists i :: 0 <= i < |VERSIONED_COMPONENTS| && VERSIONED_COMPONENTS[i].key == key
  }

  /** Backend and frontend of the explorer, on one tag. */
  ghost predicate ExplorerOn(images: map<string, string>, tag: string) {
    && "explorer" in images && images["explorer"] == "docker.io/mempool/backend" + ":" + tag
    && "explorer-web" in images && images["explorer-web"] == "docker.io/mempool/frontend" + ":" + tag
  }

  lemma FrontendOfBackend(tag: string)
    ensures ReplaceFirst(DOCKER + BACKEND + ":" + tag, BACKEND, FRONTEND) == DOCKER + FRONTEND + ":" + tag
  {
    ConcatAssoc(DOCKER + BACKEND, ":", tag);
    ConcatAssoc(DOCKER + FRONTEND, ":", tag);
    ReplaceAfter(DOCKER, BACKEND, FRONTEND, ":" + tag);
  }

  /** The component has a version in effect, and that is a legal tag. */
  ghost predicate Tagged(catalog: Entries, tags: map<string, string>, c: string) {
    exists v :: Chosen(catalog, tags, c, v) && LegalTag(v)
  }

  /** The image is a repository on the component's version in effect. */
  ghost predicate On(catalog: Entries, tags: map<string, string>, c: string, image: string, repository: string) {
    exists v :: Chosen(catalog, tags, c, v) && image == repository + ":" + v
  }

  lemma TaggedExactly(catalog: Entries, tags: map<string, string>, c: string)
    ensures HasTag(catalog, tags, c) <==> Tagged(catalog, tags, c)
    ensures HasTag(catalog, tags, c) ==> Chosen(catalog, tags, c, TagOf(catalog, tags, c))
  {
    forall v ensures Effective(catalog, tags, c) == Some(v) <==> Chosen(catalog, tags, c, v) {
      EffectiveIsChosen(catalog, tags, c, v);
    }
    forall v ensures ValidTag(v) <==> LegalTag(v) { ValidIsLegal(v); }
    hide Effective, Chosen, ValidTag, LegalTag;
  }

  lemma TagsExactly(catalog: Entries, tags: map<string, string>)
    ensures (forall i :: 0 <= i < |VERSIONED_COMPONENTS| ==> HasTag(catalog, tags, VERSIONED_COMPONENTS[i].key)) <==>
      && Tagged(catalog, tags, "bitcoind") && Tagged(catalog, tags, "electrs")
      && Tagged(catalog, tags, "lnd") && Tagged(catalog, tags, "explorer")
  {
    forall c ensures HasTag(catalog, tags, c) <==> Tagged(catalog, tags, c) { TaggedExactly(catalog, tags, c); }
    hide HasTag, Tagged;
    var t := VERSIONED_COMPONENTS;
    assert t[0].key == "bitcoind" && t[1].key == "electrs" && t[2].key == "lnd" && t[3].key == "explorer";
  }

  lemma ShippedKeys()
    ensures forall k :: k in FIXED_KEYS || IsVersioned(k) <==>
      k in {"signer", "faucet", "bitcoind", "electrs", "lnd", "explorer", "explorer-web"}
  {
    var t := VERSIONED_COMPONENTS;
    assert t[0].key == "bitcoind" && t[1].key == "electrs" && t[2].key == "lnd" && t[3].key == "explorer";
  }

  /** The references made from the table, spelled out. */
  lemma ReferencesExactly(catalog: Entries, tags: map<string, string>, images: map<string, string>)
    requires forall i :: 0 <= i < |VERSIONED_COMPONENTS| ==>
      var c := VERSIONED_COMPONENTS[i];
      HasTag(catalog, tags, c.key) && c.key in images && images[c.key] == Reference(c, TagOf(catalog, tags, c.key))
    requires "explorer" in images && "explorer-web" in images && images["explorer-web"] == ReplaceFirst(images["explorer"], BACKEND, FRONTEND)
    ensures "bitcoind" in images && On(catalog, tags, "bitcoind", images["bitcoind"], "docker.io/bitcoin/bitcoin")
    ensures "electrs" in images && On(catalog, tags, "electrs", images["electrs"], "ghcr.io/nully0x/electrs")
    ensures "lnd" in images && On(catalog, tags, "lnd", images["lnd"], "docker.io/lightninglabs/lnd")
    ensures exists v :: Chosen(catalog, tags, "explorer", v) && ExplorerOn(images, v)
  {
    var t := VERSIONED_COMPONENTS;
    hide ReplaceFirst, HasTag, Effective, Chosen;
    assert t[0].key == "bitcoind" && t[1].key == "electrs" && t[2].key == "lnd" && t[3].key == "explorer";
    TaggedExactly(catalog, tags, "bitcoind");
    TaggedExactly(catalog, tags, "electrs");
    TaggedExactly(catalog, tags, "lnd");
    TaggedExactly(catalog, tags, "explorer");
    ExplorerRepositories();
    NodeRepositories();
    ElectrsRepository();
    var tag := TagOf(catalog, tags, "explorer");
    assert Reference(t[0], TagOf(catalog, tags, "bitcoind")) == "docker.io/bitcoin/bitcoin" + ":" + TagOf(catalog, tags, "bitcoind");
    assert Reference(t[1], TagOf(catalog, tags, "electrs")) == "ghcr.io/nully0x/electrs" + ":" + TagOf(catalog, tags, "electrs");
    assert Reference(t[2], TagOf(catalog, tags, "lnd")) == "docker.io/lightninglabs/lnd" + ":" + TagOf(catalog, tags, "lnd");
    FrontendOfBackend(tag);
    assert ExplorerOn(images, tag);
  }

  lemma ExplorerRepositories()
    ensures DOCKER + BACKEND == "docker.io/mempool/backend" && DOCKER + FRONTEND == "docker.io/mempool/frontend"
  {
  }

  lemma NodeRepositories()
    ensures DOCKER + "bitcoin/bitcoin" == "docker.io/bitcoin/bitcoin"
    ensures DOCKER + "lightninglabs/lnd" == "docker.io/lightninglabs/lnd"
  {
  }

  lemma ElectrsRepository()
    ensures "ghcr.io/nully0x/" + "electrs" == "ghcr.io/nully0x/electrs"
  {
  }

  /** The image map of an environment, spelled out. */
  ghost predicate AsListed(catalog: Entries, tags: map<string, string>, images: map<string, string>) {
    && images.Keys == {"signer", "faucet", "bitcoind", "electrs", "lnd", "explorer", "explorer-web"}
    && images["signer"] == "signet-signer:dev" && images["faucet"] == "signet-faucet:dev"
    && On(catalog, tags, "bitcoind", images["bitcoind"], "docker.io/bitcoin/bitcoin")
    && On(catalog, tags, "electrs", images["electrs"], "ghcr.io/nully0x/electrs")
    && On(catalog, tags, "lnd", images["lnd"], "docker.io/lightninglabs/lnd")
    && exists v :: Chosen(catalog, tags, "explorer", v) && ExplorerOn(images, v)
  }

  /** The fixed references, those of the versionable components, and the
      explorer's frontend. */
  method References(catalog: Entries, tags: map<string, string>) returns (r: Result<map<string, string>, ImageError>)
    ensures r.Ok? <==>
      && Tagged(catalog, tags, "bitcoind") && Tagged(catalog, tags, "electrs")
      && Tagged(catalog, tags, "lnd") && Tagged(catalog, tags, "explorer")
    ensures r.Ok? ==> AsListed(catalog, tags, r.value)
  {
    ShippedTable();
    TagsExactly(catalog, tags);
    hide Tagged, HasTag, TagOf, AsListed, ReplaceFirst, Reference;
    var base: map<string, string> := map["signer" := "signet-signer:dev", "faucet" := "signet-faucet:dev"];
    var versioned := VersionedImages(catalog, tags, VERSIONED_COMPONENTS, base);
    if versioned.Err? {
      return Err(versioned.error);
    }
    var images := versioned.value;
    assert VERSIONED_COMPONENTS[3].key in images;
    WithFrontend(catalog, tags, images);
    images := images["explorer-web" := ReplaceFirst(images["explorer"], BACKEND, FRONTEND)];
    r := Ok(images);
  }

  lemma WithFrontend(catalog: Entries, tags: map<string, string>, images: map<string, string>)
    requires forall i :: 0 <= i < |VERSIONED_COMPONENTS| ==>
      var c := VERSIONED_COMPONENTS[i];
      HasTag(catalog, tags, c.key) && c.key in images && images[c.key] == Reference(c, TagOf(catalog, tags, c.key))
    requires forall k :: k in images <==> k == "signer" || k == "faucet" || IsVersioned(k)
    requires images["signer"] == "signet-signer:dev" && images["faucet"] == "signet-faucet:dev"
    requires "explorer" in images
    ensures AsListed(catalog, tags, images["explorer-web" := ReplaceFirst(images["explorer"], BACKEND, FRONTEND)])
  {
    hide HasTag, TagOf, On, Chosen, ReplaceFirst, Reference, ExplorerOn;
    var all := images["explorer-web" := ReplaceFirst(images["explorer"], BACKEND, FRONTEND)];
    ShippedTable();
    ReferencesExactly(catalog, tags, all);
    ShippedKeys();
    assert forall k :: k in all <==> k in FIXED_KEYS || IsVersioned(k);
  }

  /** `resolve_images`: succeeds exactly when every pin is a legal tag, the
      selection is allowed, and each versionable component has a version in
      effect that is a legal tag. The references are those versions of the
      components' repositories, backend and frontend of the explorer on one. */
  method ResolveImages(catalog: Entries, tags: map<string, string>) returns (r: Result<map<string, string>, ImageError>)
    ensures r.Ok? <==>
      && (forall c :: c in tags ==> LegalTag(tags[c])) && PinsExist(catalog, tags) && NoneBroken(catalog, tags)
      && Tagged(catalog, tags, "bitcoind") && Tagged(catalog, tags, "electrs")
      && Tagged(catalog, tags, "lnd") && Tagged(catalog, tags, "explorer")
    ensures !(forall c :: c in tags ==> LegalTag(tags[c])) ==> r == Err(BadTag)
    ensures (forall c :: c in tags ==> LegalTag(tags[c])) && !(PinsExist(catalog, tags) && NoneBroken(catalog, tags)) ==>
      r == Err(Incompatible)
    ensures r.Ok? ==> AsListed(catalog, tags, r.value)
  {
    hide Tagged, LegalTag, PinsExist, NoneBroken, AsListed;
    var valid := TagsAreValid(tags);
    if !valid {
      return Err(BadTag);
    }
    var checked := ValidateSelection(catalog, tags);
    if checked.Err? {
      return Err(Incompatible);
    }
    r := References(catalog, tags);
  }

  // ---- container references

  datatype Container = Container(name: string, repository: string)

  /** Containers of the registered component of this key; none for other keys. */
  function ContainersOf(key: string): seq<Container> {
    if key == "electrs" then [Container("electrs", "electrs")]
    else if key == "faucet" then [Container("faucet", "signet-faucet")]
    else if key == "explorer" then [Container("explorer", BACKEND), Container("explorer-web", FRONTEND)]
    else []
  }

  /** What is patched in for one key: its containers' references, or itself. */
  function Patch(key: string, image: string): map<string, string> {
    var containers := ContainersOf(key);
    if containers == [] then map[key := image]
    else if |containers| == 1 then
      map[containers[0].name := ReplaceFirst(image, ContainersRepo(key), containers[0].repository)]
    else
      map[containers[0].name := ReplaceFirst(image, ContainersRepo(key), containers[0].repository),
          containers[1].name := ReplaceFirst(image, ContainersRepo(key), containers[1].repository)]
  }

  function ContainersRepo(key: string): (r: string)
    requires ContainersOf(key) != []
    ensures r != ""
  {
    ContainersOf(key)[0].repository
  }

  /** `container_images`, visiting the keys in the given order. On the images
      of a resolved selection it changes nothing: every container gets the
      reference of its component, backend and frontend on one tag. */
  method ContainerImages(images: map<string, string>, order: seq<string>) returns (patched: map<string, string>)
    requires Elements(order) == images.Keys
    ensures forall tag :: ExplorerOn(images, tag) ==> patched == images
    ensures forall k :: k in patched <==> k in images || (k == "explorer-web" && "explorer" in images)
  {
    hide ReplaceFirst, Find;
    patched := map[];
    for i := 0 to |order|
      invariant forall k :: k in patched <==> k in order[..i] || (k == "explorer-web" && "explorer" in order[..i])
      invariant forall tag :: ExplorerOn(images, tag) ==> forall k :: k in patched ==> k in images && patched[k] == images[k]
    {
      var key := order[i];
      assert order[..i + 1] == order[..i] + [key];
      assert key in Elements(order);
      PatchKeeps(images, key);
      patched := patched + Patch(key, images[key]);
    }
    assert order[..|order|] == order;
    assert forall k :: k in order <==> k in Elements(order);
  }

  lemma PatchKeeps(images: map<string, string>, key: string)
    requires key in images
    ensures forall k :: k in Patch(key, images[key]) <==> k == key || (k == "explorer-web" && key == "explorer")
    ensures forall tag :: ExplorerOn(images, tag) ==>
      forall k :: k in Patch(key, images[key]) ==> k in images && Patch(key, images[key])[k] == images[k]
  {
    hide ReplaceFirst, Find;
    if ContainersOf(key) != [] {
      ReplaceSelf(images[key], ContainersRepo(key));
    }
    if key == "explorer" {
      forall tag | ExplorerOn(images, tag)
        ensures ReplaceFirst(images[key], BACKEND, FRONTEND) == images["explorer-web"]
      {
        FrontendOfBackend(tag);
        ExplorerRepositories();
      }
    }
  }
}
