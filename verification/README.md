# Signet sandbox: verified model

A Dafny 4.11 model of the parts of signet-sandbox where mistakes are hardest to see:

- **Block signer** (`Bytes`, `Script`, `CompactSize`, `Merkle`, `Chain`, `Bip34`, `Signer`, `Bip325`, `Agreement`).
  `Signer` follows `assemble_block` step by step. `Bip325` is written from the Specification section of
  BIP325 and the "Commitment structure" section of BIP141 without looking at the signer. `Agreement` proves
  that the two meet: from the finished block the verifier recovers the appended solution and rebuilds
  the transactions that were signed.
- **Nonce search** (`Grind`): worker threads as interleaved atomic steps with stale flag reads.
- **Environment lifecycle** (`Registry`, `Invariants`, `Admission`, `Decisions`, `Runs`, `LifecycleTheorems`,
  `Updates`, `Creation`, `Leftovers`, `SharedIds`, `Occupancy`, `StrandedRun`, `Platform`).
  `Registry` says what each event does to rows and namespaces, `Platform.Service` is the class whose
  methods follow the request handlers and the reaper, `Invariants`, `Runs` and `LifecycleTheorems` hold what
  every run keeps. `Admission`, `Decisions`, `Updates` and `Creation` say what each event decides and changes, from
  statuses, names and port numbers alone. `Leftovers` gives the exact histories of namespaces without an environment and
  environments without a namespace, `SharedIds` the runs in which two environments share a namespace name,
  `Occupancy` relates the host ports the cluster has bound to the ports the rows claim, and `StrandedRun` is a
  run in which the two part.
- **Port allocation** (`PortPool`), **lightning mesh** (`Mesh`), **component selection** (`Components`),
  **versions and images** (`Versions`, `Catalog`), **lifetimes** (`Ttl`), **numbers and hex** (`Decimal`, `Hex`).

Reading guide to the assumptions, each of which is a parameter or a precondition:

- Hashes, signatures, signature hashes and proof of work are uninterpreted functions (`Chain.Primitives`).
  No injectivity is assumed: where uniqueness of a merkle root matters, the lists are equal exactly when the
  two trees nowhere hash different children at one place to the same parent. Transaction ids are a function of the transaction without its
  witness.
- Fields that the source parses from text (challenge, transactions, previous hash, bits) arrive in
  `Signer.Template` as parsed values, or None where parsing fails.
- Each request, reaper pass and outside event is one atomic step, database writes succeed, and what the
  cluster answers (existence check, readiness, failed deletes) is a parameter of the event. A namespace is
  gone once its deletion is accepted.
- A created id shares its first twelve hex digits with no earlier id (`Invariants.FreshId`).
  Ids are time-ordered and these digits are their millisecond, so two creates in one millisecond break it;
  `SharedIds` drops the assumption and shows what happens then.
- Ordered maps that are iterated are listed as sequences in key order, or visited in arbitrary order where the
  result does not depend on it.

Findings where the code does not do what its text says:

- `append_push` truncates the length of data past 65535 bytes (`Script.AppendPushParses`); the signer only
  pushes solutions far below that (`Agreement.SolutionFits`).
- `decode_hex` accepts text that is not hex, such as `+f`: what it accepts is `Hex.DecodesExactly`, and when
  that is hex is `Hex.EncodeDecode`.
- A version target beginning with `=` merges with the operator (`Versions.TrichotomyExact`).
- `set_lightning_instances` is documented as called by create only; update calls it too.
- Records in a dead status are documented as having no cluster state left. That holds throughout a run exactly
  when no create fails inside its namespace with a failing teardown (`Leftovers.RunDeadClean`); one such
  create is `SharedIds.LeakingRun`.
- A create that meets a namespace of the same short id tears that namespace down, and the environment it
  belongs to is then expired (`SharedIds.CollidingCreate`, `SharedIds.CollidingRun`). Two live environments on one short id are
  reachable too, and the reaper then expires one that was never to expire (`SharedIds.TwoLiveRun`). The reaper
  expires only what is due exactly under the condition of `SharedIds.OnlyDueExactly`.
- An update that fails in the cluster after some services exist leaves their host ports bound while the
  registry hands them out again (`StrandedRun.BoundTwiceRun`). Bound ports stay apart throughout a run
  as long as no request fails that way (`Occupancy.RunBacked`, `Occupancy.BackedIsDisjoint`).
- A create that finds the lightning pool short leaves a live row without a namespace
  (`Creation.ShortPoolLeavesOrphan`), which lives on exactly until a request checks for it or destroys it (`Leftovers.GoneForGood`).

## Model

| member | source | states |
|---|---|---|
| Script.AppendPush | crates/signet-signer/src/signet.rs:46-61 | the bytes `append_push` leaves, byte for byte in each of the three length forms, including the two-byte length cast |
| Script.AppendPushParses | crates/signet-signer/src/signet.rs:46-61 | a script reader sees the old instructions and then one push of the data, exactly when the data is at most 65535 bytes |
| Script.ParseConcat | crates/signet-signer/src/signet.rs:46-61 | appending to a script never changes how its existing bytes are read |
| Script.CorePushParses | crates/signet-signer/src/signet.rs:204-207 | a shortest-form push reads back as one instruction with its data |
| CompactSize.Write | crates/signet-signer/src/signet.rs:89-103 | the signer's size prefix, byte for byte |
| CompactSize.Append | crates/signet-orchestrator/src/lib.rs:379-389 | the orchestrator's size prefix is byte for byte the signer's, appended in place |
| CompactSize.RoundTrip | crates/signet-signer/src/signet.rs:89-103 | the canonical reader undoes the prefix and leaves the rest of the input, exactly for lengths below 2^32 |
| Merkle.MerkleRoot | crates/signet-signer/src/signet.rs:63-83 | the level loop returns the zero hash for no leaves and otherwise the top node of the tree defined top-down with duplicated last nodes |
| Merkle.RootIsTop | crates/signet-signer/src/signet.rs:67-82 | level-by-level hashing and the top-down definition agree for every list |
| Merkle.BranchFoldsToRoot | crates/signet-signer/src/signet.rs:67-82 | every leaf's authentication branch folds back to the root |
| Merkle.BranchBindsLeaf | crates/signet-signer/src/signet.rs:67-82 | a branch of the right length that folds to the root carries the leaf and its own siblings exactly when no step of the fold hashes a pair other than the tree's to the tree's hash |
| Merkle.RootBindsLeaves | crates/signet-signer/src/signet.rs:67-82 | equally long lists with one root are equal exactly when their trees nowhere hash different children at one place to one parent |
| Merkle.DuplicateLastKeepsRoot | crates/signet-signer/src/signet.rs:67-71 | repeating the last leaf of an odd list of three or more does not change the root |
| Bip34.HeightBytes | crates/signet-signer/src/signet.rs:119-133 | the byte loop computes the little-endian digits with a zero byte where the top bit is set |
| Bip34.CoinbaseScriptSig | crates/signet-signer/src/signet.rs:140-153 | the coinbase script bytes for each height range |
| Bip34.HeightBytesDecode | crates/signet-signer/src/signet.rs:119-133 | the bytes are a minimal script number whose value is the height |
| Bip34.MinimalUnique | crates/signet-signer/src/signet.rs:135-139 | a positive value has one minimal script number, so Core pushes the same bytes |
| Bip34.StartsWithCorePush | crates/signet-signer/src/signet.rs:135-153 | for every u32 height the script has a legal length and starts with Core's push of the height, whatever minimal number that push carries |
| Bip34.ScriptSigInjective | crates/signet-signer/src/signet.rs:140-153 | different heights give different scripts |
| Signer.WitnessCommitmentScript | crates/signet-signer/src/signet.rs:105-117 | the commitment output script over the given witness ids and reserved value |
| Signer.AssembleBlock | crates/signet-signer/src/signet.rs:244-343 | which error each bad template gives; otherwise the draft block with a nonce under 2^32 that meets the target, or NoNonce exactly when none does |
| Agreement.ClearUndoesPush | crates/signet-signer/src/signet.rs:280-317 | clearing the finished commitment script yields the appended solution and the script that was signed over |
| Agreement.FinalCoinbase | crates/signet-signer/src/signet.rs:155-184 | for every reward script the verifier selects the last output, whose first 38 bytes are the commitment despite the appended push |
| Agreement.DraftCoinbaseOk | crates/signet-signer/src/signet.rs:155-184 | the block's coinbase has one input that spends nothing and a script of legal length that starts with Core's push of the template's height |
| Agreement.DraftFollowsTemplate | crates/signet-signer/src/signet.rs:244-343 | version, parent, bits, the later time, the reward output and the transactions in order are the template's |
| Agreement.SolutionRecovered | crates/signet-signer/src/signet.rs:235-242 | the solution bytes in the block decode to the signature script and an empty witness with nothing left over |
| Agreement.VerifierDerivesSignedTransactions | crates/signet-signer/src/signet.rs:280-342 | for every template, reward script, key, target bits and nonce the verifier rebuilds exactly the signed transactions from the block |
| Agreement.SolutionFits | crates/signet-signer/src/signet.rs:307-317 | the signature lengths for which the solution push is not truncated are those up to 65522 bytes |
| Agreement.OneKeyUnlocks | crates/signet-signer/src/signet.rs:37-44 | running the signature script and the one-key challenge succeeds exactly when the key accepts the signature |
| Agreement.DraftSolvesChallenge | crates/signet-signer/src/signet.rs:299-305 | the block solves its challenge exactly when the public key verifies the signature of the message that was signed |
| Agreement.DraftCommitmentHolds | crates/signet-signer/src/signet.rs:267-272 | the BIP141 commitment check passes on the final block, the coinbase counting as zero and the reserved value matching |
| Agreement.AssembledBlockAccepted | crates/signet-signer/src/signet.rs:319-342 | coinbase input, height and script length, header root, target, commitment and solution of a returned block are accepted exactly when the key verifies its own signature |
| Agreement.HonestBlockAccepted | crates/signet-signer/src/signet.rs:244-343 | with a scheme that verifies what it signs, every returned block for the key's own challenge is accepted |
| Agreement.SolutionLayout | crates/signet-signer/src/signet.rs:235-242 | the solution byte for byte for DER-length signatures, hash type included |
| Agreement.SameRoot | crates/signet-signer/src/signet.rs:63-83 | the verifier's tree of double hashes and the signer's loop have one root |
| Chain.WitnessIsAllThatGoes | crates/signet-signer/src/signet.rs:264-292 | dropping witnesses identifies exactly the transactions that agree in all else, and without witnesses both ids are one |
| Agreement.SignatureBindsBlock | crates/signet-signer/src/signet.rs:186-215 | blocks of equal length with one to_spend agree in version, parent and time, and in every transaction id exactly when the merkle trees over those ids do not collide at any place |
| Grind.StepInv | crates/signet-signer/src/signet.rs:360-374 | each atomic step of any worker keeps what is known about tried nonces, whatever a relaxed flag load returns |
| Grind.EveryRunIsSafeAndBounded | crates/signet-signer/src/signet.rs:353-377 | in every interleaving the invariant holds and the run is no longer than its initial budget |
| Grind.JoinedResult | crates/signet-signer/src/signet.rs:379 | after the joins, Some meets the target and None means that no nonce of the range does |
| Grind.FlagTellsResult | crates/signet-signer/src/signet.rs:360-374 | once all threads are joined the stop flag is set exactly when there is a result |
| Grind.SeenIsLast | crates/signet-signer/src/signet.rs:360-366 | a worker that sees the flag set tries no further nonce in the run |
| Grind.StridesPartition | crates/signet-signer/src/signet.rs:359-373 | each nonce lies in the stride of exactly one worker |
| Grind.Search | crates/signet-signer/src/signet.rs:353-380 | the threaded search under an arbitrary scheduler ends with a correct answer |
| Grind.GrindNonce | crates/signet-signer/src/signet.rs:345-380 | the same for the thread count taken from the machine |
| PortPool.LowestFreePort | crates/signet-db/src/lib.rs:327-346 | the least port of the range not held, None exactly when all are held, for held lists in any order with repeats and strays |
| PortPool.FreePortTriple | crates/signet-db/src/lib.rs:237-248 | the least aligned start of the range whose three ports are free |
| PortPool.NextLightningPorts | crates/signet-db/src/lib.rs:269-290 | the first free aligned starts in order, failing exactly when fewer than requested are free |
| PortPool.FreeStartsExact | crates/signet-db/src/lib.rs:239-248 | the listing is the set of free aligned starts, ascending and of the same size |
| PortPool.AllocationIsDisjoint | crates/signet-db/src/lib.rs:276-289 | allocated triples are ascending, aligned, in range, free and pairwise disjoint |
| PortPool.GreedyIsOptimal | crates/signet-db/src/lib.rs:276-289 | no choice of free aligned triples is larger than what greedy allocation can hand out |
| PortPool.ShippedCapacity | crates/signet-orchestrator/src/lib.rs:41-65 | the lightning range holds exactly 66 triples, starting at 20202, inside the published window and clear of the other pools |
| Platform.ValidateLightning | crates/signet-api/src/rpc.rs:272-307 | accepts exactly lists of distinct labels of one to 63 letters, digits and hyphens that are all lnd, and otherwise names the first offender and what is wrong with it |
| Platform.Service.SetEnvironmentStatus | crates/signet-db/src/lib.rs:147-155 | sets the status of one row and nothing else |
| Platform.Service.MarkExpiredByShortId | crates/signet-db/src/lib.rs:157-169 | expires every row with the short id that is not destroyed, and counts them |
| Platform.Service.PurgeEnvironment | crates/signet-db/src/lib.rs:348-360 | removes a row only when it is dead |
| Platform.Service.SetLightningInstances | crates/signet-db/src/lib.rs:178-206 | replaces an environment's instances by the kept ones and the zipped new ones |
| Platform.Service.HeldLightningPorts | crates/signet-db/src/lib.rs:222-235 | three ports for each instance of a live environment, and no others |
| Platform.Service.NextElectrumPort | crates/signet-db/src/lib.rs:292-309 | the lowest electrum port no live environment holds |
| Platform.Service.ResolveEnvironment | crates/signet-api/src/rpc.rs:243-270 | a row for an id, or for one of the caller's names; None only when there is none |
| Platform.Service.ReconcileReaped | crates/signet-api/src/rpc.rs:960-983 | expires a live row exactly when the check worked and the namespace is gone |
| Platform.Service.Get | crates/signet-api/src/rpc.rs:604-638 | refused without change, or has the effect of the get event on the caller's row and reports the row's resulting status |
| Platform.Service.UpdateRequested | crates/signet-api/src/rpc.rs:788-958 | refused without change, or has the effect of the update event on the caller's row; it reports success exactly when the row is ready and names what was asked for, and an internal failure exactly when versions or the cluster failed a proper extension |
| Platform.Service.ChangeLifecycle | crates/signet-api/src/rpc.rs:1019-1114 | refused without change, or has the effect of the stop or start event on the caller's row; it reports the new status exactly when the status changed to it, and a failure exactly when the status was right and stayed |
| Platform.Service.DestroyRequest | crates/signet-api/src/rpc.rs:1116-1151 | refused without change, or has the effect of the destroy event; it reports removal exactly when the teardown worked, and then the row is destroyed and the namespace gone |
| Platform.Service.DeleteRequest | crates/signet-api/src/rpc.rs:1153-1197 | refused without change, or has the effect of the delete event; it reports removal exactly when the row was expired or destroyed, and exactly when it is gone afterwards |
| Platform.Service.CreateRequested | crates/signet-api/src/rpc.rs:330-602 | every branch of create has the effect of the create event; it is refused exactly when it is not admitted or the lightning pool is short, and otherwise accepted or failed as the cluster decides |
| Platform.Service.ReapExpired | crates/signet-orchestrator/src/reaper.rs:15-33 | deletes and returns exactly the past-due namespaces whose deletion works |
| Platform.Service.ReaperPass | crates/signet-api/src/main.rs:87-112 | one round of the reaper loop has the effect of the reap event, whatever deletions and row updates fail |
| Invariants.TrimEnvExact | crates/signet-api/src/main.rs:92-96 | the namespace names the reaper maps to an environment are its short id behind any number of prefixes |
| Invariants.InsertInv | crates/signet-db/src/lib.rs:69-102 | a row with freshly allocated ports under a free name keeps ports disjoint, names unique and namespaces matched |
| Invariants.AddInstancesInv | crates/signet-api/src/rpc.rs:886-946 | recording additions on free triples keeps all live triples apart |
| Admission.AdmittedExactly | crates/signet-api/src/rpc.rs:330-500 | the create handler's checks pass exactly for readable versions, a lifetime within bounds, a name no live row of the owner has, a proper list, and a free port in each pool asked |
| Admission.ElectrumExactly | crates/signet-api/src/rpc.rs:432-459 | a create is refused for want of an electrum port exactly when it asks for one and none of 20000 to 20099 is unheld by live rows; otherwise it gets the least |
| Admission.ExplorerExactly | crates/signet-api/src/rpc.rs:399-429 | the same for the explorer, where explorers get ports |
| Admission.PoolIsClear | crates/signet-db/src/lib.rs:222-290 | the lightning pool is every aligned triple of 20200 to 20399 that no live instance's triple touches, ascending |
| Decisions.RequestExactly | crates/signet-api/src/rpc.rs:604-638 | a get, stop or start gives its row the status of a decision table over status, check, presence and answer, and changes nothing else |
| Decisions.DestroyExactly | crates/signet-api/src/rpc.rs:1116-1151 | an accepted destroy leaves the row destroyed and takes its namespace; any other changes nothing |
| Decisions.DeleteExactly | crates/signet-api/src/rpc.rs:1153-1197 | a delete removes exactly the expired or destroyed row it names and changes nothing else |
| Decisions.UpdateFrame | crates/signet-api/src/rpc.rs:788-958 | an update changes nothing but its row's instances and, when the namespace is found gone, that row's status |
| Decisions.ReapExactly | crates/signet-orchestrator/src/reaper.rs:15-85 | a pass removes exactly the labelled namespaces past a readable expiry whose deletion works, row or no row, and expires exactly the rows, destroyed ones excepted, that such names trim to |
| Runs.StepInv | crates/signet-api/src/rpc.rs:330-1197 | every event keeps the port, name, id and namespace invariant |
| Runs.RunInv | crates/signet-api/src/rpc.rs:330-1197 | the invariant holds in every state of every run from the empty platform |
| Runs.LivePortsDisjoint | crates/signet-db/src/lib.rs:222-346 | live environments claim pairwise disjoint ports inside the window, and within one environment electrum, explorer and triples do not overlap |
| LifecycleTheorems.DeathIsFinal | crates/signet-api/src/rpc.rs:1024-1046 | an expired, destroyed or purged environment is live in no later state of any run |
| LifecycleTheorems.OnlyDeadRowsArePurged | crates/signet-db/src/lib.rs:348-360 | a row that disappears between two states of a run was dead before |
| LifecycleTheorems.LiveIsStable | crates/signet-api/src/rpc.rs:838-946 | while an environment lives, its owner, name, expiry and ports stay, and no instance changes port or disappears |
| Updates.UpdateRecordsRequest | crates/signet-api/src/rpc.rs:824-946 | an update records exactly the requested names precisely when its conditions hold, old ones on their ports and new ones on the least clear triples in request order, and otherwise changes no instance |
| Creation.CreateDelivers | crates/signet-api/src/rpc.rs:346-573 | a create that goes through gives a provisioning row as requested, on the least free port of each pool it asks and the least clear triples in request order, with its exact expiry, and exactly one new namespace |
| Creation.FailedCreateIsDead | crates/signet-api/src/rpc.rs:553-569 | after failed provisioning the row is destroyed, and the namespace remains exactly when it was made and not torn down |
| Creation.ShortPoolLeavesOrphan | crates/signet-api/src/rpc.rs:502-536 | an admitted create that finds too few clear triples leaves its row provisioning, without instances and without a namespace |
| LifecycleTheorems.GoneRowIsExpired | crates/signet-api/src/rpc.rs:960-983 | a live row whose namespace is gone is expired by get, update, stop or start exactly when the existence check works |
| LifecycleTheorems.PresentRowIsKept | crates/signet-api/src/rpc.rs:963-983 | these requests never end an environment whose namespace exists |
| LifecycleTheorems.LiveTransitions | crates/signet-api/src/rpc.rs:1024-1046 | the only live-to-live status changes in the whole machine and the event behind each |
| LifecycleTheorems.StopStartRoundTrip | crates/signet-api/src/rpc.rs:1011-1114 | stop, start and a ready poll give back the original state |
| LifecycleTheorems.DestroyReleasesPorts | crates/signet-db/src/lib.rs:292-295 | after a destroy none of the environment's ports is held |
| LifecycleTheorems.ReapIsExact | crates/signet-orchestrator/src/reaper.rs:62-85 | a live environment loses its namespace and its life in a pass exactly under the stated conditions on its own expiry and the failures |
| LifecycleTheorems.CleanPassConverges | crates/signet-api/src/main.rs:91-107 | a pass without failures leaves no live row whose namespace it removed and no present one past its expiry |
| LifecycleTheorems.ReaperSpares | crates/signet-orchestrator/src/reaper.rs:62-85 | only labelled namespaces strictly past a readable expiry are ever removed |
| LifecycleTheorems.SharedShortIdExpiresBoth | crates/signet-db/src/lib.rs:157-169 | two live environments sharing twelve digits are both expired by one reaped namespace |
| Creation.CreateCases | crates/signet-api/src/rpc.rs:330-575 | a create is refused with at most a dead record dropped, or leaves its row without asking the cluster, or ends as provisioning ends |
| Creation.CreateRows | crates/signet-api/src/rpc.rs:346-500 | a create inserts its row exactly when admitted, drops exactly the dead record of its name under the first refusals' conditions, and leaves every other row |
| Leftovers.StepLeftover | crates/signet-api/src/rpc.rs:553-569 | after any event an environment is dead with its namespace exactly when that event leaked it or it was so before and the namespace stayed |
| Leftovers.LeftoverHistory | crates/signet-api/src/rpc.rs:553-569 | in any run an environment is dead with its namespace exactly when its own create leaked and the namespace has been there ever since |
| Leftovers.StepDeadClean | crates/signet-api/src/rpc.rs:346-372 | one event keeps dead records free of cluster state exactly when it is not a leaking create |
| Leftovers.RunDeadClean | crates/signet-api/src/rpc.rs:346-372 | dead records have no cluster state throughout a run exactly when no create in it leaks |
| Leftovers.GoneForGood | crates/signet-api/src/rpc.rs:960-983 | in any run a namespace that is gone never comes back, and its environment is live exactly until the first checked request for it or accepted destroy |
| SharedIds.CollidingCreate | crates/signet-api/src/rpc.rs:552-569 | a create on a namespace name in use is destroyed, and its teardown removes the other live environment's namespace, which the next checked get expires |
| SharedIds.CollidingRun | crates/signet-api/src/rpc.rs:552-569 | a run of two creates in which the second takes the first one's namespace down |
| SharedIds.OnlyDueExactly | crates/signet-api/src/main.rs:91-107 | no pass expires a row before its own expiry exactly when every live row expires no later than each namespace taken for it |
| SharedIds.UnsharedIsSafe | crates/signet-api/src/main.rs:91-107 | with unshared short ids every reachable state meets that condition |
| SharedIds.TwoLiveRun | crates/signet-api/src/rpc.rs:1254-1257 | a run of two creates and a pass in which two live environments share a short id and the pass expires one without expiry |
| SharedIds.LeakingRun | crates/signet-api/src/rpc.rs:553-569 | a first create that leaves a dead record with its namespace |
| Occupancy.StepBacked | crates/signet-orchestrator/src/lib.rs:993-1009 | one event keeps every bound host port claimed by the live row behind its namespace exactly when it strands none |
| Occupancy.RunBacked | crates/signet-orchestrator/src/lib.rs:597-668 | the same throughout a run |
| Occupancy.BackedIsDisjoint | crates/signet-db/src/lib.rs:222-346 | then no two namespaces bind one port and all bound ports lie in the published window |
| Occupancy.StrandedIsPlannedAgain | crates/signet-api/src/rpc.rs:897-946 | ports stranded by a failed update are planned again by the next event that wants as many triples |
| Occupancy.StrandedIsBoundTwice | crates/signet-api/src/rpc.rs:897-946 | when that event works for another environment, a port is bound in two namespaces |
| StrandedRun.BoundTwiceRun | crates/signet-api/src/rpc.rs:897-946 | a run of two creates, two polls, a failed and a working update after which port 20202 is bound in two namespaces |
| Mesh.Cluster.ConnectRow | crates/signet-orchestrator/src/lib.rs:955-977 | one instance ends up peered with every later one, reconnecting none it was already peered with, and fails exactly when a call of its own is one it cannot get over |
| Mesh.Cluster.MeshLightningPeers | crates/signet-orchestrator/src/lib.rs:937-979 | it fails exactly when an instance does not answer or a failed connect is followed by a listing without the peer, so a lost race is no failure; success means all pairs are peered and counts the successful connects, links only grow, peered pairs are never reconnected, and a pass over a full mesh connects nobody |
| Mesh.GroupTargets | crates/signet-api/src/main.rs:139-142 | each environment gets exactly the names of its own targets, in target order |
| Components.SelectedSpecs | crates/signet-orchestrator/src/lib.rs:148-171 | the least dependency-closed set containing the request, in registry order; the lookup never fails and the worklist ends |
| Components.DependenciesComeFirst | crates/signet-orchestrator/src/lib.rs:111-146 | in a registry in dependency order every dependency of a selection precedes its dependent |
| Components.ShippedIsOrdered | crates/signet-orchestrator/src/lib.rs:112-146 | the shipped registry is in dependency order and the explorer brings electrs |
| Components.ShippedSelection | crates/signet-orchestrator/src/lib.rs:112-171 | the least answer of the shipped registry is each component asked for, and electrs also for the explorer |
| Versions.CompareSegments | crates/signet-core/src/versions.rs:114-125 | the first differing zero-padded position decides |
| Versions.SegmentsExactly | crates/signet-core/src/versions.rs:103-112 | the segments of any text are its decimal numbers below 2^64 in order, whatever stands around them |
| Versions.EveryTextHasPieces | crates/signet-core/src/versions.rs:103-112 | every string is of the form the segments are described for |
| Versions.CompareIsLexicographic | crates/signet-core/src/versions.rs:114-125 | the order is the lexicographic one on lists without trailing zeros |
| Versions.CompareIsTotalPreorder | crates/signet-core/src/versions.rs:114-125 | antisymmetric up to trailing zeros, transitive and total |
| Versions.PlainOperators | crates/signet-core/src/versions.rs:127-152 | what the three strict constraints mean for a target that does not begin with an equals sign |
| Versions.TrichotomyExact | crates/signet-core/src/versions.rs:129-151 | below, at and above exclude each other for every version exactly when the target does not begin with an equals sign |
| Versions.InclusiveOperators | crates/signet-core/src/versions.rs:144-151 | each inclusive operator negates the opposite strict one |
| Catalog.ValidateSelection | crates/signet-core/src/versions.rs:56-100 | succeeds exactly when every pin is in the catalog and no requirement of a version in effect, pin or first default, is broken by the dependency's version in effect; an unknown pin is reported first, and a conflict names a broken requirement and what breaks it |
| Catalog.ResolveImages | crates/signet-orchestrator/src/lib.rs:195-232 | succeeds exactly for legal tags on an allowed selection with a version in effect for each versionable component; the map has seven keys, each on its own repository and its pin or first default, the explorer pair on one tag |
| Catalog.ContainerImages | crates/signet-orchestrator/src/lib.rs:245-268 | on resolved images the container map equals them, so backend and frontend stay on one tag |
| Ttl.ParseDurationSecs | crates/signet-cli/src/duration.rs:4-24 | the character loop computes the scan of the text |
| Ttl.ParserIsExact | crates/signet-cli/src/duration.rs:3-47 | a value is returned exactly for grammatical texts whose true sum is that value, between 1 and u64::MAX |
| Ttl.BuildCreateParams | crates/signet-cli/src/config.rs:32-59 | flags win over the file, the rest is the file's, the lifetime is the cast of the denoted value, and each error occurs exactly for its cause, a bad duration before a missing name |
| Ttl.ExpiryIsExact | crates/signet-api/src/rpc.rs:309-321 | an accepted text expires exactly that many seconds from now or is rejected, accepted exactly when the date and the duration are representable, wrapped values included |
| Ttl.ResolveExactly | crates/signet-api/src/rpc.rs:309-321 | which lifetimes the server rejects and with which error |
| Hex.DecodeEncode | crates/signet-orchestrator/src/lib.rs:332-344 | decoding undoes encoding |
| Hex.EncodeAt | crates/signet-orchestrator/src/lib.rs:342-344 | each byte becomes its two lower-case hex digits, high one first |
| Hex.DecodesExactly | crates/signet-orchestrator/src/lib.rs:332-340 | text decodes exactly when it is pairs of a hex digit or plus sign and a hex digit |
| Hex.EncodeDecode | crates/signet-orchestrator/src/lib.rs:332-344 | text that decodes is the encoding of its bytes up to case exactly when it has no plus sign |

## Left out

- Signer.AssembleBlock: the signature hash is a total function, so the error for a bad input index, which cannot arise for the one-input transaction, has no counterpart.
- Agreement.OneKeyUnlocks: covers pushes, OP_1 to OP_16 and OP_CHECKMULTISIG; other operations, and the deletion of the signature from the script being signed, are not modelled (a DER signature never equals a compressed key, so that deletion has no effect on this challenge).
- Grind.Search: does not model weak memory beyond a load that may miss an earlier store of the stop flag.
- PortPool.LowestFreePort: uses unbounded integers; the candidate moves at most once per held port, so an i32 overflow needs about two thousand million held ports.
- Mesh.Cluster.MeshLightningPeers: connections are never dropped while it runs.
- Ttl.ExpiryIsExact: the calendar's last date is a parameter.
- Hex.EncodeDecode: ASCII text only; the source would stop on other characters inside a pair.
- Rows written before lightning ports or stored versions existed: a null port, and the update of a row whose images must be resolved anew.
- Interleavings inside one request, failed database writes, and the time a namespace spends terminating.
- Wire serialisation of transactions and blocks, DER encoding, and the compact form of the target.
- NIP-98 and bearer authentication, the faucet, the dashboard, certificates, manifests and gateway routes.
- The CLI's cluster bootstrap, polling and output, and the retry schedule of the mesh.
