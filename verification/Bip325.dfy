/** The verifying side: BIP325's reading of a block, BIP141's witness commitment
    check, and the few script operations a one-key challenge needs. */
module Bip325 {
  import opened Prelude
  import opened Bytes
  import opened Script
  import opened Chain
  import Merkle
  import CompactSize
  import Bip34

  const HEADER: seq<byte> := [0xec, 0xc7, 0xda, 0xa2]

  // ---- locating the commitment output (BIP141, "Commitment structure")

  const COMMITMENT_SIZE: nat := 38

  predicate IsCommitment(script: ScriptBytes) {
    |script| >= COMMITMENT_SIZE && script[..6] == [0x6a, 0x24, 0xaa, 0x21, 0xa9, 0xed]
  }

  /** The last output that looks like a witness commitment. */
  function CommitmentIndex(outputs: seq<TxOut>): (r: Option<nat>)
    ensures r.Some? ==> r.value < |outputs| && IsCommitment(outputs[r.value].script)
  {
    if outputs == [] then None
    else if IsCommitment(outputs[|outputs| - 1].script) then Some(|outputs| - 1)
    else CommitmentIndex(outputs[..|outputs| - 1])
  }

  /** The merkle tree of a block, by place: the double hash of both children,
      the left one taken twice where there is no right one. */
  function TreeHash(p: Primitives, leaves: seq<Hash>, height: nat, pos: nat): Hash
    requires |leaves| > 0 && pos < Merkle.Width(|leaves|, height)
  {
    if height == 0 then leaves[pos]
    else
      var left := TreeHash(p, leaves, height - 1, 2 * pos);
      var right := if 2 * pos + 1 < Merkle.Width(|leaves|, height - 1)
                   then TreeHash(p, leaves, height - 1, 2 * pos + 1) else left;
      p.sha256d(left + right)
  }

  function RootOf(p: Primitives, leaves: seq<Hash>): Hash
    requires leaves != []
  {
    Merkle.WidthTop(|leaves|);
    TreeHash(p, leaves, Merkle.Height(|leaves|), 0)
  }

  // ---- the coinbase (BIP34)

  /** One input that spends nothing, with a script of legal length that starts
      with Core's push of the height. */
  ghost predicate CoinbaseOk(tx: Tx, height: nat) {
    && |tx.inputs| == 1 && tx.inputs[0].previous.index == 0xffff_ffff
    && (forall i :: 0 <= i < 32 ==> tx.inputs[0].previous.txid[i] == 0)
    && 2 <= |tx.inputs[0].scriptSig| <= 100
    && exists s: seq<byte> :: Bip34.IsCorePushOfHeight(s, height) && s <= tx.inputs[0].scriptSig
  }

  /** The commitment holds: the coinbase counts as the zero hash among the
      witness ids, its witness is one 32-byte reserved value, and the 32 bytes
      after the marker are the hash of witness root and reserved value. */
  predicate WitnessCommitmentHolds(p: Primitives, block: Block) {
    && |block.txs| > 0 && |block.txs[0].inputs| == 1
    && var stack := block.txs[0].inputs[0].witnessStack;
    && |stack| == 1 && |stack[0]| == 32
    && var index := CommitmentIndex(block.txs[0].outputs);
    && index.Some?
    && block.txs[0].outputs[index.value].script[6..COMMITMENT_SIZE]
       == p.sha256d(RootOf(p, [ZERO_HASH] + Wtxids(p, block.txs[1..])) + stack[0])
  }

  // ---- the solution push (Specification section of BIP325)

  datatype Cleared = Cleared(solution: Option<seq<byte>>, script: ScriptBytes)

  /** Rewrites a script, taking the data after the header out of the first push
      that starts with the header and carries more than it. */
  function Clear(instrs: seq<Instr>, found: bool): Cleared {
    if instrs == [] then Cleared(None, [])
    else
      var data := instrs[0].data;
      if data == [] then
        var rest := Clear(instrs[1..], found);
        rest.(script := [instrs[0].opcode] + rest.script)
      else if !found && |data| > 4 && data[..4] == HEADER then
        Cleared(Some(data[4..]), CorePush(HEADER) + Clear(instrs[1..], true).script)
      else
        var rest := Clear(instrs[1..], found);
        rest.(script := CorePush(data) + rest.script)
  }

  datatype Bytestring = NoBytes | Bytestring(bytes: seq<byte>, rest: seq<byte>)

  /** A byte string with its length in front. */
  function ReadBytes(b: seq<byte>): Bytestring {
    match CompactSize.Decode(b)
    case Bad => NoBytes
    case Read(size, rest) => if size > |rest| then NoBytes else Bytestring(rest[..size], rest[size..])
  }

  datatype Stack = NoStack | Stack(items: seq<seq<byte>>, rest: seq<byte>)

  function ReadItems(count: nat, b: seq<byte>): Stack {
    if count == 0 then Stack([], b)
    else match ReadBytes(b)
      case NoBytes => NoStack
      case Bytestring(item, rest) =>
        match ReadItems(count - 1, rest)
        case NoStack => NoStack
        case Stack(items, end) => Stack([item] + items, end)
  }

  function ReadStack(b: seq<byte>): Stack {
    match CompactSize.Decode(b)
    case Bad => NoStack
    case Read(count, rest) => ReadItems(count, rest)
  }

  datatype Unlocking = NoUnlocking | Unlocking(scriptSig: ScriptBytes, stack: seq<seq<byte>>)

  /** scriptSig then witness stack, with nothing left over. */
  function ReadSolution(solution: seq<byte>): Unlocking {
    match ReadBytes(solution)
    case NoBytes => NoUnlocking
    case Bytestring(scriptSig, rest) =>
      match ReadStack(rest)
      case NoStack => NoUnlocking
      case Stack(items, end) => if end == [] then Unlocking(scriptSig, items) else NoUnlocking
  }

  // ---- the two virtual transactions (Specification section of BIP325)

  datatype Spend = NoSpend | Spend(unlocking: Unlocking, toSpend: Tx, toSign: Tx)

  function Serialized(version: int, previous: Hash, root: Hash, time: nat): seq<byte> {
    SignedLittleEndian(version) + previous + root + LittleEndian(time, 4)
  }

  function VirtualToSpend(header: Header, root: Hash, challenge: ScriptBytes): Tx {
    var data := Serialized(header.version, header.previous, root, header.time);
    Tx(0, 0, [TxIn(NULL_OUTPOINT, [0x00, 72] + data, 0, [])], [TxOut(0, challenge)])
  }

  function VirtualToSign(p: Primitives, toSpend: Tx, unlocking: Unlocking): Tx
    requires unlocking.Unlocking?
  {
    Tx(0, 0, [TxIn(OutPoint(Txid(p, toSpend), 0), unlocking.scriptSig, 0, unlocking.stack)],
       [TxOut(0, [0x6a])])
  }

  function ReplaceScript(tx: Tx, index: nat, script: ScriptBytes): Tx
    requires index < |tx.outputs|
  {
    tx.(outputs := tx.outputs[index := tx.outputs[index].(script := script)])
  }

  datatype Reading = Unreadable | Reading(unlocking: Unlocking, coinbase: Tx)

  /** The solution of a block, and its coinbase with the solution cleared away. */
  function ReadBlock(block: Block): (r: Reading)
    ensures r.Reading? ==> |block.txs| > 0 && r.unlocking.Unlocking?
  {
    if |block.txs| == 0 then Unreadable
    else
      var coinbase := block.txs[0];
      var index := CommitmentIndex(coinbase.outputs);
      if index.None? then Unreadable
      else
        var instrs := Parse(coinbase.outputs[index.value].script);
        if instrs.None? then Unreadable
        else
          var cleared := Clear(instrs.value, false);
          if cleared.solution.None? then Reading(Unlocking([], []), coinbase)
          else
            var unlocking := ReadSolution(cleared.solution.value);
            if unlocking.NoUnlocking? then Unreadable
            else Reading(unlocking, ReplaceScript(coinbase, index.value, cleared.script))
  }

  /** The ids the signed merkle root is taken over. */
  function SignetLeaves(p: Primitives, block: Block): (r: seq<Hash>)
    requires ReadBlock(block).Reading?
    ensures |r| == |block.txs|
  {
    Txids(p, [ReadBlock(block).coinbase] + block.txs[1..])
  }

  /** What a verifier derives from a block and the network's challenge. */
  function Derive(p: Primitives, block: Block, challenge: ScriptBytes): Spend {
    match ReadBlock(block)
    case Unreadable => NoSpend
    case Reading(unlocking, _) =>
      var root := RootOf(p, SignetLeaves(p, block));
      var toSpend := VirtualToSpend(block.header, root, challenge);
      Spend(unlocking, toSpend, VirtualToSign(p, toSpend, unlocking))
  }

  // ---- script evaluation for bare multisig challenges

  /** Signatures are matched to keys in order, each key used at most once. */
  predicate Multisig(check: (seq<byte>, seq<byte>) -> bool, sigs: seq<seq<byte>>, keys: seq<seq<byte>>)
    decreases |keys|
  {
    if |sigs| == 0 then true
    else if |keys| < |sigs| then false
    else if check(sigs[0], keys[0]) then Multisig(check, sigs[1..], keys[1..])
    else Multisig(check, sigs, keys[1..])
  }

  /** The number on top of a stack of byte strings, when it is a small one. */
  function Small(item: seq<byte>): Option<nat> {
    if item == [] then Some(0) else if |item| == 1 && 1 <= item[0] <= 20 then Some(item[0]) else None
  }

  /** OP_CHECKMULTISIG: count of keys, keys, count of signatures, signatures, and
      one extra item that must be empty. The top of the stack is its last item. */
  function CheckMultisig(check: (seq<byte>, seq<byte>) -> bool, stack: seq<seq<byte>>): Option<seq<seq<byte>>> {
    if |stack| == 0 || Small(stack[|stack| - 1]).None? then None
    else
      var n, a := Small(stack[|stack| - 1]).value, |stack| - 1;
      if a < n + 1 || Small(stack[a - n - 1]).None? then None
      else
        var keys := stack[a - n..a];
        var m, b := Small(stack[a - n - 1]).value, a - n - 1;
        if m > n || b < m + 1 || stack[b - m - 1] != [] then None
        else Some(stack[..b - m - 1] + [if Multisig(check, stack[b - m..b], keys) then [1] else []])
  }

  /** Pushes, OP_1 to OP_16 and OP_CHECKMULTISIG; any other operation fails. */
  function Run(check: (seq<byte>, seq<byte>) -> bool, instrs: seq<Instr>, stack: seq<seq<byte>>): Option<seq<seq<byte>>>
    decreases |instrs|
  {
    if instrs == [] then Some(stack)
    else
      var op := instrs[0].opcode;
      if op <= 0x4e then Run(check, instrs[1..], stack + [instrs[0].data])
      else if 0x51 <= op <= 0x60 then Run(check, instrs[1..], stack + [[op - 0x50]])
      else if op == 0xae then
        var after := CheckMultisig(check, stack);
        if after.None? then None else Run(check, instrs[1..], after.value)
      else None
  }

  /** A signature item is the signature followed by its hash type. */
  predicate CheckSignature(p: Primitives, toSign: Tx, challenge: ScriptBytes, sig: seq<byte>, key: seq<byte>) {
    && |sig| > 0 && |key| == 33
    && p.verify(key, p.sighash(WithoutScriptSig(toSign), 0, challenge, sig[|sig| - 1]), sig[..|sig| - 1])
  }

  /** The legacy signature hash covers the inputs with their scripts blanked. */
  function WithoutScriptSig(tx: Tx): Tx {
    tx.(inputs := seq(|tx.inputs|, i requires 0 <= i < |tx.inputs| => tx.inputs[i].(scriptSig := [], witnessStack := [])))
  }

  /** Runs the signature script, then the challenge on the stack it leaves. */
  predicate Unlocks(check: (seq<byte>, seq<byte>) -> bool, scriptSig: ScriptBytes, challenge: ScriptBytes) {
    && Parse(scriptSig).Some? && Parse(challenge).Some?
    && var stack := Run(check, Parse(scriptSig).value, []);
    && stack.Some?
    && var final := Run(check, Parse(challenge).value, stack.value);
    && final.Some? && |final.value| > 0 && final.value[|final.value| - 1] == [1]
  }

  /** The block carries a solution of the challenge. */
  predicate SolvesChallenge(p: Primitives, block: Block, challenge: ScriptBytes) {
    var spend := Derive(p, block, challenge);
    && spend.Spend? && spend.unlocking.Unlocking? && spend.unlocking.stack == []
    && Unlocks((sig: seq<byte>, key: seq<byte>) => CheckSignature(p, spend.toSign, challenge, sig, key),
               spend.unlocking.scriptSig, challenge)
  }

  /** Everything a signet node checks of the block's own structure at a height. */
  ghost predicate Accepts(p: Primitives, block: Block, challenge: ScriptBytes, height: nat) {
    && |block.txs| > 0 && CoinbaseOk(block.txs[0], height)
    && block.header.merkleRoot == RootOf(p, Txids(p, block.txs))
    && p.meets(block.header.bits, p.blockHash(block.header))
    && WitnessCommitmentHolds(p, block)
    && SolvesChallenge(p, block, challenge)
  }
}
