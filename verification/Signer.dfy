/** The block signer: coinbase, signet transactions and block assembly. */
module Signer {
  import opened Prelude
  import opened Bytes
  import opened Script
  import opened Chain
  import opened Merkle
  import Bip34
  import CompactSize
  import Grind

  const SIGNET_HEADER: seq<byte> := [0xec, 0xc7, 0xda, 0xa2]
  const WITNESS_COMMITMENT_PREFIX: seq<byte> := [0xaa, 0x21, 0xa9, 0xed]

  const OP_PUSHNUM_1: byte := 0x51
  const OP_RETURN: byte := 0x6a
  const OP_CHECKMULTISIG: byte := 0xae
  const SIGHASH_ALL: byte := 0x01

  /** A block template whose hex fields have been parsed; None where parsing fails. */
  datatype Template = Template(
    version: int, previous: Option<Hash>, transactions: seq<Option<Tx>>, coinbaseValue: nat,
    height: u32, bits: Option<nat>, curtime: nat, mintime: nat, challenge: Option<ScriptBytes>)

  datatype SignetError = Decode | ChallengeMismatch | NoNonce

  function ChallengeForPublicKey(key: PublicKey): ScriptBytes {
    [OP_PUSHNUM_1] + CorePush(key) + [OP_PUSHNUM_1, OP_CHECKMULTISIG]
  }

  function MerkleRootOf(p: Primitives, leaves: seq<Hash>): Hash {
    if leaves == [] then ZERO_HASH else Top(PairHash(p), leaves)
  }

  function CommitmentHash(p: Primitives, wtxids: seq<Hash>, reserved: Hash): Hash {
    p.sha256d(MerkleRootOf(p, wtxids) + reserved)
  }

  function CommitmentScript(p: Primitives, wtxids: seq<Hash>, reserved: Hash): ScriptBytes {
    [OP_RETURN] + CorePush(WITNESS_COMMITMENT_PREFIX + CommitmentHash(p, wtxids, reserved))
  }

  method WitnessCommitmentScript(p: Primitives, wtxids: seq<Hash>, reserved: Hash) returns (script: ScriptBytes)
    ensures script == CommitmentScript(p, wtxids, reserved)
  {
    var root := MerkleRoot(PairHash(p), ZERO_HASH, wtxids);
    var commitment := p.sha256d(root + reserved);
    var push := WITNESS_COMMITMENT_PREFIX;
    push := push + commitment;
    script := [OP_RETURN];
    script := script + CorePush(push);
  }

  function BuildCoinbase(height: u32, value: nat, reward: ScriptBytes, commitment: ScriptBytes): Tx {
    Tx(2, 0,
       [TxIn(NULL_OUTPOINT, Bip34.ScriptSig(height), MAX_SEQUENCE, [ZERO_HASH])],
       [TxOut(value, reward), TxOut(0, commitment)])
  }

  function BlockData(version: int, previous: Hash, time: nat, root: Hash): seq<byte> {
    SignedLittleEndian(version) + previous + root + LittleEndian(time, 4)
  }

  function ToSpend(version: int, previous: Hash, time: nat, root: Hash, challenge: ScriptBytes): Tx {
    Tx(0, 0,
       [TxIn(NULL_OUTPOINT, [0x00] + CorePush(BlockData(version, previous, time, root)), 0, [])],
       [TxOut(0, challenge)])
  }

  function ToSign(p: Primitives, toSpend: Tx): Tx {
    Tx(0, 0, [TxIn(OutPoint(Txid(p, toSpend), 0), [], 0, [])], [TxOut(0, [OP_RETURN])])
  }

  function SolutionScriptSig(signature: seq<byte>): ScriptBytes {
    [0x00] + CorePush(signature + [SIGHASH_ALL])
  }

  /** scriptSig with its length, then an empty witness stack. */
  function Solution(scriptSig: ScriptBytes): seq<byte> {
    CompactSize.Encoding(|scriptSig|) + scriptSig + [0x00]
  }

  predicate Decodable(t: Template) {
    t.challenge.Some? && t.previous.Some? && t.bits.Some?
    && forall i :: 0 <= i < |t.transactions| ==> t.transactions[i].Some?
  }

  function Transactions(t: Template): (r: seq<Tx>)
    requires Decodable(t)
    ensures |r| == |t.transactions|
  {
    seq(|t.transactions|, i requires 0 <= i < |t.transactions| => t.transactions[i].value)
  }

  function BlockTime(t: Template): nat { if t.curtime > t.mintime then t.curtime else t.mintime }

  /** The coinbase before anything is appended to its last output. */
  function PlainCoinbase(p: Primitives, t: Template, reward: ScriptBytes): Tx
    requires Decodable(t)
  {
    BuildCoinbase(t.height, t.coinbaseValue, reward,
                  CommitmentScript(p, [ZERO_HASH] + Wtxids(p, Transactions(t)), ZERO_HASH))
  }

  /** A transaction with bytes pushed onto the script of its last output. */
  function WithLastPush(tx: Tx, data: seq<byte>): (r: Tx)
    requires |tx.outputs| > 0
  {
    var last := |tx.outputs| - 1;
    tx.(outputs := tx.outputs[last := tx.outputs[last].(script := Pushed(tx.outputs[last].script, data))])
  }

  /** The two transactions the signature is about. */
  function SignedToSpend(p: Primitives, t: Template, reward: ScriptBytes): Tx
    requires Decodable(t)
  {
    var cleared := WithLastPush(PlainCoinbase(p, t, reward), SIGNET_HEADER);
    var root := MerkleRootOf(p, Txids(p, [cleared] + Transactions(t)));
    ToSpend(t.version, t.previous.value, BlockTime(t), root, t.challenge.value)
  }

  function SignedMessage(p: Primitives, t: Template, reward: ScriptBytes): Hash
    requires Decodable(t)
  {
    p.sighash(ToSign(p, SignedToSpend(p, t, reward)), 0, t.challenge.value, SIGHASH_ALL)
  }

  function Signature(p: Primitives, t: Template, reward: ScriptBytes, key: Key): seq<byte>
    requires Decodable(t)
  {
    p.sign(key, SignedMessage(p, t, reward))
  }

  /** Everything pushed after the witness commitment. */
  function SolutionPush(p: Primitives, t: Template, reward: ScriptBytes, key: Key): seq<byte>
    requires Decodable(t)
  {
    SIGNET_HEADER + Solution(SolutionScriptSig(Signature(p, t, reward, key)))
  }

  /** The block before its nonce is found. */
  function Draft(p: Primitives, t: Template, reward: ScriptBytes, key: Key): Block
    requires Decodable(t)
  {
    var coinbase := WithLastPush(PlainCoinbase(p, t, reward), SolutionPush(p, t, reward, key));
    var txs := [coinbase] + Transactions(t);
    Block(Header(t.version, t.previous.value, MerkleRootOf(p, Txids(p, txs)), BlockTime(t), t.bits.value, 0), txs)
  }

  /** Whether a nonce gives the header a hash under its target. */
  predicate Meets(p: Primitives, header: Header, nonce: nat) {
    p.meets(header.bits, p.blockHash(header.(nonce := nonce)))
  }

  /** `assemble_block`. A template that does not parse, a challenge other than
      the expected one, and an empty nonce range each give their own error;
      otherwise the result is the draft with a nonce that meets the target. */
  method AssembleBlock(p: Primitives, t: Template, reward: ScriptBytes, key: Key,
                       expected: Option<ScriptBytes>, parallelism: Option<nat>)
    returns (r: Result<Block, SignetError>)
    requires parallelism.Some? ==> parallelism.value > 0
    ensures t.challenge.None? ==> r == Err(Decode)
    ensures t.challenge.Some? && expected.Some? && expected != t.challenge ==> r == Err(ChallengeMismatch)
    ensures t.challenge.Some? && (expected.None? || expected == t.challenge) && !Decodable(t) ==> r == Err(Decode)
    ensures Decodable(t) && (expected.None? || expected == t.challenge) ==>
      var draft := Draft(p, t, reward, key);
      match r
      case Ok(block) =>
        && block == draft.(header := draft.header.(nonce := block.header.nonce))
        && block.header.nonce < U32_LIMIT && Meets(p, draft.header, block.header.nonce)
      case Err(e) => e == NoNonce && forall n: nat :: n < U32_LIMIT ==> !Meets(p, draft.header, n)
  {
    if t.challenge.None? {
      return Err(Decode);
    }
    var challenge := t.challenge.value;
    if expected.Some? && challenge != expected.value {
      return Err(ChallengeMismatch);
    }

    var txs: seq<Tx> := [];
    for i := 0 to |t.transactions|
      invariant |txs| == i
      invariant forall j :: 0 <= j < i ==> t.transactions[j] == Some(txs[j])
    {
      if t.transactions[i].None? {
        return Err(Decode);
      }
      txs := txs + [t.transactions[i].value];
    }

    var wtxids := [ZERO_HASH];
    for i := 0 to |txs|
      invariant wtxids == [ZERO_HASH] + Wtxids(p, txs[..i])
    {
      wtxids := wtxids + [Wtxid(p, txs[i])];
      WtxidsExtend(p, txs, i);
    }
    assert txs[..|txs|] == txs;
    var commitment := WitnessCommitmentScript(p, wtxids, ZERO_HASH);
    var coinbase := BuildCoinbase(t.height, t.coinbaseValue, reward, commitment);

    if t.previous.None? {
      return Err(Decode);
    }
    var previous := t.previous.value;
    var time := BlockTime(t);

    var modified := coinbase;
    var last := |modified.outputs| - 1;
    var script := AppendPush(modified.outputs[last].script, SIGNET_HEADER);
    modified := modified.(outputs := modified.outputs[last := modified.outputs[last].(script := script)]);
    var leaves := Txids(p, [modified] + txs);
    var signetRoot := MerkleRoot(PairHash(p), ZERO_HASH, leaves);

    var toSpend := ToSpend(t.version, previous, time, signetRoot, challenge);
    var toSign := ToSign(p, toSpend);
    var message := p.sighash(toSign, 0, challenge, SIGHASH_ALL);
    var signature := p.sign(key, message);
    var solutionSig := SolutionScriptSig(signature);

    var solution := CompactSize.Write(|solutionSig|);
    solution := solution + solutionSig;
    solution := solution + [0x00];

    var final := coinbase;
    var push := SIGNET_HEADER;
    push := push + solution;
    script := AppendPush(final.outputs[last].script, push);
    final := final.(outputs := final.outputs[last := final.outputs[last].(script := script)]);

    var txdata := [final];
    txdata := txdata + txs;
    var root := MerkleRoot(PairHash(p), ZERO_HASH, Txids(p, txdata));
    if t.bits.None? {
      return Err(Decode);
    }
    var header := Header(t.version, previous, root, time, t.bits.value, 0);

    assert txs == Transactions(t);
    assert Block(header, txdata) == Draft(p, t, reward, key);
    var meets := (n: nat) => Meets(p, header, n);
    var nonce := Grind.GrindNonce(meets, parallelism);
    if nonce.None? {
      forall n: nat | n < U32_LIMIT ensures !Meets(p, header, n) {
        assert !meets(n);
      }
      return Err(NoNonce);
    }
    header := header.(nonce := nonce.value);
    r := Ok(Block(header, txdata));
  }

  lemma WtxidsExtend(p: Primitives, txs: seq<Tx>, i: nat)
    requires i < |txs|
    ensures Wtxids(p, txs[..i + 1]) == Wtxids(p, txs[..i]) + [Wtxid(p, txs[i])]
  {
  }
}
