/** Transactions and blocks as records, and the cryptographic primitives the
    signer and its verifier share as parameters. */
module Chain {
  import opened Bytes
  import opened Script

  datatype OutPoint = OutPoint(txid: Hash, index: nat)

  datatype TxIn = TxIn(previous: OutPoint, scriptSig: ScriptBytes, sequence: nat, witnessStack: seq<seq<byte>>)

  datatype TxOut = TxOut(value: nat, script: ScriptBytes)

  datatype Tx = Tx(version: int, lockTime: nat, inputs: seq<TxIn>, outputs: seq<TxOut>)

  datatype Header = Header(version: int, previous: Hash, merkleRoot: Hash, time: nat, bits: nat, nonce: nat)

  datatype Block = Block(header: Header, txs: seq<Tx>)

  type Key = seq<byte>
  type PublicKey = k: seq<byte> | |k| == 33 witness seq(33, _ => 2)

  const NULL_OUTPOINT := OutPoint(ZERO_HASH, 0xffff_ffff)
  const MAX_SEQUENCE: nat := 0xffff_ffff

  /** Hashing, signing and proof of work, all uninterpreted. */
  datatype Primitives = Primitives(
    sha256d: seq<byte> -> Hash,
    txHash: Tx -> Hash,
    sighash: (Tx, nat, ScriptBytes, byte) -> Hash,
    blockHash: Header -> Hash,
    meets: (nat, Hash) -> bool,
    publicKey: Key -> PublicKey,
    sign: (Key, Hash) -> seq<byte>,
    verify: (PublicKey, Hash, seq<byte>) -> bool)

  function WithoutWitness(tx: Tx): Tx {
    tx.(inputs := seq(|tx.inputs|, i requires 0 <= i < |tx.inputs| => tx.inputs[i].(witnessStack := [])))
  }

  /** The transaction id commits to everything but the witness. */
  function Txid(p: Primitives, tx: Tx): Hash { p.txHash(WithoutWitness(tx)) }

  function Wtxid(p: Primitives, tx: Tx): Hash { p.txHash(tx) }

  /** What an input says apart from its witness. */
  function SpendOf(i: TxIn): (OutPoint, ScriptBytes, nat) { (i.previous, i.scriptSig, i.sequence) }

  /** Dropping the witnesses loses nothing else: two transactions become the same
      exactly when they agree in everything but witnesses, and one that has no
      witness has one hash for both ids. */
  lemma WitnessIsAllThatGoes(p: Primitives, a: Tx, b: Tx)
    ensures WithoutWitness(a) == WithoutWitness(b) <==>
      && a.version == b.version && a.lockTime == b.lockTime && a.outputs == b.outputs && |a.inputs| == |b.inputs|
      && forall i :: 0 <= i < |a.inputs| ==> SpendOf(a.inputs[i]) == SpendOf(b.inputs[i])
    ensures (forall i :: 0 <= i < |a.inputs| ==> a.inputs[i].witnessStack == []) ==> Txid(p, a) == p.txHash(a) == Wtxid(p, a)
  {
    if WithoutWitness(a) == WithoutWitness(b) {
      forall i | 0 <= i < |a.inputs| ensures SpendOf(a.inputs[i]) == SpendOf(b.inputs[i]) {
        assert WithoutWitness(a).inputs[i] == WithoutWitness(b).inputs[i];
      }
    }
    if forall i :: 0 <= i < |a.inputs| ==> a.inputs[i].witnessStack == [] {
      assert WithoutWitness(a).inputs == a.inputs;
    }
  }

  function Txids(p: Primitives, txs: seq<Tx>): (r: seq<Hash>)
    ensures |r| == |txs|
  {
    seq(|txs|, i requires 0 <= i < |txs| => Txid(p, txs[i]))
  }

  function Wtxids(p: Primitives, txs: seq<Tx>): (r: seq<Hash>)
    ensures |r| == |txs|
  {
    seq(|txs|, i requires 0 <= i < |txs| => Wtxid(p, txs[i]))
  }

  /** `sha256d(left || right)`, the hash of an inner merkle node. */
  function PairHash(p: Primitives): (Hash, Hash) -> Hash {
    (a: Hash, b: Hash) => p.sha256d(a + b)
  }
}
