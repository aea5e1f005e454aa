/** The signer and the verifier agree on what a block's signature is about. */
module Agreement {
  import opened Prelude
  import opened Bytes
  import opened Script
  import opened Chain
  import opened Signer
  import opened Bip325
  import Merkle
  import Bip34

  // ---- merkle roots

  lemma {:induction false} TreeHashIsNode(p: Primitives, leaves: seq<Hash>, height: nat, pos: nat)
    requires |leaves| > 0 && pos < Merkle.Width(|leaves|, height)
    ensures TreeHash(p, leaves, height, pos) == Merkle.Node(PairHash(p), leaves, height, pos)
  {
    if height > 0 {
      TreeHashIsNode(p, leaves, height - 1, 2 * pos);
      if 2 * pos + 1 < Merkle.Width(|leaves|, height - 1) {
        TreeHashIsNode(p, leaves, height - 1, 2 * pos + 1);
      }
    }
  }

  /** The root a verifier takes is the one the signer's loop computes. */
  lemma SameRoot(p: Primitives, leaves: seq<Hash>)
    requires leaves != []
    ensures RootOf(p, leaves) == Merkle.Top(PairHash(p), leaves) == MerkleRootOf(p, leaves)
  {
    Merkle.WidthTop(|leaves|);
    TreeHashIsNode(p, leaves, Merkle.Height(|leaves|), 0);
  }

  /** The instructions of the plain commitment output. */
  lemma CommitmentParses(p: Primitives, wtxids: seq<Hash>, reserved: Hash)
    ensures var data := WITNESS_COMMITMENT_PREFIX + CommitmentHash(p, wtxids, reserved);
            Parse(CommitmentScript(p, wtxids, reserved)) == Some([Instr(OP_RETURN, []), Instr(36, data)])
    ensures |CommitmentScript(p, wtxids, reserved)| == 38
  {
    var data := WITNESS_COMMITMENT_PREFIX + CommitmentHash(p, wtxids, reserved);
    CorePushParses(data);
    var op: ScriptBytes := [OP_RETURN];
    assert First(op) == Head(Instr(OP_RETURN, []), 1);
    ParseSingle(op, Instr(OP_RETURN, []));
    ParseConcat(op, CorePush(data));
    var one: seq<Instr> := [Instr(OP_RETURN, [])];
    assert one + [Instr(36, data)] == [Instr(OP_RETURN, []), Instr(36, data)];
  }

  lemma HashLayout(hash: Hash, tail: seq<byte>)
    ensures var script := [OP_RETURN] + CorePush(WITNESS_COMMITMENT_PREFIX + hash) + tail;
            IsCommitment(script) && script[6..38] == hash
  {
    assert [OP_RETURN] + CorePush(WITNESS_COMMITMENT_PREFIX + hash) + tail
        == [0x6a, 0x24, 0xaa, 0x21, 0xa9, 0xed] + hash + tail;
  }

  lemma CommitmentLayout(p: Primitives, wtxids: seq<Hash>, reserved: Hash, tail: seq<byte>)
    ensures var script := CommitmentScript(p, wtxids, reserved) + tail;
            IsCommitment(script) && script[6..38] == CommitmentHash(p, wtxids, reserved)
  {
    hide CorePush, IsCommitment, CommitmentHash;
    HashLayout(CommitmentHash(p, wtxids, reserved), tail);
  }

  /** Clearing the finished commitment script yields the appended solution and
      the script that was signed over. */
  lemma ClearUndoesPush(commitment: seq<byte>, script: ScriptBytes, solution: seq<byte>)
    requires |commitment| == 36 && commitment[..4] == WITNESS_COMMITMENT_PREFIX
    requires script == [OP_RETURN] + CorePush(commitment)
    requires Parse(script) == Some([Instr(OP_RETURN, []), Instr(36, commitment)])
    requires 0 < |solution| && 4 + |solution| <= 0xffff
    ensures Parse(Pushed(script, SIGNET_HEADER + solution)).Some?
    ensures Clear(Parse(Pushed(script, SIGNET_HEADER + solution)).value, false)
         == Cleared(Some(solution), Pushed(script, SIGNET_HEADER))
  {
    var push := SIGNET_HEADER + solution;
    AppendPushParses(script, push);
    var last := Instr(PushOpcode(|push|), push);
    var head := [Instr(OP_RETURN, []), Instr(36, commitment)];
    var instrs := head + [last];
    assert Parse(Pushed(script, push)) == Some(instrs);
    assert push[..4] == HEADER && push[4..] == solution;
    ClearThree(commitment, last, solution);
    assert instrs == [Instr(OP_RETURN, []), Instr(36, commitment), last];
    CorePushIsPushed(script, SIGNET_HEADER);
    ConcatAssoc([OP_RETURN], CorePush(commitment), CorePush(HEADER));
  }

  lemma ClearThree(commitment: seq<byte>, last: Instr, solution: seq<byte>)
    requires |commitment| == 36 && commitment[..4] == WITNESS_COMMITMENT_PREFIX
    requires |last.data| > 4 && last.data[..4] == HEADER && last.data[4..] == solution
    ensures Clear([Instr(OP_RETURN, []), Instr(36, commitment), last], false)
         == Cleared(Some(solution), [OP_RETURN] + (CorePush(commitment) + CorePush(HEADER)))
  {
    hide CorePush;
    var third := [last];
    assert third[1..] == [];
    assert Clear([], true) == Cleared(None, []);
    assert CorePush(HEADER) + [] == CorePush(HEADER);
    assert Clear(third, false) == Cleared(Some(solution), CorePush(HEADER));
    var second := [Instr(36, commitment), last];
    assert second[1..] == third;
    assert commitment[..4] != HEADER by { assert commitment[..4][0] == 0xaa; }
    assert Clear(second, false) == Cleared(Some(solution), CorePush(commitment) + CorePush(HEADER));
    var first := [Instr(OP_RETURN, []), Instr(36, commitment), last];
    assert first[1..] == second;
  }

  /** The solution bytes read back as the signature script and no witness. */
  lemma SolutionReads(scriptSig: ScriptBytes)
    requires |scriptSig| < U32_LIMIT
    ensures ReadSolution(Solution(scriptSig)) == Unlocking(scriptSig, [])
  {
    var end: seq<byte> := [0x00];
    var rest := scriptSig + end;
    ConcatAssoc(CompactSize.Encoding(|scriptSig|), scriptSig, end);
    CompactSize.RoundTrip(|scriptSig|, rest);
    assert rest[..|scriptSig|] == scriptSig && rest[|scriptSig|..] == end;
    assert end[1..] == [];
    assert ReadStack(end) == Stack([], []);
  }

  /** The coinbase of a draft: the reward, then the commitment with the solution
      pushed after it, which is the output a verifier looks at. */
  lemma FinalCoinbase(p: Primitives, t: Template, reward: ScriptBytes, push: seq<byte>)
    requires Decodable(t) && |push| <= 0xffff
    ensures var script := CommitmentScript(p, [ZERO_HASH] + Wtxids(p, Transactions(t)), ZERO_HASH);
            var coinbase := WithLastPush(PlainCoinbase(p, t, reward), push);
            && coinbase.outputs == [TxOut(t.coinbaseValue, reward), TxOut(0, Pushed(script, push))]
            && coinbase.inputs == PlainCoinbase(p, t, reward).inputs
            && CommitmentIndex(coinbase.outputs) == Some(1)
            && Pushed(script, push)[6..38]
               == CommitmentHash(p, [ZERO_HASH] + Wtxids(p, Transactions(t)), ZERO_HASH)
  {
    var wtxids := [ZERO_HASH] + Wtxids(p, Transactions(t));
    var script := CommitmentScript(p, wtxids, ZERO_HASH);
    CorePushIsPushed(script, push);
    CommitmentLayout(p, wtxids, ZERO_HASH, CorePush(push));
  }

  /** Clearing the solution out of the final coinbase gives the coinbase whose
      id was signed. */
  lemma ClearedCoinbase(p: Primitives, t: Template, reward: ScriptBytes, push: seq<byte>)
    requires Decodable(t) && |push| <= 0xffff
    ensures var script := CommitmentScript(p, [ZERO_HASH] + Wtxids(p, Transactions(t)), ZERO_HASH);
            var coinbase := WithLastPush(PlainCoinbase(p, t, reward), push);
            |coinbase.outputs| == 2
            && ReplaceScript(coinbase, 1, Pushed(script, SIGNET_HEADER))
               == WithLastPush(PlainCoinbase(p, t, reward), SIGNET_HEADER)
  {
    var script := CommitmentScript(p, [ZERO_HASH] + Wtxids(p, Transactions(t)), ZERO_HASH);
    FinalCoinbase(p, t, reward, push);
    FinalCoinbase(p, t, reward, SIGNET_HEADER);
    var coinbase := WithLastPush(PlainCoinbase(p, t, reward), push);
    assert coinbase.outputs[1 := TxOut(0, Pushed(script, SIGNET_HEADER))]
        == [TxOut(t.coinbaseValue, reward), TxOut(0, Pushed(script, SIGNET_HEADER))];
  }

  lemma SameToSpend(header: Header, root: Hash, challenge: ScriptBytes)
    ensures ToSpend(header.version, header.previous, header.time, root, challenge)
         == VirtualToSpend(header, root, challenge)
  {
    var data := Serialized(header.version, header.previous, root, header.time);
    assert |data| == 72;
    assert [0x00] + CorePush(data) == [0x00, 72] + data;
  }

  /** What the verifier takes from the coinbase script of a draft. */
  lemma SolutionRecovered(p: Primitives, t: Template, reward: ScriptBytes, key: Key)
    requires Decodable(t) && |SolutionPush(p, t, reward, key)| <= 0xffff
    ensures var script := CommitmentScript(p, [ZERO_HASH] + Wtxids(p, Transactions(t)), ZERO_HASH);
            var scriptSig := SolutionScriptSig(Signature(p, t, reward, key));
            var final := Parse(Pushed(script, SolutionPush(p, t, reward, key)));
            && final.Some?
            && Clear(final.value, false) == Cleared(Some(Solution(scriptSig)), Pushed(script, SIGNET_HEADER))
            && ReadSolution(Solution(scriptSig)) == Unlocking(scriptSig, [])
  {
    var wtxids := [ZERO_HASH] + Wtxids(p, Transactions(t));
    var commitment := WITNESS_COMMITMENT_PREFIX + CommitmentHash(p, wtxids, ZERO_HASH);
    var scriptSig := SolutionScriptSig(Signature(p, t, reward, key));
    CommitmentParses(p, wtxids, ZERO_HASH);
    assert commitment[..4] == WITNESS_COMMITMENT_PREFIX;
    ClearUndoesPush(commitment, CommitmentScript(p, wtxids, ZERO_HASH), Solution(scriptSig));
    SolutionReads(scriptSig);
  }

  /** For every template, reward script and key: from the finished block, under
      any target bits and nonce, the verifier extracts the solution the signer
      appended and rebuilds the transactions the signer signed. */
  lemma VerifierDerivesSignedTransactions(p: Primitives, t: Template, reward: ScriptBytes, key: Key, header: Header)
    requires Decodable(t) && |SolutionPush(p, t, reward, key)| <= 0xffff
    requires header.version == t.version && header.previous == t.previous.value && header.time == BlockTime(t)
    ensures var unlocking := Unlocking(SolutionScriptSig(Signature(p, t, reward, key)), []);
            var toSpend := SignedToSpend(p, t, reward);
            Derive(p, Block(header, Draft(p, t, reward, key).txs), t.challenge.value)
            == Spend(unlocking, toSpend, VirtualToSign(p, toSpend, unlocking))
  {
    var push := SolutionPush(p, t, reward, key);
    FinalCoinbase(p, t, reward, push);
    SolutionRecovered(p, t, reward, key);
    ClearedCoinbase(p, t, reward, push);
    var txs := Draft(p, t, reward, key).txs;
    assert txs[1..] == Transactions(t);
    var cleared := WithLastPush(PlainCoinbase(p, t, reward), SIGNET_HEADER);
    var leaves := Txids(p, [cleared] + Transactions(t));
    var block := Block(header, txs);
    assert ReadBlock(block) == Reading(Unlocking(SolutionScriptSig(Signature(p, t, reward, key)), []), cleared);
    assert SignetLeaves(p, block) == leaves;
    SameRoot(p, leaves);
    SameToSpend(header, RootOf(p, leaves), t.challenge.value);
  }

  const LONGEST_SIGNATURE: nat := 65522

  /** The push fits `append_push` for exactly the signatures up to this length;
      DER signatures have at most 72 bytes. */
  lemma SolutionFits(signature: seq<byte>)
    ensures |SIGNET_HEADER + Solution(SolutionScriptSig(signature))| <= 0xffff
        <==> |signature| <= LONGEST_SIGNATURE
  {
    var item := signature + [SIGHASH_ALL];
    assert |SolutionScriptSig(signature)| == 1 + |CorePush(item)|;
  }

  /** A one-of-one multisig challenge: its four instructions. */
  lemma ChallengeParses(key: PublicKey)
    ensures Parse(ChallengeForPublicKey(key))
         == Some([Instr(OP_PUSHNUM_1, []), Instr(33, key), Instr(OP_PUSHNUM_1, []), Instr(OP_CHECKMULTISIG, [])])
  {
    var one, tail: ScriptBytes := [OP_PUSHNUM_1], [OP_PUSHNUM_1, OP_CHECKMULTISIG];
    assert First(one) == Head(Instr(OP_PUSHNUM_1, []), 1);
    ParseSingle(one, Instr(OP_PUSHNUM_1, []));
    CorePushParses(key);
    ParseConcat(one, CorePush(key));
    TailParses();
    ParseConcat(one + CorePush(key), tail);
    var a: seq<Instr> := [Instr(OP_PUSHNUM_1, [])];
    var b: seq<Instr> := [Instr(33, key)];
    var c: seq<Instr> := [Instr(OP_PUSHNUM_1, []), Instr(OP_CHECKMULTISIG, [])];
    assert a + b + c
        == [Instr(OP_PUSHNUM_1, []), Instr(33, key), Instr(OP_PUSHNUM_1, []), Instr(OP_CHECKMULTISIG, [])];
  }

  lemma TailParses()
    ensures Parse([OP_PUSHNUM_1, OP_CHECKMULTISIG])
         == Some([Instr(OP_PUSHNUM_1, []), Instr(OP_CHECKMULTISIG, [])])
  {
    var tail, last: ScriptBytes := [OP_PUSHNUM_1, OP_CHECKMULTISIG], [OP_CHECKMULTISIG];
    assert First(last) == Head(Instr(OP_CHECKMULTISIG, []), 1);
    ParseSingle(last, Instr(OP_CHECKMULTISIG, []));
    assert First(tail) == Head(Instr(OP_PUSHNUM_1, []), 1);
    assert tail[1..] == last;
    ParseStep(tail, Head(Instr(OP_PUSHNUM_1, []), 1), last);
    var a: seq<Instr> := [Instr(OP_PUSHNUM_1, [])];
    assert a + [Instr(OP_CHECKMULTISIG, [])] == [Instr(OP_PUSHNUM_1, []), Instr(OP_CHECKMULTISIG, [])];
  }

  lemma ScriptSigParses(signature: seq<byte>)
    requires |signature| < 0xffff
    ensures PushOpcode(|signature| + 1) <= OP_PUSHDATA2
    ensures Parse(SolutionScriptSig(signature))
         == Some([Instr(0, []), Instr(PushOpcode(|signature| + 1), signature + [SIGHASH_ALL])])
  {
    var item, zero: ScriptBytes := signature + [SIGHASH_ALL], [0x00];
    assert First(zero) == Head(Instr(0, []), 1);
    ParseSingle(zero, Instr(0, []));
    CorePushParses(item);
    ParseConcat(zero, CorePush(item));
    var a: seq<Instr> := [Instr(0, [])];
    assert a + [Instr(PushOpcode(|item|), item)] == [Instr(0, []), Instr(PushOpcode(|item|), item)];
  }

  lemma RunPushes(check: (seq<byte>, seq<byte>) -> bool, op: byte, item: seq<byte>)
    requires op <= OP_PUSHDATA2
    ensures Run(check, [Instr(0, []), Instr(op, item)], []) == Some([[], item])
  {
    var two, one := [Instr(0, []), Instr(op, item)], [Instr(op, item)];
    assert two[1..] == one && one[1..] == [];
    var empty: seq<seq<byte>> := [[]];
    assert [] + [two[0].data] == empty;
    assert empty + [item] == [[], item];
    assert Run(check, [], [[], item]) == Some([[], item]);
    assert Run(check, one, empty) == Some([[], item]);
  }

  function Verdict(ok: bool): seq<byte> { if ok then [1] else [] }

  /** The multisig operation on the stack of a one-key challenge. */
  lemma OneKeyMultisig(check: (seq<byte>, seq<byte>) -> bool, item: seq<byte>, key: seq<byte>)
    ensures CheckMultisig(check, [[], item, [1], key, [1]]) == Some([Verdict(check(item, key))])
  {
    var stack: seq<seq<byte>> := [[], item, [1], key, [1]];
    assert stack[3..4] == [key] && stack[1..2] == [item] && stack[..0] == [];
    assert Small(stack[4]) == Some(1) && Small(stack[2]) == Some(1) && stack[0] == [];
    assert Multisig(check, [item], [key]) == check(item, key) by {
      assert [item][1..] == [] && [key][1..] == [];
    }
    assert stack[..0] + [Verdict(check(item, key))] == [Verdict(check(item, key))];
  }

  lemma RunChallenge(check: (seq<byte>, seq<byte>) -> bool, item: seq<byte>, key: seq<byte>)
    ensures Run(check, [Instr(OP_PUSHNUM_1, []), Instr(33, key), Instr(OP_PUSHNUM_1, []), Instr(OP_CHECKMULTISIG, [])],
                [[], item])
         == Some([Verdict(check(item, key))])
  {
    hide CheckMultisig;
    var i4 := [Instr(OP_PUSHNUM_1, []), Instr(33, key), Instr(OP_PUSHNUM_1, []), Instr(OP_CHECKMULTISIG, [])];
    var i3 := [Instr(33, key), Instr(OP_PUSHNUM_1, []), Instr(OP_CHECKMULTISIG, [])];
    var i2 := [Instr(OP_PUSHNUM_1, []), Instr(OP_CHECKMULTISIG, [])];
    var i1 := [Instr(OP_CHECKMULTISIG, [])];
    assert i4[1..] == i3 && i3[1..] == i2 && i2[1..] == i1 && i1[1..] == [];
    var s0: seq<seq<byte>>, s1: seq<seq<byte>>, s2: seq<seq<byte>>, s3: seq<seq<byte>>
      := [[], item], [[], item, [1]], [[], item, [1], key], [[], item, [1], key, [1]];
    assert s0 + [[1]] == s1 && s1 + [key] == s2 && s2 + [[1]] == s3;
    OneKeyMultisig(check, item, key);
    var done := [Verdict(check(item, key))];
    assert Run(check, [], done) == Some(done);
    assert Run(check, i1, s3) == Some(done);
    assert Run(check, i2, s2) == Some(done);
    assert Run(check, i3, s1) == Some(done);
  }

  /** A one-key challenge is unlocked by the signature script of exactly the
      signatures the key's check accepts. */
  lemma OneKeyUnlocks(check: (seq<byte>, seq<byte>) -> bool, signature: seq<byte>, key: PublicKey)
    requires |signature| < 0xffff
    ensures Unlocks(check, SolutionScriptSig(signature), ChallengeForPublicKey(key))
        <==> check(signature + [SIGHASH_ALL], key)
  {
    var item := signature + [SIGHASH_ALL];
    ChallengeParses(key);
    ScriptSigParses(signature);
    var op := PushOpcode(|signature| + 1);
    hide *;
    RunPushes(check, op, item);
    RunChallenge(check, item, key);
    Finish(check, SolutionScriptSig(signature), ChallengeForPublicKey(key), [[], item], check(item, key));
  }

  lemma Finish(check: (seq<byte>, seq<byte>) -> bool, scriptSig: ScriptBytes, challenge: ScriptBytes, stack: seq<seq<byte>>, ok: bool)
    requires Parse(scriptSig).Some? && Parse(challenge).Some?
    requires Run(check, Parse(scriptSig).value, []) == Some(stack)
    requires Run(check, Parse(challenge).value, stack) == Some([Verdict(ok)])
    ensures Unlocks(check, scriptSig, challenge) <==> ok
  {
  }

  /** The hash a verifier checks the signature against is the signed one. */
  lemma SameMessage(p: Primitives, t: Template, reward: ScriptBytes, scriptSig: ScriptBytes)
    requires Decodable(t)
    ensures var toSpend := SignedToSpend(p, t, reward);
            WithoutScriptSig(VirtualToSign(p, toSpend, Unlocking(scriptSig, []))) == ToSign(p, toSpend)
  {
  }

  /** The draft solves its signer's challenge exactly when the signer's public
      key verifies the signature of the message it signed. */
  lemma DraftSolvesChallenge(p: Primitives, t: Template, reward: ScriptBytes, key: Key, header: Header)
    requires Decodable(t) && t.challenge.value == ChallengeForPublicKey(p.publicKey(key))
    requires |Signature(p, t, reward, key)| <= LONGEST_SIGNATURE
    requires header.version == t.version && header.previous == t.previous.value && header.time == BlockTime(t)
    ensures SolvesChallenge(p, Block(header, Draft(p, t, reward, key).txs), t.challenge.value)
        <==> p.verify(p.publicKey(key), SignedMessage(p, t, reward), Signature(p, t, reward, key))
  {
    var signature, challenge := Signature(p, t, reward, key), t.challenge.value;
    var block := Block(header, Draft(p, t, reward, key).txs);
    var scriptSig := SolutionScriptSig(signature);
    SolutionFits(signature);
    VerifierDerivesSignedTransactions(p, t, reward, key, header);
    SameMessage(p, t, reward, scriptSig);
    var toSign := Derive(p, block, challenge).toSign;
    var check := (sig: seq<byte>, k: seq<byte>) => CheckSignature(p, toSign, challenge, sig, k);
    var item := signature + [SIGHASH_ALL];
    assert item[|item| - 1] == SIGHASH_ALL && item[..|item| - 1] == signature;
    assert check(item, p.publicKey(key)) == p.verify(p.publicKey(key), SignedMessage(p, t, reward), signature);
    OneKeyUnlocks(check, signature, p.publicKey(key));
  }

  /** The witness commitment of a draft holds although the solution was appended
      to the output after the commitment was computed. */
  lemma DraftCommitmentHolds(p: Primitives, t: Template, reward: ScriptBytes, key: Key, header: Header)
    requires Decodable(t) && |SolutionPush(p, t, reward, key)| <= 0xffff
    ensures WitnessCommitmentHolds(p, Block(header, Draft(p, t, reward, key).txs))
  {
    var push := SolutionPush(p, t, reward, key);
    FinalCoinbase(p, t, reward, push);
    var txs := Draft(p, t, reward, key).txs;
    assert txs[1..] == Transactions(t);
    SameRoot(p, [ZERO_HASH] + Wtxids(p, Transactions(t)));
  }

  /** The coinbase carries the template's height. */
  lemma DraftCoinbaseOk(p: Primitives, t: Template, reward: ScriptBytes, key: Key)
    requires Decodable(t)
    ensures CoinbaseOk(Draft(p, t, reward, key).txs[0], t.height)
  {
    Bip34.StartsWithCorePush(t.height);
    var s: seq<byte> :| s <= Bip34.ScriptSig(t.height) && Bip34.IsCorePushOfHeight(s, t.height);
    hide *;
    DraftScriptSig(p, t, reward, key);
    ScriptSigSuffices(Draft(p, t, reward, key).txs[0], t.height, s);
  }

  lemma DraftScriptSig(p: Primitives, t: Template, reward: ScriptBytes, key: Key)
    requires Decodable(t)
    ensures var tx := Draft(p, t, reward, key).txs[0];
            |tx.inputs| == 1 && tx.inputs[0].scriptSig == Bip34.ScriptSig(t.height)
            && tx.inputs[0].previous == OutPoint(ZERO_HASH, 0xffff_ffff)
  {
  }

  lemma ScriptSigSuffices(tx: Tx, height: nat, s: seq<byte>)
    requires |tx.inputs| == 1 && tx.inputs[0].previous == OutPoint(ZERO_HASH, 0xffff_ffff)
    requires 2 <= |tx.inputs[0].scriptSig| <= 100 && s <= tx.inputs[0].scriptSig && Bip34.IsCorePushOfHeight(s, height)
    ensures CoinbaseOk(tx, height)
  {
    hide Bip34.IsCorePushOfHeight;
  }

  /** Every field of the block that the template decides, besides the scripts:
      version, parent and bits as given, the later of the two times, the reward
      paid to the reward script, and the transactions in order behind the coinbase. */
  lemma DraftFollowsTemplate(p: Primitives, t: Template, reward: ScriptBytes, key: Key)
    requires Decodable(t)
    ensures var block := Draft(p, t, reward, key);
            var coinbase := block.txs[0];
            && block.header.version == t.version && Some(block.header.previous) == t.previous
            && Some(block.header.bits) == t.bits
            && block.header.time >= t.curtime && block.header.time >= t.mintime
            && (block.header.time == t.curtime || block.header.time == t.mintime)
            && |block.txs| == 1 + |t.transactions|
            && (forall i :: 0 <= i < |t.transactions| ==> Some(block.txs[1 + i]) == t.transactions[i])
            && coinbase.version == 2 && coinbase.lockTime == 0
            && coinbase.inputs[0].sequence == 0xffff_ffff
            && |coinbase.outputs| == 2 && coinbase.outputs[0] == TxOut(t.coinbaseValue, reward)
            && coinbase.outputs[1].value == 0
  {
  }

  /** A block `assemble_block` returns for its own key's challenge is accepted,
      coinbase height, header root, target, witness commitment and solution,
      exactly when that key verifies what it signs. */
  lemma AssembledBlockAccepted(p: Primitives, t: Template, reward: ScriptBytes, key: Key, block: Block)
    requires Decodable(t) && t.challenge.value == ChallengeForPublicKey(p.publicKey(key))
    requires |Signature(p, t, reward, key)| <= LONGEST_SIGNATURE
    requires var draft := Draft(p, t, reward, key);
             block == draft.(header := draft.header.(nonce := block.header.nonce))
             && Meets(p, draft.header, block.header.nonce)
    ensures Accepts(p, block, t.challenge.value, t.height)
        <==> p.verify(p.publicKey(key), SignedMessage(p, t, reward), Signature(p, t, reward, key))
  {
    SolutionFits(Signature(p, t, reward, key));
    DraftSolvesChallenge(p, t, reward, key, block.header);
    DraftCommitmentHolds(p, t, reward, key, block.header);
    DraftCoinbaseOk(p, t, reward, key);
    assert Txids(p, block.txs) != [];
    SameRoot(p, Txids(p, block.txs));
  }

  /** With a signature scheme that verifies what it signs, every block that
      `assemble_block` returns for its own key's challenge is accepted. */
  lemma HonestBlockAccepted(p: Primitives, t: Template, reward: ScriptBytes, key: Key, block: Block)
    requires Decodable(t) && t.challenge.value == ChallengeForPublicKey(p.publicKey(key))
    requires forall m: Hash :: p.verify(p.publicKey(key), m, p.sign(key, m)) && |p.sign(key, m)| <= 72
    requires var draft := Draft(p, t, reward, key);
             block == draft.(header := draft.header.(nonce := block.header.nonce))
             && p.meets(block.header.bits, p.blockHash(block.header))
    ensures Accepts(p, block, t.challenge.value, t.height)
  {
    hide Accepts, Draft, SignedMessage;
    AssembledBlockAccepted(p, t, reward, key, block);
  }

  /** The solution byte for byte, for signatures as short as DER ones: the
      signature script with its length, which holds an empty item and the
      signature with the hash type for all, and an empty witness. */
  lemma SolutionLayout(signature: seq<byte>)
    requires |signature| <= 72
    ensures Solution(SolutionScriptSig(signature))
         == [|signature| + 3, 0x00, |signature| + 1] + signature + [0x01] + [0x00]
  {
    var script := SolutionScriptSig(signature);
    assert script == [0x00, |signature| + 1] + signature + [0x01];
    assert Solution(script) == [|signature| + 3] + script + [0x00];
  }

  lemma {:induction false} LittleEndianOneToOne(m: nat, n: nat, width: nat)
    requires m < Pow256(width) && n < Pow256(width) && LittleEndian(m, width) == LittleEndian(n, width)
    ensures m == n
  {
    LittleEndianRoundTrip(m, width);
    LittleEndianRoundTrip(n, width);
    DivUnique(m, Pow256(width), 0, m);
    DivUnique(n, Pow256(width), 0, n);
  }

  lemma SignedOneToOne(m: int, n: int)
    requires -0x8000_0000 <= m < 0x8000_0000 && -0x8000_0000 <= n < 0x8000_0000
    requires SignedLittleEndian(m) == SignedLittleEndian(n)
    ensures m == n
  {
    Widths();
    LittleEndianOneToOne(m % 0x1_0000_0000, n % 0x1_0000_0000, 4);
  }

  lemma SerializedOneToOne(a: Header, b: Header, ra: Hash, rb: Hash)
    requires Serialized(a.version, a.previous, ra, a.time) == Serialized(b.version, b.previous, rb, b.time)
    ensures SignedLittleEndian(a.version) == SignedLittleEndian(b.version)
    ensures a.previous == b.previous && ra == rb && LittleEndian(a.time, 4) == LittleEndian(b.time, 4)
  {
    var x := Serialized(a.version, a.previous, ra, a.time);
    var y := Serialized(b.version, b.previous, rb, b.time);
    assert x[..4] == SignedLittleEndian(a.version) && y[..4] == SignedLittleEndian(b.version);
    assert x[4..36] == a.previous && y[4..36] == b.previous;
    assert x[36..68] == ra && y[36..68] == rb;
    assert x[68..] == LittleEndian(a.time, 4) && y[68..] == LittleEndian(b.time, 4);
  }

  /** The signed transaction pins the block: blocks of equally many transactions
      with one to_spend agree in version, parent and time, and in every
      transaction id exactly when the merkle trees over those ids do not hash
      different nodes at one place to the same parent. Bits and nonce stay free. */
  lemma SignatureBindsBlock(p: Primitives, a: Block, b: Block, challenge: ScriptBytes)
    requires Derive(p, a, challenge).Spend? && Derive(p, b, challenge).Spend?
    requires Derive(p, a, challenge).toSpend == Derive(p, b, challenge).toSpend && |a.txs| == |b.txs|
    requires -0x8000_0000 <= a.header.version < 0x8000_0000 && -0x8000_0000 <= b.header.version < 0x8000_0000
    requires a.header.time < U32_LIMIT && b.header.time < U32_LIMIT
    ensures a.header.version == b.header.version && a.header.previous == b.header.previous
    ensures a.header.time == b.header.time
    ensures |SignetLeaves(p, a)| == |SignetLeaves(p, b)| > 0
    ensures SignetLeaves(p, a) == SignetLeaves(p, b)
       <==> !Merkle.TreesCollide(PairHash(p), SignetLeaves(p, a), SignetLeaves(p, b))
  {
    var la, lb := SignetLeaves(p, a), SignetLeaves(p, b);
    var ra, rb := RootOf(p, la), RootOf(p, lb);
    SameInput(a.header, b.header, ra, rb, challenge);
    SerializedOneToOne(a.header, b.header, ra, rb);
    SignedOneToOne(a.header.version, b.header.version);
    Widths();
    LittleEndianOneToOne(a.header.time, b.header.time, 4);
    SameRoot(p, la);
    SameRoot(p, lb);
    Merkle.RootIsTop(PairHash(p), la);
    Merkle.RootIsTop(PairHash(p), lb);
    Merkle.RootBindsLeaves(PairHash(p), la, lb);
  }

  lemma SameInput(a: Header, b: Header, ra: Hash, rb: Hash, challenge: ScriptBytes)
    requires VirtualToSpend(a, ra, challenge) == VirtualToSpend(b, rb, challenge)
    ensures Serialized(a.version, a.previous, ra, a.time) == Serialized(b.version, b.previous, rb, b.time)
  {
    var x := Serialized(a.version, a.previous, ra, a.time);
    var y := Serialized(b.version, b.previous, rb, b.time);
    assert VirtualToSpend(a, ra, challenge).inputs[0].scriptSig == [0x00, 72] + x;
    assert VirtualToSpend(b, rb, challenge).inputs[0].scriptSig == [0x00, 72] + y;
    assert ([0x00, 72] + x)[2..] == x && ([0x00, 72] + y)[2..] == y;
  }
}
