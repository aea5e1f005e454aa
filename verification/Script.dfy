/** Script byte strings: the signer's `append_push`, and a script reader in the
    style of Bitcoin Core's `GetOp` with the push writer `CScript::operator<<`. */
module Script {
  import opened Prelude
  import opened Bytes

  type ScriptBytes = seq<byte>

  const OP_PUSHDATA1: byte := 0x4c
  const OP_PUSHDATA2: byte := 0x4d
  const OP_PUSHDATA4: byte := 0x4e

  /** One instruction: its opcode and the bytes it pushes, empty for a bare opcode. */
  datatype Instr = Instr(opcode: byte, data: seq<byte>)

  /** What `append_push` leaves behind; the two-byte length keeps only the low
      sixteen bits, as the cast in the source does. */
  function Pushed(script: ScriptBytes, data: seq<byte>): ScriptBytes {
    if |data| <= 0x4b then script + [|data|] + data
    else if |data| <= 0xff then script + [OP_PUSHDATA1, |data|] + data
    else script + [OP_PUSHDATA2] + LittleEndian(|data| % 0x1_0000, 2) + data
  }

  method AppendPush(script: ScriptBytes, data: seq<byte>) returns (bytes: ScriptBytes)
    ensures bytes == Pushed(script, data)
    ensures |data| <= 75 ==> bytes == script + [|data|] + data
    ensures 75 < |data| <= 255 ==> bytes == script + [0x4c, |data|] + data
    ensures 255 < |data| ==> bytes == script + [0x4d, |data| % 256, (|data| / 256) % 256] + data
  {
    TwoBytes(|data|);
    bytes := script;
    if |data| <= 0x4b {
      bytes := bytes + [|data|];
    } else if |data| <= 0xff {
      bytes := bytes + [OP_PUSHDATA1];
      bytes := bytes + [|data|];
      assert bytes == script + [OP_PUSHDATA1, |data|];
    } else {
      bytes := bytes + [OP_PUSHDATA2];
      bytes := bytes + LittleEndian(|data| % 0x1_0000, 2);
    }
    bytes := bytes + data;
  }

  /** `CScript << data`, and `Builder::push_slice`: the shortest length prefix. */
  function CorePush(data: seq<byte>): ScriptBytes {
    if |data| < 0x4c then [|data|] + data
    else if |data| <= 0xff then [OP_PUSHDATA1, |data|] + data
    else if |data| <= 0xffff then [OP_PUSHDATA2] + LittleEndian(|data|, 2) + data
    else [OP_PUSHDATA4] + LittleEndian(|data|, 4) + data
  }

  /** Bytes taken by the push prefix of a script: one opcode and its length field. */
  function PrefixSize(opcode: byte): (r: nat)
    ensures 1 <= r <= 5
  {
    if opcode == OP_PUSHDATA1 then 2
    else if opcode == OP_PUSHDATA2 then 3
    else if opcode == OP_PUSHDATA4 then 5
    else 1
  }

  function PushSize(s: ScriptBytes): nat
    requires |s| > 0 && PrefixSize(s[0]) <= |s|
  {
    if s[0] < OP_PUSHDATA1 then s[0]
    else if s[0] <= OP_PUSHDATA4 then FromLittleEndian(s[1..PrefixSize(s[0])])
    else 0
  }

  datatype Head = Truncated | Head(instr: Instr, size: nat)

  /** The first instruction and the number of bytes it occupies; Truncated when
      the script ends inside it. */
  function First(s: ScriptBytes): (r: Head)
    requires |s| > 0
    ensures r.Head? ==> 1 <= r.size <= |s| && |r.instr.data| < r.size
  {
    var prefix := PrefixSize(s[0]);
    if prefix > |s| then Truncated
    else
      var end := prefix + PushSize(s);
      if end > |s| then Truncated else Head(Instr(s[0], s[prefix..end]), end)
  }

  /** All instructions of a script; None when it is cut short. */
  function Parse(s: ScriptBytes): Option<seq<Instr>>
    decreases |s|
  {
    if s == [] then Some([])
    else
      var head := First(s);
      if head.Truncated? then None
      else
        var rest := Parse(s[head.size..]);
        if rest.None? then None else Some([head.instr] + rest.value)
  }

  /** Reading the first instruction does not look past its end. */
  lemma FirstOfConcat(a: ScriptBytes, b: ScriptBytes)
    requires |a| > 0 && First(a).Head?
    ensures First(a + b) == First(a)
  {
    var prefix := PrefixSize(a[0]);
    assert (a + b)[1..prefix] == a[1..prefix];
    var end := prefix + PushSize(a);
    assert (a + b)[prefix..end] == a[prefix..end];
  }

  /** Parsing takes the first instruction off and goes on with what is left. */
  lemma ParseStep(s: ScriptBytes, head: Head, tail: ScriptBytes)
    requires |s| > 0 && First(s) == head && head.Head? && tail == s[head.size..]
    ensures Parse(tail).Some? ==> Parse(s) == Some([head.instr] + Parse(tail).value)
    ensures Parse(tail).None? ==> Parse(s) == None
  {
  }

  lemma {:induction false} ParseConcat(a: ScriptBytes, b: ScriptBytes)
    requires Parse(a).Some?
    ensures Parse(b).Some? ==> Parse(a + b) == Some(Parse(a).value + Parse(b).value)
    ensures Parse(b).None? ==> Parse(a + b) == None
    decreases |a|
  {
    if a == [] {
      assert a + b == b;
      if Parse(b).Some? {
        assert [] + Parse(b).value == Parse(b).value;
      }
    } else {
      var head := First(a);
      var tail := a[head.size..];
      assert (a + b)[head.size..] == tail + b;
      ParseStep(a, head, tail);
      FirstOfConcat(a, b);
      ParseConcat(tail, b);
      ConcatStep(a, b, head, tail);
    }
  }

  lemma ConcatStep(a: ScriptBytes, b: ScriptBytes, head: Head, tail: ScriptBytes)
    requires |a| > 0 && First(a + b) == head && head.Head? && (a + b)[head.size..] == tail + b
    requires Parse(tail).Some? && Parse(a) == Some([head.instr] + Parse(tail).value)
    requires Parse(b).Some? ==> Parse(tail + b) == Some(Parse(tail).value + Parse(b).value)
    requires Parse(b).None? ==> Parse(tail + b) == None
    ensures Parse(b).Some? ==> Parse(a + b) == Some(Parse(a).value + Parse(b).value)
    ensures Parse(b).None? ==> Parse(a + b) == None
  {
    hide *;
    ParseStep(a + b, head, tail + b);
    if Parse(b).Some? {
      ConcatAssoc([head.instr], Parse(tail).value, Parse(b).value);
    }
  }

  function PushOpcode(size: nat): byte {
    if size <= 0x4b then size
    else if size <= 0xff then OP_PUSHDATA1
    else if size <= 0xffff then OP_PUSHDATA2
    else OP_PUSHDATA4
  }

  lemma FirstOfPush(s: ScriptBytes, opcode: byte, field: seq<byte>, data: seq<byte>)
    requires s == [opcode] + field + data
    requires opcode <= OP_PUSHDATA4 && |field| == PrefixSize(opcode) - 1
    requires |data| == if opcode < OP_PUSHDATA1 then opcode as int else FromLittleEndian(field)
    ensures First(s) == Head(Instr(opcode, data), |s|)
  {
    var prefix := PrefixSize(opcode);
    assert s[1..prefix] == field;
    assert s[prefix..|s|] == data;
  }

  lemma ParseSingle(s: ScriptBytes, instr: Instr)
    requires |s| > 0 && First(s) == Head(instr, |s|)
    ensures Parse(s) == Some([instr])
  {
    assert s[|s|..] == [];
    assert Parse([]) == Some([]);
    assert [instr] + [] == [instr];
  }

  /** The length field between opcode and data of Core's push. */
  lemma CorePushForm(data: seq<byte>) returns (field: seq<byte>)
    requires |data| < 0x1_0000_0000
    ensures var op := PushOpcode(|data|);
            && CorePush(data) == [op] + field + data && |field| == PrefixSize(op) - 1
            && |data| == if op < OP_PUSHDATA1 then op as int else FromLittleEndian(field)
  {
    FieldRoundTrip(|data|);
    if |data| < 0x4c {
      field := [];
    } else if |data| <= 0xff {
      field := [|data|];
      assert FromLittleEndian(field) == field[0] + 256 * FromLittleEndian(field[1..]);
      assert CorePush(data) == [OP_PUSHDATA1] + field + data;
    } else {
      field := LittleEndian(|data|, if |data| <= 0xffff then 2 else 4);
    }
    hide LittleEndian, FromLittleEndian;
  }

  /** A push written by Core reads back as one instruction carrying its data. */
  lemma CorePushParses(data: seq<byte>)
    requires |data| < 0x1_0000_0000
    ensures Parse(CorePush(data)) == Some([Instr(PushOpcode(|data|), data)])
  {
    var field := CorePushForm(data);
    hide LittleEndian, FromLittleEndian, CorePush, Parse, First;
    FirstOfPush(CorePush(data), PushOpcode(|data|), field, data);
    ParseSingle(CorePush(data), Instr(PushOpcode(|data|), data));
  }

  /** What `append_push` adds is read back as one push of `data` after the
      script's own instructions exactly when the length fits its two bytes. */
  lemma AppendPushParses(script: ScriptBytes, data: seq<byte>)
    requires Parse(script).Some?
    ensures (exists op :: Parse(Pushed(script, data)) == Some(Parse(script).value + [Instr(op, data)]))
        <==> |data| <= 0xffff
    ensures |data| <= 0xffff ==>
      Parse(Pushed(script, data)) == Some(Parse(script).value + [Instr(PushOpcode(|data|), data)])
  {
    if |data| <= 0xffff {
      CorePushIsPushed(script, data);
      CorePushParses(data);
      ParseConcat(script, CorePush(data));
    } else {
      forall op ensures Parse(Pushed(script, data)) != Some(Parse(script).value + [Instr(op, data)]) {
        TruncatedPush(script, data, op);
      }
    }
  }

  lemma CorePushIsPushed(script: ScriptBytes, data: seq<byte>)
    requires |data| <= 0xffff
    ensures Pushed(script, data) == script + CorePush(data)
  {
    if 0xff < |data| {
      assert |data| % 0x1_0000 == |data|;
      ConcatAssoc4(script, [OP_PUSHDATA2], LittleEndian(|data|, 2), data);
    }
  }

  lemma DifferAt(a: seq<Instr>, b: seq<Instr>, instr: Instr)
    requires |b| > 0 && b[0] != instr
    ensures a + b != a + [instr]
  {
    assert (a + b)[|a|] == b[0];
    assert (a + [instr])[|a|] == instr;
  }

  /** A length that does not fit is read back as its low sixteen bits. */
  lemma TruncatedHead(data: seq<byte>, op: byte)
    requires |data| > 0xffff
    ensures var tail := [OP_PUSHDATA2] + LittleEndian(|data| % 0x1_0000, 2) + data;
            Parse(tail).Some? ==> |Parse(tail).value| > 0 && Parse(tail).value[0] != Instr(op, data)
  {
    var low := |data| % 0x1_0000;
    var field := LittleEndian(low, 2);
    var start := [OP_PUSHDATA2] + field + data[..low];
    var tail := start + data[low..];
    assert tail == [OP_PUSHDATA2] + field + data by {
      SplitAt(data, low);
      ConcatAssoc([OP_PUSHDATA2] + field, data[..low], data[low..]);
    }
    FieldRoundTrip(low);
    FirstOfPush(start, OP_PUSHDATA2, field, data[..low]);
    FirstOfConcat(start, data[low..]);
    ParseStep(tail, First(start), tail[First(start).size..]);
  }

  lemma TruncatedPush(script: ScriptBytes, data: seq<byte>, op: byte)
    requires Parse(script).Some? && |data| > 0xffff
    ensures Parse(Pushed(script, data)) != Some(Parse(script).value + [Instr(op, data)])
  {
    var field := LittleEndian(|data| % 0x1_0000, 2);
    var tail := [OP_PUSHDATA2] + field + data;
    assert Pushed(script, data) == script + tail by { ConcatAssoc4(script, [OP_PUSHDATA2], field, data); }
    ParseConcat(script, tail);
    TruncatedHead(data, op);
    if Parse(tail).Some? {
      DifferAt(Parse(script).value, Parse(tail).value, Instr(op, data));
    }
  }
}
