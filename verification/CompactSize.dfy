/** Bitcoin's variable-length size prefix: the signer's writer, the
    orchestrator's writer, and a reader with Core's canonical-form check. */
module CompactSize {
  import opened Bytes

  /** Bytes written for `len`; the widest form keeps only the low 32 bits. */
  function Encoding(len: nat): seq<byte> {
    if len <= 0xfc then [len]
    else if len <= 0xffff then [0xfd] + LittleEndian(len, 2)
    else [0xfe] + LittleEndian(len % 0x1_0000_0000, 4)
  }

  /** `compact_size` of the signer. */
  method Write(len: nat) returns (out: seq<byte>)
    ensures out == Encoding(len)
    ensures len <= 252 ==> out == [len]
    ensures 252 < len <= 65535 ==> out == [253, len % 256, len / 256]
    ensures 65535 < len ==> |out| == 5 && out[0] == 254
    ensures 65535 < len ==> forall i: nat :: i < 4 ==> out[1 + i] == (len % 0x1_0000_0000 / Pow256(i)) % 256
  {
    TwoBytes(len);
    forall i: nat | i < 4 ensures LittleEndian(len % 0x1_0000_0000, 4)[i] == (len % 0x1_0000_0000 / Pow256(i)) % 256 {
      LittleEndianAt(len % 0x1_0000_0000, 4, i);
    }
    hide LittleEndian, Pow256;
    out := [];
    if len <= 0xfc {
      out := out + [len];
    } else if len <= 0xffff {
      out := out + [0xfd];
      out := out + LittleEndian(len % 0x1_0000, 2);
    } else {
      out := out + [0xfe];
      out := out + LittleEndian(len % 0x1_0000_0000, 4);
    }
  }

  /** `write_compact_size` of the orchestrator, which appends to its argument;
      the two crates write the same bytes for every length. */
  method Append(out0: seq<byte>, len: nat) returns (out: seq<byte>)
    ensures out == out0 + Encoding(len)
  {
    out := out0;
    if len < 253 {
      out := out + [len];
    } else if len <= 0xffff {
      out := out + [253];
      out := out + LittleEndian(len % 0x1_0000, 2);
      assert out == out0 + ([253] + LittleEndian(len, 2));
    } else {
      out := out + [254];
      out := out + LittleEndian(len % 0x1_0000_0000, 4);
      assert out == out0 + ([254] + LittleEndian(len % 0x1_0000_0000, 4));
    }
  }

  /** A size read from the front of a byte string, and what follows it. */
  datatype Read = Bad | Read(size: nat, rest: seq<byte>)

  /** `ReadCompactSize`: rejects short input and sizes not in shortest form. */
  function Decode(b: seq<byte>): Read {
    if |b| == 0 then Bad
    else if b[0] < 253 then Read(b[0], b[1..])
    else if b[0] == 253 then Wide(b, 2, 253)
    else if b[0] == 254 then Wide(b, 4, 0x1_0000)
    else Wide(b, 8, 0x1_0000_0000)
  }

  function Wide(b: seq<byte>, width: nat, least: nat): Read
    requires |b| > 0
  {
    if |b| < 1 + width then Bad
    else
      var n := FromLittleEndian(b[1..1 + width]);
      if n < least then Bad else Read(n, b[1 + width..])
  }

  lemma WideRoundTrip(tag: byte, width: nat, n: nat, rest: seq<byte>)
    requires width == 2 || width == 4
    ensures var b := [tag] + LittleEndian(n, width) + rest;
            b[1..1 + width] == LittleEndian(n, width) && b[1 + width..] == rest && |b| >= 1 + width
    ensures FromLittleEndian(LittleEndian(n, width)) == n % (if width == 2 then 0x1_0000 else 0x1_0000_0000)
  {
    FieldRoundTrip(n);
  }

  /** The form with a tag byte reads back as the low bytes of the length, if
      those are not short enough for a smaller form. */
  lemma WideReads(tag: byte, width: nat, least: nat, n: nat, rest: seq<byte>)
    requires width == 2 || width == 4
    ensures var low := n % (if width == 2 then 0x1_0000 else 0x1_0000_0000);
            Wide([tag] + LittleEndian(n, width) + rest, width, least) == if low < least then Bad else Read(low, rest)
  {
    WideRoundTrip(tag, width, n, rest);
  }

  /** The writer is undone by the reader, with the rest of the input intact,
      exactly when the length fits 32 bits. */
  lemma RoundTrip(len: nat, rest: seq<byte>)
    ensures Decode(Encoding(len) + rest) == Read(len, rest) <==> len < 0x1_0000_0000
  {
    var b := Encoding(len) + rest;
    hide Wide, LittleEndian, FromLittleEndian;
    if len <= 0xfc {
      assert b[1..] == rest;
    } else if len <= 0xffff {
      WideReads(0xfd, 2, 253, len, rest);
    } else {
      WideReads(0xfe, 4, 0x1_0000, len % 0x1_0000_0000, rest);
    }
  }
}
