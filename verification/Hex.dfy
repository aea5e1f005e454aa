/** The orchestrator's hex helpers over ASCII text. */
module Hex {
  import opened Prelude
  import opened Bytes

  function Digit(n: nat): char
    requires n < 16
  {
    if n < 10 then '0' + n as char else 'a' + (n - 10) as char
  }

  function Nibble(c: char): Option<nat> {
    if '0' <= c <= '9' then Some((c - '0') as nat)
    else if 'a' <= c <= 'f' then Some((c - 'a') as nat + 10)
    else if 'A' <= c <= 'F' then Some((c - 'A') as nat + 10)
    else None
  }

  /** The sixteen digits in order. */
  const DIGITS := "0123456789abcdef"

  lemma DigitIs(n: nat)
    requires n < 16
    ensures Digit(n) == DIGITS[n]
  {
    if n < 10 { assert DIGITS[n] == '0' + n as char; } else { assert DIGITS[n] == 'a' + (n - 10) as char; }
  }

  /** `format!("{b:02x}")` of every byte. */
  function Encode(bytes: seq<byte>): string {
    if bytes == [] then "" else [Digit(bytes[0] / 16), Digit(bytes[0] % 16)] + Encode(bytes[1..])
  }

  /** `u8::from_str_radix(pair, 16)`, which also takes a leading plus sign. */
  function Pair(a: char, b: char): Option<byte> {
    if a == '+' then
      if Nibble(b).Some? then Some(Nibble(b).value) else None
    else if Nibble(a).Some? && Nibble(b).Some? then Some(16 * Nibble(a).value + Nibble(b).value)
    else None
  }

  function Decode(s: string): Option<seq<byte>> {
    if |s| % 2 == 1 then None
    else if s == "" then Some([])
    else
      var rest := Decode(s[2..]);
      if Pair(s[0], s[1]).Some? && rest.Some? then Some([Pair(s[0], s[1]).value] + rest.value) else None
  }

  function LowerChar(c: char): char {
    if 'A' <= c <= 'Z' then 'a' + (c - 'A') else c
  }

  function Lower(s: string): (r: string)
    ensures |r| == |s|
  {
    if s == "" then "" else [LowerChar(s[0])] + Lower(s[1..])
  }

  lemma {:induction false} DecodeEncode(bytes: seq<byte>)
    ensures Decode(Encode(bytes)) == Some(bytes)
  {
    if bytes != [] {
      DecodeEncode(bytes[1..]);
      assert Encode(bytes)[2..] == Encode(bytes[1..]);
      assert bytes == [bytes[0]] + bytes[1..];
      EncodeEven(bytes);
    }
  }

  /** A hex digit of either case, by code. */
  predicate IsHexCode(code: int) { 48 <= code <= 57 || 65 <= code <= 70 || 97 <= code <= 102 }

  /** A hex digit, or a plus sign, and then a hex digit. */
  predicate IsPair(s: string, i: nat) {
    2 * i + 1 < |s| && IsHexCode(s[2 * i + 1] as int) && (IsHexCode(s[2 * i] as int) || s[2 * i] as int == 43)
  }

  ghost predicate AllPairs(s: string) { forall i: nat :: 2 * i + 1 < |s| ==> IsPair(s, i) }

  lemma PairsStep(s: string)
    requires |s| >= 2
    ensures AllPairs(s) <==> IsPair(s, 0) && AllPairs(s[2..])
  {
    var rest := s[2..];
    forall i: nat | 2 * i + 1 < |rest| ensures IsPair(rest, i) <==> IsPair(s, i + 1) {
      assert rest[2 * i] == s[2 * (i + 1)] && rest[2 * i + 1] == s[2 * (i + 1) + 1];
    }
    if IsPair(s, 0) && AllPairs(rest) {
      forall i: nat | 2 * i + 1 < |s| ensures IsPair(s, i) {
        if i > 0 { assert IsPair(rest, i - 1); }
      }
    }
  }

  /** Text decodes exactly when it falls into such pairs. */
  lemma {:induction false} DecodesExactly(s: string)
    ensures Decode(s).Some? <==> |s| % 2 == 0 && AllPairs(s)
    decreases |s|
  {
    if |s| % 2 == 0 && s != "" {
      DecodesExactly(s[2..]);
      PairsStep(s);
      assert Pair(s[0], s[1]).Some? <==> IsPair(s, 0);
    }
  }

  /** Every byte becomes its two digits, the high one first. */
  lemma {:induction false} EncodeAt(bytes: seq<byte>, i: nat)
    requires i < |bytes|
    ensures |Encode(bytes)| == 2 * |bytes|
    ensures Encode(bytes)[2 * i] == DIGITS[bytes[i] / 16] && Encode(bytes)[2 * i + 1] == DIGITS[bytes[i] % 16]
  {
    EncodeEven(bytes);
    if i == 0 {
      DigitIs(bytes[0] / 16);
      DigitIs(bytes[0] % 16);
    } else {
      EncodeAt(bytes[1..], i - 1);
    }
  }

  lemma {:induction false} EncodeEven(bytes: seq<byte>)
    ensures |Encode(bytes)| == 2 * |bytes|
  {
    if bytes != [] {
      EncodeEven(bytes[1..]);
    }
  }

  lemma PairLower(a: char, b: char)
    requires Pair(a, b).Some?
    ensures a != '+' && b != '+' <==>
      [Digit(Pair(a, b).value / 16), Digit(Pair(a, b).value % 16)] == [LowerChar(a), LowerChar(b)]
  {
    var n := Pair(a, b).value;
    if a == '+' {
      assert Digit(n / 16) == '0';
    } else {
      assert n / 16 == Nibble(a).value && n % 16 == Nibble(b).value;
    }
  }

  /** Text that decodes is the lower-cased encoding of its bytes exactly when
      it holds no plus sign; otherwise the decoder accepts text that is not hex. */
  lemma {:induction false} EncodeDecode(s: string)
    requires Decode(s).Some?
    ensures Encode(Decode(s).value) == Lower(s) <==> '+' !in s
  {
    hide Pair, Digit, LowerChar;
    if s != "" {
      var bytes := Decode(s).value;
      EncodeDecode(s[2..]);
      PairLower(s[0], s[1]);
      assert bytes[1..] == Decode(s[2..]).value;
      assert Lower(s) == [LowerChar(s[0]), LowerChar(s[1])] + Lower(s[2..]) by {
        assert s[1..][1..] == s[2..];
      }
      var head := [Digit(bytes[0] / 16), Digit(bytes[0] % 16)];
      assert Encode(bytes)[..2] == head && Encode(bytes)[2..] == Encode(bytes[1..]);
      assert Lower(s)[..2] == [LowerChar(s[0]), LowerChar(s[1])] && Lower(s)[2..] == Lower(s[2..]);
      assert s == [s[0], s[1]] + s[2..];
    }
  }

  lemma PlusIsAccepted()
    ensures Decode("+f") == Some([15])
  {
    assert Pair('+', 'f') == Some(15);
    assert "+f"[2..] == "";
    assert Decode("") == Some([]);
    assert [15] + [] == [15 as byte];
  }
}
