/** The coinbase height push of BIP34, against Core's script numbers. */
module Bip34 {
  import opened Prelude
  import opened Bytes

  /** Little-endian base-256 digits without trailing zero digits. */
  function Digits(n: nat): (r: seq<byte>) {
    if n == 0 then [] else [n % 256] + Digits(n / 256)
  }

  /** What `bip34_height_bytes` returns. */
  function HeightBytesOf(height: nat): seq<byte> {
    if height == 0 then [0]
    else
      var v := Digits(height);
      if v != [] && v[|v| - 1] >= 0x80 then v + [0] else v
  }

  method HeightBytes(height: u32) returns (v: seq<byte>)
    ensures v == HeightBytesOf(height)
  {
    if height == 0 {
      return [0x00];
    }
    v := [];
    var n: nat := height;
    while n > 0
      invariant v + Digits(n) == Digits(height)
      decreases n
    {
      ConcatAssoc(v, [n % 256], Digits(n / 256));
      v := v + [n % 256];
      n := n / 256;
    }
    assert v + [] == v;
    if v != [] && v[|v| - 1] >= 0x80 {
      v := v + [0x00];
    }
  }

  /** The coinbase scriptSig for a height. */
  function ScriptSig(height: nat): seq<byte>
    requires height < U32_LIMIT
  {
    if height == 0 then [0x00, 0x00]
    else if height <= 16 then [0x50 + height, 0x00]
    else
      HeightBytesShort(height);
      [|HeightBytesOf(height)|] + HeightBytesOf(height)
  }

  method CoinbaseScriptSig(height: u32) returns (bytes: seq<byte>)
    ensures bytes == ScriptSig(height)
  {
    if height == 0 {
      bytes := [0x00, 0x00];
    } else if height <= 16 {
      bytes := [0x50 + height, 0x00];
    } else {
      var num := HeightBytes(height);
      HeightBytesShort(height);
      bytes := [|num|];
      bytes := bytes + num;
    }
  }

  /** Core's `CScriptNum::set_vch`: little-endian magnitude whose top bit is the sign. */
  function ScriptNum(v: seq<byte>): int {
    if v == [] then 0
    else
      var top := v[|v| - 1];
      if top >= 0x80 then -(FromLittleEndian(v[..|v| - 1] + [top - 0x80]) as int)
      else FromLittleEndian(v)
  }

  /** Core's minimality rule: no top byte that carries only a needless sign. */
  predicate Minimal(v: seq<byte>) {
    v != [] ==> v[|v| - 1] % 0x80 != 0 || (|v| > 1 && v[|v| - 2] >= 0x80)
  }

  lemma {:induction false} DigitsValue(n: nat)
    ensures FromLittleEndian(Digits(n)) == n
    ensures n > 0 ==> Digits(n) != [] && Digits(n)[|Digits(n)| - 1] != 0
  {
    if n > 0 {
      DigitsValue(n / 256);
      assert Digits(n)[1..] == Digits(n / 256);
    }
  }

  lemma {:induction false} DigitsBound(n: nat, k: nat)
    requires n < Pow256(k)
    ensures |Digits(n)| <= k
  {
    if n > 0 {
      assert n / 256 < Pow256(k - 1);
      DigitsBound(n / 256, k - 1);
    }
  }

  lemma HeightBytesShort(height: nat)
    requires height < U32_LIMIT
    ensures 1 <= |HeightBytesOf(height)| <= 5
  {
    Widths();
    DigitsBound(height, 4);
    DigitsValue(height);
  }

  lemma {:induction false} AppendZero(v: seq<byte>)
    ensures FromLittleEndian(v + [0]) == FromLittleEndian(v)
  {
    if v == [] {
      assert FromLittleEndian([0]) == 0 + 256 * FromLittleEndian([]);
    } else {
      AppendZero(v[1..]);
      assert (v + [0])[1..] == v[1..] + [0];
    }
  }

  /** From 1 up the height bytes are a minimal script number equal to the height. */
  lemma HeightBytesDecode(height: nat)
    requires height > 0
    ensures ScriptNum(HeightBytesOf(height)) == height && Minimal(HeightBytesOf(height))
  {
    DigitsValue(height);
    AppendZero(Digits(height));
  }

  lemma {:induction false} LittleEndianInjective(a: seq<byte>, b: seq<byte>)
    requires |a| == |b| && FromLittleEndian(a) == FromLittleEndian(b)
    ensures a == b
  {
    if a != [] {
      assert a[0] == FromLittleEndian(a) % 256 && b[0] == FromLittleEndian(b) % 256;
      LittleEndianInjective(a[1..], b[1..]);
      assert a == [a[0]] + a[1..] && b == [b[0]] + b[1..];
    }
  }

  lemma MulAssoc(a: int, b: int, c: int)
    ensures a * (b * c) == (a * b) * c
  {
  }

  lemma CarryBound(low: byte, high: nat, limit: nat)
    requires high < limit
    ensures low + 256 * high < 256 * limit
  {
  }

  lemma {:induction false} TopByteBound(v: seq<byte>)
    requires v != []
    ensures Pow256(|v| - 1) * v[|v| - 1] <= FromLittleEndian(v) < Pow256(|v| - 1) * (v[|v| - 1] as int + 1)
  {
    if |v| == 1 {
      assert FromLittleEndian(v) == v[0] + 256 * FromLittleEndian(v[1..]);
      assert Pow256(0) == 1;
    } else {
      TopByteBound(v[1..]);
      var top: nat, low := v[|v| - 1], Pow256(|v| - 2);
      assert v[1..][|v[1..]| - 1] == top;
      assert Pow256(|v| - 1) == 256 * low;
      MulAssoc(256, low, top);
      MulAssoc(256, low, top + 1);
      CarryBound(v[0], FromLittleEndian(v[1..]), low * (top + 1));
    }
  }

  /** A minimal encoding of a positive number is no longer than its value needs. */
  lemma MinimalIsTight(v: seq<byte>)
    requires v != [] && Minimal(v) && v[|v| - 1] < 0x80 && ScriptNum(v) > 0
    ensures |v| > 1 ==> 2 * FromLittleEndian(v) >= Pow256(|v| - 1)
    ensures 2 * FromLittleEndian(v) < Pow256(|v|)
  {
    TopByteBound(v);
    var n, top := |v|, v[|v| - 1];
    assert Pow256(n) == 256 * Pow256(n - 1);
    assert Pow256(n - 1) * (top + 1) <= Pow256(n - 1) * 0x80 by { Scale(Pow256(n - 1), top + 1, 0x80); }
    if n > 1 {
      if top >= 1 {
        Scale(Pow256(n - 1), 1, top);
      } else {
        var w := v[..n - 1];
        assert v == w + [0];
        AppendZero(w);
        TopByteBound(w);
        Scale(Pow256(n - 2), 0x80, w[n - 2]);
      }
    }
  }

  lemma Scale(p: nat, a: nat, b: nat)
    requires a <= b
    ensures p * a <= p * b
  {
  }

  lemma {:induction false} PowGrows(j: nat, k: nat)
    requires j <= k
    ensures Pow256(j) <= Pow256(k)
  {
    if j < k { PowGrows(j, k - 1); }
  }

  /** There is one minimal script number for a positive value, so the bytes the
      signer pushes are the ones Core pushes. */
  lemma MinimalUnique(a: seq<byte>, b: seq<byte>)
    requires Minimal(a) && Minimal(b) && ScriptNum(a) == ScriptNum(b) > 0
    ensures a == b
  {
    assert a[|a| - 1] < 0x80 && b[|b| - 1] < 0x80;
    MinimalIsTight(a);
    MinimalIsTight(b);
    if |a| < |b| {
      PowGrows(|a|, |b| - 1);
    } else if |b| < |a| {
      PowGrows(|b|, |a| - 1);
    }
    LittleEndianInjective(a, b);
  }

  /** Core's `CScript() << height`: OP_0, OP_1 to OP_16, or a push of the minimal
      script number of the height. */
  ghost predicate IsCorePushOfHeight(s: seq<byte>, height: nat) {
    if height == 0 then s == [0x00]
    else if height <= 16 then s == [0x50 + height]
    else exists v: seq<byte> :: Minimal(v) && ScriptNum(v) == height && |v| < 0x4c && s == [|v|] + v
  }

  /** The coinbase scriptSig starts with Core's push of the height, and with
      nothing else that Core would push for it; its length is a legal one. */
  lemma StartsWithCorePush(height: nat)
    requires height < U32_LIMIT
    ensures 2 <= |ScriptSig(height)| <= 100
    ensures exists s: seq<byte> :: s <= ScriptSig(height) && IsCorePushOfHeight(s, height)
    ensures forall s: seq<byte> :: IsCorePushOfHeight(s, height) ==> s <= ScriptSig(height)
    ensures height >= 17 ==> IsCorePushOfHeight(ScriptSig(height), height)
    ensures height <= 16 ==> |ScriptSig(height)| == 2 && ScriptSig(height)[1] == 0
  {
    HeightBytesShort(height);
    if height == 0 {
      var s: seq<byte> := [0x00];
      assert s <= ScriptSig(height) && IsCorePushOfHeight(s, height);
    } else if height <= 16 {
      var s: seq<byte> := [0x50 + height];
      assert s <= ScriptSig(height) && IsCorePushOfHeight(s, height);
    } else {
      var num := HeightBytesOf(height);
      HeightBytesDecode(height);
      assert IsCorePushOfHeight(ScriptSig(height), height);
      forall s: seq<byte> | IsCorePushOfHeight(s, height) ensures s <= ScriptSig(height) {
        var v: seq<byte> :| Minimal(v) && ScriptNum(v) == height && |v| < 0x4c && s == [|v|] + v;
        MinimalUnique(v, num);
      }
    }
  }

  lemma FirstByte(height: nat)
    requires height < U32_LIMIT
    ensures ScriptSig(height) != []
    ensures if height == 0 then ScriptSig(height)[0] == 0
            else if height <= 16 then ScriptSig(height)[0] == 0x50 + height
            else 1 <= ScriptSig(height)[0] <= 5
  {
    HeightBytesShort(height);
  }

  /** Two heights never share a coinbase scriptSig. */
  lemma ScriptSigInjective(h: nat, k: nat)
    requires h < U32_LIMIT && k < U32_LIMIT && ScriptSig(h) == ScriptSig(k)
    ensures h == k
  {
    FirstByte(h);
    FirstByte(k);
    if h >= 17 && k >= 17 {
      assert ScriptSig(h)[1..] == HeightBytesOf(h) && ScriptSig(k)[1..] == HeightBytesOf(k);
      HeightBytesDecode(h);
      HeightBytesDecode(k);
    }
  }
}
