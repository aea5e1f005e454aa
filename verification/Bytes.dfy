/** Bytes and fixed-width little-endian integers, the encoding of every
    length, height and header field. */
module Bytes {
  type byte = n: int | 0 <= n < 256

  type Hash = s: seq<byte> | |s| == 32 witness seq(32, _ => 0)

  const U32_LIMIT := 0x1_0000_0000

  type u32 = n: int | 0 <= n < U32_LIMIT

  const ZERO_HASH: Hash := [0, 0, 0, 0, 0, 0, 0, 0, 0, 0, 0, 0, 0, 0, 0, 0,
                             0, 0, 0, 0, 0, 0, 0, 0, 0, 0, 0, 0, 0, 0, 0, 0]

  function Pow256(k: nat): (r: nat)
    ensures r > 0
  {
    if k == 0 then 1 else 256 * Pow256(k - 1)
  }

  /** `(n as uN).to_le_bytes()`: the low `width` bytes, least significant first. */
  function LittleEndian(n: nat, width: nat): (r: seq<byte>)
    ensures |r| == width
  {
    if width == 0 then [] else [n % 256] + LittleEndian(n / 256, width - 1)
  }

  /** Byte `i` is the digit of weight 256^i. */
  lemma {:induction false} LittleEndianAt(n: nat, width: nat, i: nat)
    requires i < width
    ensures LittleEndian(n, width)[i] == (n / Pow256(i)) % 256
  {
    if i > 0 {
      LittleEndianAt(n / 256, width - 1, i - 1);
      DivDiv(n, Pow256(i - 1));
    }
  }

  lemma OneByte(n: nat)
    ensures LittleEndian(n, 1) == [n % 256]
  {
    assert LittleEndian(n / 256, 0) == [];
  }

  lemma TwoBytesOf(n: nat)
    ensures LittleEndian(n, 2) == [n % 256, (n / 256) % 256]
  {
    OneByte(n / 256);
  }

  /** The low two bytes, also after a cast to sixteen bits. */
  lemma TwoBytes(n: nat)
    ensures LittleEndian(n, 2) == LittleEndian(n % 0x1_0000, 2) == [n % 256, (n / 256) % 256]
  {
    var low, high := n % 256, (n / 256) % 256;
    TwoBytesOf(n);
    TwoBytesOf(n % 0x1_0000);
    hide LittleEndian;
    SplitMod(n, 256);
    DivUnique(n % 0x1_0000, 256, high, low);
    DivUnique(high, 256, 0, high);
  }

  lemma DivDiv(n: nat, p: nat)
    requires p > 0
    ensures (n / 256) / p == n / (256 * p)
  {
    var q, r := (n / 256) / p, (n / 256) % p;
    assert n == 256 * (q * p + r) + n % 256;
    assert 256 * (q * p) == q * (256 * p);
    DivUnique(n, 256 * p, q, 256 * r + n % 256);
  }

  function FromLittleEndian(b: seq<byte>): (r: nat) {
    if b == [] then 0 else b[0] + 256 * FromLittleEndian(b[1..])
  }

  /** Two's complement of an i32, as `i32::to_le_bytes` writes it. */
  function SignedLittleEndian(n: int): (r: seq<byte>)
    ensures |r| == 4
  {
    LittleEndian(n % 0x1_0000_0000, 4)
  }

  lemma {:induction false} SplitMod(n: nat, m: nat)
    requires m > 0
    ensures n % (256 * m) == n % 256 + 256 * ((n / 256) % m)
  {
    var q, r := (n / 256) / m, (n / 256) % m;
    assert n / 256 == q * m + r;
    var rest := n % 256 + 256 * r;
    assert n == 256 * (q * m + r) + n % 256;
    assert 256 * (q * m) == q * (256 * m);
    assert n == q * (256 * m) + rest;
    assert 0 <= rest < 256 * m;
    DivUnique(n, 256 * m, q, rest);
  }

  lemma AtLeastOne(k: int, d: int)
    requires k >= 1 && d > 0
    ensures k * d >= d
  {
  }

  lemma Negate(k: int, d: int)
    ensures (-k) * d == -(k * d)
  {
  }

  lemma DivUnique(n: int, d: int, q: int, r: int)
    requires d > 0 && n == q * d + r && 0 <= r < d
    ensures n / d == q && n % d == r
  {
    var q', r' := n / d, n % d;
    assert n == q' * d + r' && 0 <= r' < d;
    assert (q - q') * d == r' - r;
    if q > q' {
      AtLeastOne(q - q', d);
    } else if q < q' {
      Negate(q - q', d);
      AtLeastOne(q' - q, d);
    }
  }

  /** Writing and reading back keeps exactly the low `width` bytes. */
  lemma {:induction false} LittleEndianRoundTrip(n: nat, width: nat)
    ensures FromLittleEndian(LittleEndian(n, width)) == n % Pow256(width)
  {
    if width > 0 {
      var b := LittleEndian(n, width);
      assert b[1..] == LittleEndian(n / 256, width - 1);
      LittleEndianRoundTrip(n / 256, width - 1);
      SplitMod(n, Pow256(width - 1));
    }
  }

  lemma {:induction false} FromLittleEndianBound(b: seq<byte>)
    ensures FromLittleEndian(b) < Pow256(|b|)
  {
    if b != [] {
      FromLittleEndianBound(b[1..]);
    }
  }

  lemma Widths()
    ensures Pow256(1) == 0x100 && Pow256(2) == 0x1_0000 && Pow256(4) == 0x1_0000_0000
  {
    assert Pow256(0) == 1 && Pow256(1) == 0x100 && Pow256(2) == 0x1_0000 && Pow256(3) == 0x100_0000;
  }

  /** The widths in use: one, two and four bytes. */
  lemma FieldRoundTrip(n: nat)
    ensures FromLittleEndian(LittleEndian(n, 1)) == n % 0x100
    ensures FromLittleEndian(LittleEndian(n, 2)) == n % 0x1_0000
    ensures FromLittleEndian(LittleEndian(n, 4)) == n % 0x1_0000_0000
  {
    Widths();
    LittleEndianRoundTrip(n, 1);
    LittleEndianRoundTrip(n, 2);
    LittleEndianRoundTrip(n, 4);
  }
}
