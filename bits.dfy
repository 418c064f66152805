/** Machine words, bytes, binary strings and little-endian integers: the
    representations the record decoders and the PTU writer are built on. */
module Bits {

  /** One byte of a file or of an encoded integer. */
  type byte = b: int | 0 <= b < 256

  /** One raw TTTR record: an unsigned 32-bit word as delivered by the device. */
  type Word = w: int | 0 <= w < 0x1_0000_0000

  const WordModulus: nat := 0x1_0000_0000

  function Pow2(k: nat): (p: nat)
    ensures p >= 1
  {
    if k == 0 then 1 else 2 * Pow2(k - 1)
  }

  lemma {:induction false} Pow2Add(a: nat, b: nat)
    ensures Pow2(a + b) == Pow2(a) * Pow2(b)
  {
    if a > 0 {
      Pow2Add(a - 1, b);
    }
  }

  /** The powers of two that delimit the fields of a TTTR record. */
  lemma Pow2Constants()
    ensures Pow2(0) == 1 && Pow2(1) == 2 && Pow2(6) == 64
    ensures Pow2(10) == 0x400 && Pow2(15) == 0x8000 && Pow2(25) == 0x200_0000
    ensures Pow2(31) == 0x8000_0000 && Pow2(32) == 0x1_0000_0000
  {
    assert Pow2(3) == 8;
    assert Pow2(6) == 64 by { Pow2Add(3, 3); }
    assert Pow2(10) == 0x400 by { Pow2Add(6, 4); }
    assert Pow2(15) == 0x8000 by { Pow2Add(10, 5); }
    assert Pow2(25) == 0x200_0000 by { Pow2Add(15, 10); }
    assert Pow2(31) == 0x8000_0000 by { Pow2Add(25, 6); }
  }

  function Pow256(n: nat): (p: nat)
    ensures p >= 1
  {
    if n == 0 then 1 else 256 * Pow256(n - 1)
  }

  lemma MulAtLeast(k: int, d: int)
    ensures k >= 1 && d >= 0 ==> k * d >= d
    ensures k <= -1 && d >= 0 ==> k * d <= -d
  {
  }

  /** Euclidean division is determined by its quotient and remainder bounds. */
  lemma DivModUnique(x: nat, d: nat, q: nat, r: nat)
    requires d >= 1 && x == d * q + r && r < d
    ensures x / d == q && x % d == r
  {
    var q', r' := x / d, x % d;
    assert d * (q' - q) == r - r';
    MulAtLeast(q' - q, d);
  }

  /** Splitting a number at bit 1 and at bit 1 + log2(p). */
  lemma HalveDivMod(x: nat, p: nat)
    requires p >= 1
    ensures (x / 2) / p == x / (2 * p)
    ensures (x % (2 * p)) / 2 == (x / 2) % p
    ensures (x % (2 * p)) % 2 == x % 2
  {
    var q, r := x / (2 * p), x % (2 * p);
    assert x == (2 * p) * q + r;
    var r1, r0 := r / 2, r % 2;
    assert r == 2 * r1 + r0;
    assert r1 < p;
    var h := p * q + r1;
    assert x == 2 * h + r0 by {
      assert (2 * p) * q == 2 * (p * q);
    }
    DivModUnique(x, 2, h, r0);
    DivModUnique(h, p, q, r1);
  }

  // ---------------------------------------------------------------------
  // Binary strings, as produced by "{0:0nb}".format(x) and read by int(s, base=2)
  // ---------------------------------------------------------------------

  /** The n low bits of x as a string of '0'/'1' digits, most significant first. */
  function FormatBinary(x: nat, n: nat): (s: string)
    ensures |s| == n
    ensures forall k :: 0 <= k < n ==> s[k] in {'0', '1'}
  {
    if n == 0 then [] else FormatBinary(x / 2, n - 1) + [if x % 2 == 1 then '1' else '0']
  }

  /** The value of a string of binary digits; any digit other than '1' reads as 0. */
  function ParseBinary(s: string): nat
  {
    if s == [] then 0 else 2 * ParseBinary(s[..|s| - 1]) + (if s[|s| - 1] == '1' then 1 else 0)
  }

  lemma {:induction false} ParseFormatBinary(x: nat, n: nat)
    ensures ParseBinary(FormatBinary(x, n)) == x % Pow2(n)
  {
    if n > 0 {
      var s := FormatBinary(x, n);
      assert s[..n - 1] == FormatBinary(x / 2, n - 1);
      ParseFormatBinary(x / 2, n - 1);
      HalveDivMod(x, Pow2(n - 1));
      var y := x % Pow2(n);
      assert y == 2 * (y / 2) + y % 2;
    }
  }

  /** The first j digits of an n-digit string are the j-digit string of the high bits. */
  lemma {:induction false} FormatBinaryPrefix(x: nat, n: nat, j: nat)
    requires j <= n
    ensures FormatBinary(x, n)[..j] == FormatBinary(x / Pow2(n - j), j)
    decreases n - j
  {
    if j < n {
      assert FormatBinary(x, n)[..j] == FormatBinary(x / 2, n - 1)[..j];
      FormatBinaryPrefix(x / 2, n - 1, j);
      HalveDivMod(x, Pow2(n - 1 - j));
    }
  }

  /** The digits from i on of an n-digit string are the string of the low n - i bits. */
  lemma {:induction false} FormatBinarySuffix(x: nat, n: nat, i: nat)
    requires i <= n
    ensures FormatBinary(x, n)[i..] == FormatBinary(x % Pow2(n - i), n - i)
  {
    if i < n {
      assert FormatBinary(x, n)[i..] == FormatBinary(x / 2, n - 1)[i..] + [if x % 2 == 1 then '1' else '0'];
      FormatBinarySuffix(x / 2, n - 1, i);
      HalveDivMod(x, Pow2(n - 1 - i));
    }
  }

  /** Reading the digits i..j of the n-digit binary string of x gives the bit field
      of width j - i whose least significant bit is bit n - j of x. */
  lemma BinaryField(x: nat, n: nat, i: nat, j: nat)
    requires i <= j <= n
    ensures ParseBinary(FormatBinary(x, n)[i..j]) == (x / Pow2(n - j)) % Pow2(j - i)
  {
    var s := FormatBinary(x, n);
    var high := x / Pow2(n - j);
    var low := high % Pow2(j - i);
    assert s[i..j] == s[..j][i..];
    FormatBinaryPrefix(x, n, j);
    assert s[..j] == FormatBinary(high, j);
    FormatBinarySuffix(high, j, i);
    assert s[i..j] == FormatBinary(low, j - i);
    ParseFormatBinary(low, j - i);
    DivModUnique(low, Pow2(j - i), 0, low);
  }

  // ---------------------------------------------------------------------
  // Little-endian integers, as produced by int.to_bytes(n, byteorder='little')
  // ---------------------------------------------------------------------

  /** The n-byte little-endian encoding of an unsigned x; to_bytes fails when x does not fit. */
  function LittleEndian(x: nat, n: nat): (s: seq<byte>)
    requires x < Pow256(n)
    ensures |s| == n
  {
    if n == 0 then [] else [x % 256] + LittleEndian(x / 256, n - 1)
  }

  /** The unsigned value of a little-endian byte string. */
  function FromLittleEndian(s: seq<byte>): (x: nat)
    ensures x < Pow256(|s|)
  {
    if s == [] then 0 else s[0] + 256 * FromLittleEndian(s[1..])
  }

  lemma {:induction false} LittleEndianRoundTrip(x: nat, n: nat)
    requires x < Pow256(n)
    ensures FromLittleEndian(LittleEndian(x, n)) == x
  {
    if n > 0 {
      LittleEndianRoundTrip(x / 256, n - 1);
      assert LittleEndian(x, n)[1..] == LittleEndian(x / 256, n - 1);
    }
  }

  lemma {:induction false} FromLittleEndianRoundTrip(s: seq<byte>)
    ensures LittleEndian(FromLittleEndian(s), |s|) == s
  {
    if s != [] {
      FromLittleEndianRoundTrip(s[1..]);
      var x := FromLittleEndian(s);
      assert x % 256 == s[0] && x / 256 == FromLittleEndian(s[1..]);
    }
  }

  /** Two's-complement range of an n-byte signed integer. */
  predicate FitsSigned(x: int, n: nat)
  {
    -(Pow256(n) / 2) <= x < Pow256(n) / 2
  }

  /** The n-byte little-endian two's-complement encoding, as to_bytes(..., signed=True). */
  function SignedLittleEndian(x: int, n: nat): (s: seq<byte>)
    requires FitsSigned(x, n)
    ensures |s| == n
  {
    LittleEndian(if x < 0 then x + Pow256(n) else x, n)
  }

  /** The signed value of an n-byte little-endian two's-complement string. */
  function FromSignedLittleEndian(s: seq<byte>): (x: int)
    requires |s| > 0
    ensures FitsSigned(x, |s|)
  {
    var u := FromLittleEndian(s);
    if u >= Pow256(|s|) / 2 then u - Pow256(|s|) else u
  }

  lemma SignedLittleEndianRoundTrip(x: int, n: nat)
    requires FitsSigned(x, n)
    ensures FromSignedLittleEndian(SignedLittleEndian(x, n)) == x
  {
    LittleEndianRoundTrip(if x < 0 then x + Pow256(n) else x, n);
  }

  function Zeros(n: nat): (s: seq<byte>)
    ensures |s| == n && forall k :: 0 <= k < n ==> s[k] == 0
  {
    seq(n, _ => 0)
  }
}
