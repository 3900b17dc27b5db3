/** The base 64 encoding of section 4 of RFC 4648, stated bit by bit, and a decoder
    that works quad by quad. Bytes stand for ASCII characters. */
module Rfc4648 {
  import opened Arithmetic
  import opened EvmMemory
  import opened Wrappers

  const PAD: byte := 0x3d

  /** The character of Table 1 of RFC 4648 for a 6-bit value. */
  function Alphabet(v: nat): byte
    requires v < 64
  {
    if v < 26 then 65 + v else if v < 52 then 71 + v else if v < 62 then v - 4 else if v == 62 then 43 else 47
  }

  /** The 6-bit value of a character of Table 1, if it is in the table. */
  function Value(c: byte): (v: Option<nat>)
    ensures v.Some? ==> v.value < 64
  {
    if 65 <= c <= 90 then Some(c - 65)
    else if 97 <= c <= 122 then Some(c - 71)
    else if 48 <= c <= 57 then Some(c + 4)
    else if c == 43 then Some(62)
    else if c == 47 then Some(63)
    else None
  }

  /** The low `n` bits of `x`, most significant first. */
  function BitsOf(x: nat, n: nat): (b: seq<int>)
    ensures |b| == n && forall i :: 0 <= i < n ==> 0 <= b[i] < 2
  {
    if n == 0 then [] else BitsOf(x / 2, n - 1) + [x % 2]
  }

  /** The number that a bit string stands for. */
  function NumberOf(b: seq<int>): int {
    if b == [] then 0 else 2 * NumberOf(b[..|b| - 1]) + b[|b| - 1]
  }

  function Pow2(n: nat): (p: nat)
    ensures p > 0
  {
    if n == 0 then 1 else 2 * Pow2(n - 1)
  }

  /** Bit `j` of a byte string read from left to right; zero bits follow the string. */
  function Bit(b: seq<byte>, j: nat): (v: int)
    ensures 0 <= v < 2
  {
    if j / 8 < |b| then BitsOf(b[j / 8], 8)[j % 8] else 0
  }

  function SixBits(b: seq<byte>, k: nat): seq<int> {
    seq(6, i requires 0 <= i => Bit(b, 6 * k + i))
  }

  lemma {:induction false} NumberBound(b: seq<int>)
    requires forall i :: 0 <= i < |b| ==> 0 <= b[i] < 2
    ensures 0 <= NumberOf(b) < Pow2(|b|)
  {
    if b != [] {
      NumberBound(b[..|b| - 1]);
    }
  }

  lemma SextetBound(b: seq<byte>, k: nat)
    ensures 0 <= NumberOf(SixBits(b, k)) < 64
  {
    forall i | 0 <= i < 6 ensures 0 <= SixBits(b, k)[i] < 2 {
      assert SixBits(b, k)[i] == Bit(b, 6 * k + i);
    }
    NumberBound(SixBits(b, k));
    assert Pow2(6) == 64;
  }

  /** The `k`-th group of six bits of a byte string, as a number. */
  function Sextet(b: seq<byte>, k: nat): (v: nat)
    ensures v < 64
  {
    SextetBound(b, k);
    NumberOf(SixBits(b, k))
  }

  /** The number of characters that carry bits of an `n`-byte string. */
  function Significant(n: nat): nat {
    (8 * n + 5) / 6
  }

  /** The length of the padded encoding of `n` bytes: four characters per started group of three. */
  function EncodedLength(n: nat): nat {
    4 * ((n + 2) / 3)
  }

  /** The encoding whose six-bit groups are those of `bits`, padded as for an `n`-byte string. */
  function EncodeBits(bits: seq<byte>, n: nat): (s: seq<byte>)
    ensures |s| == EncodedLength(n)
  {
    seq(EncodedLength(n), k requires 0 <= k => if k < Significant(n) then Alphabet(Sextet(bits, k)) else PAD)
  }

  /** The encoding of section 4, with the zero pad bits of section 3.5. */
  function Encode(data: seq<byte>): seq<byte> {
    EncodeBits(data, |data|)
  }

  /** Decodes four characters of which the last `pads` are padding. */
  function DecodeQuad(q: seq<byte>, pads: nat): Option<seq<byte>>
    requires |q| == 4 && pads <= 2
  {
    var third := if pads >= 2 then Some(0) else Value(q[2]);
    var fourth := if pads >= 1 then Some(0) else Value(q[3]);
    match (Value(q[0]), Value(q[1]), third, fourth)
    case (Some(v0), Some(v1), Some(v2), Some(v3)) =>
      if pads == 2 then Some([4 * v0 + v1 / 16])
      else if pads == 1 then Some([4 * v0 + v1 / 16, v1 % 16 * 16 + v2 / 4])
      else Some([4 * v0 + v1 / 16, v1 % 16 * 16 + v2 / 4, v2 % 4 * 64 + v3])
    case _ => None
  }

  function Pads(q: seq<byte>): nat
    requires |q| == 4
  {
    if q[3] != PAD then 0 else if q[2] != PAD then 1 else 2
  }

  /** A decoder that rejects characters outside the alphabet and ignores the pad bits. */
  function Decode(s: seq<byte>): Option<seq<byte>> {
    if |s| == 0 then Some([])
    else if |s| < 4 then None
    else if |s| == 4 then DecodeQuad(s, Pads(s))
    else match (DecodeQuad(s[..4], 0), Decode(s[4..]))
      case (Some(b), Some(rest)) => Some(b + rest)
      case _ => None
  }

  lemma ValueInverts(v: nat)
    requires v < 64
    ensures Value(Alphabet(v)) == Some(v) && Alphabet(v) != PAD
  {
  }

  lemma {:induction false} BitsNumber(x: nat, m: nat)
    ensures NumberOf(BitsOf(x, m)) == x % Pow2(m)
  {
    if m > 0 {
      var h := x / 2;
      BitsNumber(h, m - 1);
      var bits := BitsOf(x, m);
      assert bits[..m - 1] == BitsOf(h, m - 1);
      HalveThenDiv(x, Pow2(m - 1));
    }
  }

  lemma {:induction false} BitsTail(x: nat, n: nat, m: nat)
    ensures BitsOf(x, n + m)[n..] == BitsOf(x, m)
  {
    if m > 0 {
      BitsTail(x / 2, n, m - 1);
      assert BitsOf(x, n + m) == BitsOf(x / 2, n + (m - 1)) + [x % 2];
    }
  }

  lemma {:induction false} BitsHead(x: nat, n: nat, m: nat)
    ensures BitsOf(x, n + m)[..n] == BitsOf(x / Pow2(m), n)
  {
    if m == 0 {
      assert x / 1 == x;
    } else {
      BitsHead(x / 2, n, m - 1);
      assert BitsOf(x, n + m) == BitsOf(x / 2, n + (m - 1)) + [x % 2];
      HalveThenDiv(x, Pow2(m - 1));
    }
  }

  lemma {:induction false} NumberConcat(a: seq<int>, b: seq<int>)
    ensures NumberOf(a + b) == NumberOf(a) * Pow2(|b|) + NumberOf(b)
  {
    if b == [] {
      assert a + b == a;
    } else {
      var c := b[..|b| - 1];
      assert (a + b)[..|a + b| - 1] == a + c;
      NumberConcat(a, c);
      assert NumberOf(a) * (2 * Pow2(|c|)) == 2 * (NumberOf(a) * Pow2(|c|));
    }
  }

  lemma BitAt(b: seq<byte>, p: nat, i: nat)
    requires p < |b| && i < 8
    ensures Bit(b, 8 * p + i) == BitsOf(b[p], 8)[i]
  {
    assert (8 * p + i) / 8 == p && (8 * p + i) % 8 == i;
  }

  lemma LowNumber(x: byte, m: nat)
    requires m <= 8
    ensures NumberOf(BitsOf(x, 8)[8 - m..]) == x % Pow2(m)
  {
    hide Pow2, BitsOf, NumberOf;
    BitsTail(x, 8 - m, m);
    BitsNumber(x, m);
  }

  lemma HighNumber(x: byte, m: nat, k: nat)
    requires m + k == 8
    ensures NumberOf(BitsOf(x, 8)[..m]) == x / Pow2(k) % Pow2(m)
  {
    hide Pow2, BitsOf, NumberOf;
    var q: nat := x / Pow2(k);
    BitsHead(x, m, k);
    BitsNumber(q, m);
  }

  /** Six consecutive bits are the last `6 - m` of byte `p`, then the first `m` of byte `p + 1`. */
  lemma SixBitsOfBytes(b: seq<byte>, k: nat, p: nat, m: nat)
    requires m <= 6 && p + 1 < |b| && 6 * k == 8 * p + 2 + m
    ensures SixBits(b, k) == BitsOf(b[p], 8)[2 + m..] + BitsOf(b[p + 1], 8)[..m]
  {
    forall i: nat | i < 6
      ensures SixBits(b, k)[i] == (BitsOf(b[p], 8)[2 + m..] + BitsOf(b[p + 1], 8)[..m])[i]
    {
      if i < 6 - m {
        BitAt(b, p, 2 + m + i);
        assert 6 * k + i == 8 * p + (2 + m + i);
      } else {
        BitAt(b, p + 1, i - (6 - m));
        assert 6 * k + i == 8 * (p + 1) + (i - (6 - m));
      }
    }
  }

  lemma FirstSextet(b: seq<byte>, g: nat)
    requires 3 * g < |b|
    ensures Sextet(b, 4 * g) == b[3 * g] / 4
  {
    hide Bit, BitsOf, NumberOf;
    var x := b[3 * g];
    HighNumber(x, 6, 2);
    forall i: nat | i < 6 ensures SixBits(b, 4 * g)[i] == BitsOf(x, 8)[i] {
      BitAt(b, 3 * g, i);
      assert 6 * (4 * g) + i == 8 * (3 * g) + i;
    }
    assert SixBits(b, 4 * g) == BitsOf(x, 8)[..6];
    assert Pow2(2) == 4 && Pow2(6) == 64;
  }

  lemma SecondSextet(b: seq<byte>, g: nat)
    requires 3 * g + 1 < |b|
    ensures Sextet(b, 4 * g + 1) == b[3 * g] % 4 * 16 + b[3 * g + 1] / 16
  {
    hide Bit, BitsOf, NumberOf, SixBits;
    var x, y := b[3 * g], b[3 * g + 1];
    SixBitsOfBytes(b, 4 * g + 1, 3 * g, 4);
    NumberConcat(BitsOf(x, 8)[6..], BitsOf(y, 8)[..4]);
    LowNumber(x, 2);
    HighNumber(y, 4, 4);
    assert Pow2(2) == 4 && Pow2(4) == 16;
  }

  lemma ThirdSextet(b: seq<byte>, g: nat)
    requires 3 * g + 2 < |b|
    ensures Sextet(b, 4 * g + 2) == b[3 * g + 1] % 16 * 4 + b[3 * g + 2] / 64
  {
    hide Bit, BitsOf, NumberOf, SixBits;
    var y, z := b[3 * g + 1], b[3 * g + 2];
    SixBitsOfBytes(b, 4 * g + 2, 3 * g + 1, 2);
    NumberConcat(BitsOf(y, 8)[4..], BitsOf(z, 8)[..2]);
    LowNumber(y, 4);
    HighNumber(z, 2, 6);
    assert Pow2(2) == 4 && Pow2(4) == 16 && Pow2(6) == 64;
  }

  lemma FourthSextet(b: seq<byte>, g: nat)
    requires 3 * g + 2 < |b|
    ensures Sextet(b, 4 * g + 3) == b[3 * g + 2] % 64
  {
    var z := b[3 * g + 2];
    LowNumber(z, 6);
    forall i: nat | i < 6 ensures SixBits(b, 4 * g + 3)[i] == BitsOf(z, 8)[2..][i] {
      BitAt(b, 3 * g + 2, 2 + i);
    }
    assert SixBits(b, 4 * g + 3) == BitsOf(z, 8)[2..];
    assert Pow2(6) == 64;
  }

  lemma GroupSextets(b: seq<byte>, g: nat)
    requires 3 * g + 2 < |b|
    ensures Sextet(b, 4 * g) == b[3 * g] / 4
    ensures Sextet(b, 4 * g + 1) == b[3 * g] % 4 * 16 + b[3 * g + 1] / 16
    ensures Sextet(b, 4 * g + 2) == b[3 * g + 1] % 16 * 4 + b[3 * g + 2] / 64
    ensures Sextet(b, 4 * g + 3) == b[3 * g + 2] % 64
  {
    hide Sextet;
    FirstSextet(b, g);
    SecondSextet(b, g);
    ThirdSextet(b, g);
    FourthSextet(b, g);
  }

  lemma BitShift(b: seq<byte>, j: nat)
    requires 3 <= |b|
    ensures Bit(b, j + 24) == Bit(b[3..], j)
  {
    var p := j / 8;
    assert (j + 24) / 8 == p + 3 && (j + 24) % 8 == j % 8;
    if p + 3 < |b| {
      assert b[3..][p] == b[p + 3];
    }
  }

  /** Six-bit groups are read off the rest of the string once whole three-byte groups are dropped. */
  lemma SextetShift(b: seq<byte>, k: nat)
    requires 3 <= |b|
    ensures Sextet(b, k + 4) == Sextet(b[3..], k)
  {
    forall i: nat | i < 6 ensures SixBits(b, k + 4)[i] == SixBits(b[3..], k)[i] {
      BitShift(b, 6 * k + i);
      assert 6 * (k + 4) + i == 6 * k + i + 24;
    }
    assert SixBits(b, k + 4) == SixBits(b[3..], k);
  }

  /** A quad that encodes three bytes decodes to as many of them as the padding leaves. */
  lemma DecodeGroup(x: byte, y: byte, z: byte, q: seq<byte>, pads: nat)
    requires |q| == 4 && pads <= 2
    requires q[0] == Alphabet(x / 4) && q[1] == Alphabet(x % 4 * 16 + y / 16)
    requires pads < 2 ==> q[2] == Alphabet(y % 16 * 4 + z / 64)
    requires pads < 1 ==> q[3] == Alphabet(z % 64)
    ensures DecodeQuad(q, pads) == Some([x, y, z][..3 - pads])
  {
    ValueInverts(x / 4);
    ValueInverts(x % 4 * 16 + y / 16);
    ValueInverts(y % 16 * 4 + z / 64);
    ValueInverts(z % 64);
    hide Value, Alphabet;
    DivMod(x % 4 * 16 + y / 16, 16, x % 4, y / 16);
    DivMod(y % 16 * 4 + z / 64, 4, y % 16, z / 64);
    if pads == 2 {
      assert [x, y, z][..1] == [x];
    } else if pads == 1 {
      assert [x, y, z][..2] == [x, y];
    } else {
      assert [x, y, z][..3] == [x, y, z];
    }
  }

  lemma EncodeBitsStep(bits: seq<byte>, n: nat)
    requires 3 < n <= |bits|
    ensures EncodeBits(bits, n)[4..] == EncodeBits(bits[3..], n - 3)
  {
    forall k | 0 <= k < EncodedLength(n - 3) ensures EncodeBits(bits, n)[4..][k] == EncodeBits(bits[3..], n - 3)[k] {
      SextetShift(bits, k);
      assert Significant(n) == Significant(n - 3) + 4;
    }
  }

  lemma LastPads(bits: seq<byte>, n: nat)
    requires 0 < n <= 3
    ensures |EncodeBits(bits, n)| == 4 && Pads(EncodeBits(bits, n)) == 3 - n
  {
    hide Sextet;
    ValueInverts(Sextet(bits, 2));
    ValueInverts(Sextet(bits, 3));
    hide Alphabet;
    assert Significant(1) == 2 && Significant(2) == 3 && Significant(3) == 4;
  }

  /** The first quad of an encoding decodes to the first bytes. */
  lemma DecodeFirstQuad(bits: seq<byte>, n: nat)
    requires 3 <= |bits| && 0 < n
    ensures 4 <= |EncodeBits(bits, n)|
    ensures DecodeQuad(EncodeBits(bits, n)[..4], if n < 3 then 3 - n else 0) == Some(bits[..if n < 3 then n else 3])
  {
    hide Alphabet, Sextet, DecodeQuad;
    GroupSextets(bits, 0);
    var q := EncodeBits(bits, n)[..4];
    assert Significant(1) == 2 && Significant(2) == 3 && (n >= 3 ==> Significant(n) >= 4);
    var m := if n < 3 then n else 3;
    assert [bits[0], bits[1], bits[2]][..m] == bits[..m];
    DecodeGroup(bits[0], bits[1], bits[2], q, 3 - m);
  }

  /**
   * The decoder recovers the data from an encoding whatever the pad bits are: `bits` may
   * continue the data with any two bytes.
   */
  lemma {:induction false} DecodeEncodeBits(data: seq<byte>, t0: byte, t1: byte)
    ensures Decode(EncodeBits(data + [t0, t1], |data|)) == Some(data)
    decreases |data|
  {
    hide DecodeQuad, Pads;
    var n, bits := |data|, data + [t0, t1];
    var s := EncodeBits(bits, n);
    if n > 0 {
      DecodeFirstQuad(bits, n);
      if n <= 3 {
        LastPads(bits, n);
        assert s[..4] == s && bits[..n] == data;
      } else {
        EncodeBitsStep(bits, n);
        assert bits[3..] == data[3..] + [t0, t1];
        DecodeEncodeBits(data[3..], t0, t1);
        assert data == bits[..3] + data[3..];
      }
    }
  }

  /** Zero bytes after the data change nothing: these are the zero pad bits. */
  lemma ZeroPadding(data: seq<byte>)
    ensures Encode(data) == EncodeBits(data + [0, 0], |data|)
  {
    forall k: nat ensures Sextet(data, k) == Sextet(data + [0, 0], k) {
      forall i: nat | i < 6 ensures SixBits(data, k)[i] == SixBits(data + [0, 0], k)[i] {
        ZeroPaddingBit(data, 6 * k + i);
      }
      assert SixBits(data, k) == SixBits(data + [0, 0], k);
    }
  }

  lemma ZeroPaddingBit(data: seq<byte>, j: nat)
    ensures Bit(data, j) == Bit(data + [0, 0], j)
  {
    ZeroBits(8);
    var p := j / 8;
    if p < |data| {
      assert (data + [0, 0])[p] == data[p];
    } else if p < |data| + 2 {
      assert (data + [0, 0])[p] == 0;
    }
  }

  lemma {:induction false} ZeroBits(n: nat)
    ensures BitsOf(0, n) == seq(n, _ => 0)
  {
    if n > 0 {
      ZeroBits(n - 1);
    }
  }
}
