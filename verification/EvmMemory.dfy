/** Byte-addressed EVM memory with 256-bit big-endian words, as the assembly of
    contracts/dependencies/Base64.sol uses it. */
module EvmMemory {
  import opened Arithmetic

  type byte = x: int | 0 <= x < 256

  /** Two to the power 256: words are taken modulo this number. */
  const WORD: nat := 0x1_0000_0000_0000_0000_0000_0000_0000_0000_0000_0000_0000_0000_0000_0000_0000_0000

  /** The number that a big-endian byte string stands for. */
  function WordOf(b: seq<byte>): nat {
    if b == [] then 0 else 256 * WordOf(b[..|b| - 1]) + b[|b| - 1]
  }

  /** The low `n` bytes of `w`, most significant first. */
  function BytesOf(w: nat, n: nat): (b: seq<byte>)
    ensures |b| == n
  {
    if n == 0 then [] else BytesOf(w / 256, n - 1) + [w % 256]
  }

  /** `mload(p)`. */
  function Mload(m: seq<byte>, p: nat): nat
    requires p + 32 <= |m|
  {
    WordOf(m[p..p + 32])
  }

  /** `x` followed by `n` zero bytes. */
  function Shifted(x: nat, n: nat): nat {
    if n == 0 then x else 256 * Shifted(x, n - 1)
  }

  /** `shl(8 * n, w)`: a shift by whole bytes, dropping what leaves the word. */
  function ShlBytes(n: nat, w: nat): nat {
    Shifted(w, n) % WORD
  }

  /** `add(v, w)`. */
  function Add(v: nat, w: nat): nat {
    (v + w) % WORD
  }

  /** `mstore(p, w)`. */
  method Mstore(mem: array<byte>, p: nat, w: nat)
    requires p + 32 <= mem.Length
    modifies mem
    ensures forall k :: p <= k < p + 32 ==> mem[k] == BytesOf(w, 32)[k - p]
    ensures forall k :: 0 <= k < mem.Length && !(p <= k < p + 32) ==> mem[k] == old(mem[k])
  {
    var b := BytesOf(w, 32);
    for i := 0 to 32
      invariant forall k :: p <= k < p + i ==> mem[k] == b[k - p]
      invariant forall k :: 0 <= k < mem.Length && !(p <= k < p + i) ==> mem[k] == old(mem[k])
    {
      mem[p + i] := b[i];
    }
  }

  /** Loading undoes storing, for numbers that fit. */
  lemma {:induction false} WordOfBytes(w: nat, n: nat)
    requires w < Shifted(1, n)
    ensures WordOf(BytesOf(w, n)) == w
  {
    if n > 0 {
      WordOfBytes(w / 256, n - 1);
      assert BytesOf(w, n)[..n - 1] == BytesOf(w / 256, n - 1);
    }
  }

  /** Only the last byte of a loaded word survives a mask with 0xFF. */
  lemma LastByte(b: seq<byte>)
    requires b != []
    ensures WordOf(b) % 256 == b[|b| - 1]
  {
  }

  /** Three bytes read as one 24-bit number. */
  function Triple(b0: int, b1: int, b2: int): int {
    65536 * b0 + 256 * b1 + b2
  }

  /** Only the last three bytes of a loaded word survive a mask with 0xffffff. */
  lemma LastThreeBytes(b: seq<byte>)
    requires |b| >= 3
    ensures WordOf(b) % 0x100_0000 == Triple(b[|b| - 3], b[|b| - 2], b[|b| - 1])
  {
    var n := |b|;
    var b1, b2 := b[..n - 1], b[..n - 2];
    assert b1[..n - 2] == b2 && b2[..n - 3] == b[..n - 3];
    assert WordOf(b1) == 256 * WordOf(b2) + b[n - 2];
    assert WordOf(b2) == 256 * WordOf(b[..n - 3]) + b[n - 3];
    hide WordOf;
    DivMod(WordOf(b), 0x100_0000, WordOf(b[..n - 3]), Triple(b[n - 3], b[n - 2], b[n - 1]));
  }

  /** A number shifted left by whole bytes is stored as its own bytes followed by zero bytes. */
  lemma {:induction false} ShiftedBytes(x: nat, n: nat, j: nat)
    ensures BytesOf(Shifted(x, j), n + j) == BytesOf(x, n) + seq(j, _ => 0)
  {
    if j > 0 {
      ShiftedBytes(x, n, j - 1);
      assert Shifted(x, j) / 256 == Shifted(x, j - 1);
    }
  }

  /** After a shift by `n` bytes only the last `32 - n` bytes of the operand remain. */
  lemma ShlDrops(x: nat, high: nat, low: nat, n: nat, size: nat)
    requires x == high * size + low && Shifted(size, n) == WORD && low < size
    ensures ShlBytes(n, x) == Shifted(low, n)
  {
    ShiftedLinear(high * size, low, n);
    ShiftedScale(high, size, n);
    ShiftedBound(low, size, n);
    assert high * WORD + Shifted(low, n) == Shifted(x, n);
    DivMod(Shifted(x, n), WORD, high, Shifted(low, n));
  }

  lemma {:induction false} ShiftedLinear(x: nat, y: nat, n: nat)
    ensures Shifted(x + y, n) == Shifted(x, n) + Shifted(y, n)
  {
    if n > 0 {
      ShiftedLinear(x, y, n - 1);
    }
  }

  lemma {:induction false} ShiftedScale(c: nat, x: nat, n: nat)
    ensures Shifted(c * x, n) == c * Shifted(x, n)
  {
    if n > 0 {
      ShiftedScale(c, x, n - 1);
      assert c * (256 * Shifted(x, n - 1)) == 256 * (c * Shifted(x, n - 1));
    }
  }

  lemma {:induction false} ShiftedBound(x: nat, y: nat, n: nat)
    requires x < y
    ensures Shifted(x, n) < Shifted(y, n)
  {
    if n > 0 {
      ShiftedBound(x, y, n - 1);
    }
  }
}
