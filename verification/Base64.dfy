/** contracts/dependencies/Base64.sol: the word-level encoder. */
module Base64 {
  import opened Arithmetic
  import opened EvmMemory
  import opened Wrappers
  import Rfc4648

  const UPPER := "ABCDEFGHIJKLMNOPQRSTUVWXYZ"
  const LOWER := "abcdefghijklmnopqrstuvwxyz"
  const DIGITS := "0123456789"

  const TABLE: string := UPPER + LOWER + DIGITS + "+/"

  /** The library's table is the alphabet of Table 1 of RFC 4648. */
  lemma TableIsAlphabet(v: nat)
    requires v < 64
    ensures |TABLE| == 64 && TABLE[v] as int == Rfc4648.Alphabet(v)
  {
    hide UPPER, LOWER, DIGITS;
    LettersAndDigits(v);
  }

  lemma LettersAndDigits(v: nat)
    ensures |UPPER| == |LOWER| == 26 && |DIGITS| == 10
    ensures v < 26 ==> UPPER[v] as int == 65 + v
    ensures 26 <= v < 52 ==> LOWER[v - 26] as int == 71 + v
    ensures 52 <= v < 62 ==> DIGITS[v - 52] as int == v - 4
  {
  }

  /** Four bytes as one 32-bit number. */
  function Quad(c0: int, c1: int, c2: int, c3: int): int {
    0x100_0000 * c0 + 65536 * c1 + 256 * c2 + c3
  }

  /** The word that one turn of the loop stores, from the four words loaded from the table. */
  function OutWord(w0: nat, w1: nat, w2: nat, w3: nat): nat {
    var out := w0;
    var out := ShlBytes(1, out);
    var out := Add(out, w1 % 256);
    var out := ShlBytes(1, out);
    var out := Add(out, w2 % 256);
    var out := ShlBytes(1, out);
    var out := Add(out, w3 % 256);
    ShlBytes(28, out)
  }

  lemma BytesOfQuad(c0: byte, c1: byte, c2: byte, c3: byte)
    ensures BytesOf(Quad(c0, c1, c2, c3), 4) == [c0, c1, c2, c3]
  {
    var x: nat := Quad(c0, c1, c2, c3);
    var x1: nat := 65536 * (c0 as nat) + 256 * (c1 as nat) + c2;
    var x2: nat := 256 * (c0 as nat) + c1;
    assert x / 256 == x1 && x % 256 == c3;
    assert x1 / 256 == x2 && x1 % 256 == c2;
    assert x2 / 256 == c0 && x2 % 256 == c1;
    assert BytesOf(x, 4) == BytesOf(x1, 3) + [c3];
    assert BytesOf(x1, 3) == BytesOf(x2, 2) + [c2];
    assert BytesOf(x2, 2) == BytesOf(c0, 1) + [c1];
    assert BytesOf(c0, 1) == BytesOf(0, 0) + [c0];
  }

  /** The size of the part of a word that a shift by one byte keeps. */
  const KEPT: nat := 0x100_0000_0000_0000_0000_0000_0000_0000_0000_0000_0000_0000_0000_0000_0000_0000

  lemma ShiftByte(w: nat)
    ensures ShlBytes(1, w) == 256 * (w % KEPT) <= WORD - 256
  {
    var q, r := w / KEPT, w % KEPT;
    assert Shifted(w, 1) == WORD * q + 256 * r;
    DivMod(Shifted(w, 1), WORD, q, 256 * r);
  }

  /** Reducing a number modulo a multiple of `n` keeps its value modulo `n`. */
  lemma ReduceKeeps(w: nat, n: nat, k: nat, high: nat, low: nat) returns (h: nat)
    requires 0 < n && 0 < n * k && w == n * high + low && low < n
    ensures w % (n * k) == n * h + low
  {
    var t := k * (w / (n * k));
    DivEquation(w, n * k);
    assert n * k * (w / (n * k)) == n * t;
    assert n * (high - t) == n * high - n * t;
    if high < t {
      MulMonotone(n, high - t, -1);
    }
    h := high - t;
  }

  /** A word shifted by a byte, with a byte added, keeps its low part and appends the byte to it. */
  lemma Append(w: nat, c: byte, n: nat, k: nat, high: nat, low: nat) returns (h: nat)
    requires 0 < n && KEPT == n * k && w == n * high + low && low < n
    ensures Add(ShlBytes(1, w), c) == 256 * n * h + (256 * low + c)
  {
    h := ReduceKeeps(w, n, k, high, low);
    ShiftByte(w);
    assert 256 * (n * h) == 256 * n * h;
  }

  // What 2^8, 2^16 and 2^24 lack of 2^248.
  const K1: nat := 0x1_0000_0000_0000_0000_0000_0000_0000_0000_0000_0000_0000_0000_0000_0000_0000
  const K2: nat := 0x1_0000_0000_0000_0000_0000_0000_0000_0000_0000_0000_0000_0000_0000_0000_00
  const K3: nat := 0x1_0000_0000_0000_0000_0000_0000_0000_0000_0000_0000_0000_0000_0000_0000

  /** Whatever surrounds the four table bytes in the loaded words, the stored word starts with exactly those bytes. */
  lemma OutWordBytes(w0: nat, w1: nat, w2: nat, w3: nat)
    ensures BytesOf(OutWord(w0, w1, w2, w3), 32)
            == [w0 % 256, w1 % 256, w2 % 256, w3 % 256] + seq(28, _ => 0)
  {
    var l1 := 256 * (w0 % 256) + w1 % 256;
    var l2 := 256 * l1 + w2 % 256;
    var quad: nat := Quad(w0 % 256, w1 % 256, w2 % 256, w3 % 256);
    var o1 := Add(ShlBytes(1, w0), w1 % 256);
    var o2 := Add(ShlBytes(1, o1), w2 % 256);
    var o3 := Add(ShlBytes(1, o2), w3 % 256);
    var h1 := Append(w0, w1 % 256, 0x100, K1, w0 / 256, w0 % 256);
    var h2 := Append(o1, w2 % 256, 0x1_0000, K2, h1, l1);
    var h3 := Append(o2, w3 % 256, 0x100_0000, K3, h2, l2);
    assert o3 == h3 * 0x1_0000_0000 + quad;
    ShiftedWord();
    ShlDrops(o3, h3, quad, 28, 0x1_0000_0000);
    ShiftedBytes(quad, 4, 28);
    BytesOfQuad(w0 % 256, w1 % 256, w2 % 256, w3 % 256);
  }

  lemma {:induction false} ShiftedTwice(x: nat, m: nat, n: nat)
    ensures Shifted(Shifted(x, m), n) == Shifted(x, m + n)
  {
    if n > 0 {
      ShiftedTwice(x, m, n - 1);
    }
  }

  lemma ShiftedWord()
    ensures Shifted(0x1_0000_0000, 28) == WORD
  {
    var x8: nat := 0x1_0000_0000_0000_0000_0000_0000;
    assert Shifted(0x1_0000_0000, 8) == x8;
    assert Shifted(x8, 8) == 0x1_0000_0000_0000_0000_0000_0000_0000_0000_0000_0000;
    assert Shifted(0x1_0000_0000_0000_0000_0000_0000_0000_0000_0000_0000, 8)
        == 0x1_0000_0000_0000_0000_0000_0000_0000_0000_0000_0000_0000_0000_0000_0000;
    assert Shifted(0x1_0000_0000_0000_0000_0000_0000_0000_0000_0000_0000_0000_0000_0000_0000, 4) == WORD;
    ShiftedTwice(0x1_0000_0000, 8, 8);
    ShiftedTwice(0x1_0000_0000, 16, 8);
    ShiftedTwice(0x1_0000_0000, 24, 4);
  }

  /** The four 6-bit fields that the loop cuts out of 24 bits of input. */
  function Field(input: nat, q: nat): (v: nat)
    ensures v < 64
  {
    if q == 0 then input / 0x4_0000 % 64
    else if q == 1 then input / 0x1000 % 64
    else if q == 2 then input / 0x40 % 64
    else input % 64
  }

  lemma TripleFields(x: byte, y: byte, z: byte)
    ensures Field(Triple(x, y, z), 0) == x / 4
    ensures Field(Triple(x, y, z), 1) == x % 4 * 16 + y / 16
    ensures Field(Triple(x, y, z), 2) == y % 16 * 4 + z / 64
    ensures Field(Triple(x, y, z), 3) == z % 64
  {
    var t: nat := Triple(x, y, z);
    DivMod(t, 0x4_0000, x / 4, x % 4 * 65536 + 256 * (y as nat) + z);
    DivMod(t, 0x1000, 16 * (x as nat) + y / 16, y % 16 * 256 + z);
    DivMod(16 * (x as nat) + y / 16, 64, x / 4, x % 4 * 16 + y / 16);
    DivMod(t, 0x40, 1024 * (x as nat) + 4 * (y as nat) + z / 64, z % 64);
    DivMod(1024 * (x as nat) + 4 * (y as nat) + z / 64, 64, 16 * (x as nat) + y / 16, y % 16 * 4 + z / 64);
  }

  /** `tablePtr + 31` on: the characters of the table in memory. */
  predicate HoldsTable(m: seq<byte>, table: nat) {
    table + 96 <= |m| && forall v :: 0 <= v < 64 ==> m[table + 32 + v] == Rfc4648.Alphabet(v)
  }

  lemma TableKept(m: seq<byte>, m': seq<byte>, table: nat)
    requires HoldsTable(m, table) && |m'| == |m| && forall k :: table <= k < |m| ==> m'[k] == m[k]
    ensures HoldsTable(m', table)
  {
  }

  /** The last byte of the word loaded at `tablePtr + v` is the character for `v`. */
  lemma TableLoad(m: seq<byte>, table: nat, v: nat)
    requires HoldsTable(m, table) && v < 64
    ensures Mload(m, table + 1 + v) % 256 == Rfc4648.Alphabet(v)
  {
    LastByte(m[table + 1 + v..table + 33 + v]);
  }

  /** The last three bytes of the word loaded at `data + i` are the input group that ends at `i`. */
  lemma InputLoad(m: seq<byte>, data: nat, g: nat)
    requires data + 3 * g + 35 <= |m|
    ensures Mload(m, data + 3 * g + 3) % 0x100_0000
            == Triple(m[data + 32 + 3 * g], m[data + 33 + 3 * g], m[data + 34 + 3 * g])
  {
    LastThreeBytes(m[data + 3 * g + 3..data + 3 * g + 35]);
  }

  lemma PadWords()
    ensures BytesOf(ShlBytes(30, 0x3d3d), 32) == [0x3d, 0x3d] + seq(30, _ => 0)
    ensures BytesOf(ShlBytes(31, 0x3d), 32) == [0x3d] + seq(31, _ => 0)
  {
    ShiftedWord();
    assert Shifted(0x1_0000, 2) == 0x1_0000_0000 == Shifted(0x100, 3);
    ShiftedTwice(0x1_0000, 2, 28);
    ShiftedTwice(0x100, 3, 28);
    ShlDrops(0x3d3d, 0, 0x3d3d, 30, 0x1_0000);
    ShlDrops(0x3d, 0, 0x3d, 31, 0x100);
    ShiftedBytes(0x3d3d, 2, 30);
    ShiftedBytes(0x3d, 1, 31);
    assert BytesOf(0x3d3d, 2) == BytesOf(0x3d, 1) + [0x3d];
  }

  /** The characters of group `g` as the loop computes them, in terms of the six-bit groups of the input. */
  lemma GroupCharacters(m: seq<byte>, data: nat, table: nat, ext: seq<byte>, g: nat, q: nat)
    requires HoldsTable(m, table) && data + 32 + |ext| <= |m| && 3 * g + 2 < |ext| && q < 4
    requires ext == m[data + 32..data + 32 + |ext|]
    ensures var input := Mload(m, data + 3 * g + 3) % 0x100_0000;
            Mload(m, table + 1 + Field(input, q)) % 256 == Rfc4648.Alphabet(Rfc4648.Sextet(ext, 4 * g + q))
  {
    InputLoad(m, data, g);
    TripleFields(ext[3 * g], ext[3 * g + 1], ext[3 * g + 2]);
    Rfc4648.FirstSextet(ext, g);
    Rfc4648.SecondSextet(ext, g);
    Rfc4648.ThirdSextet(ext, g);
    Rfc4648.FourthSextet(ext, g);
    TableLoad(m, table, Field(Mload(m, data + 3 * g + 3) % 0x100_0000, q));
  }

  /** The word that the loop stores after `i := add(i, 3)`: four table loads put together. */
  function GroupWord(m: seq<byte>, data: nat, i: nat, table: nat): nat
    requires data + i + 32 <= |m| && table + 96 <= |m|
  {
    var input := Mload(m, data + i) % 0x100_0000;
    OutWord(Mload(m, table + 1 + Field(input, 0)), Mload(m, table + 1 + Field(input, 1)),
            Mload(m, table + 1 + Field(input, 2)), Mload(m, table + 1 + Field(input, 3)))
  }

  lemma GroupWordBytes(m: seq<byte>, data: nat, table: nat, ext: seq<byte>, g: nat)
    requires HoldsTable(m, table) && table + 96 <= |m| && data + 32 + |ext| <= |m| && 3 * g + 2 < |ext|
    requires ext == m[data + 32..data + 32 + |ext|]
    ensures BytesOf(GroupWord(m, data, 3 * g + 3, table), 32)[..4] == GroupOf(ext, g)
  {
    hide OutWord, Field, Mload, Rfc4648.Sextet, Rfc4648.Alphabet, HoldsTable;
    GroupCharacters(m, data, table, ext, g, 0);
    GroupCharacters(m, data, table, ext, g, 1);
    GroupCharacters(m, data, table, ext, g, 2);
    GroupCharacters(m, data, table, ext, g, 3);
    var input := Mload(m, data + 3 * g + 3) % 0x100_0000;
    OutWordBytes(Mload(m, table + 1 + Field(input, 0)), Mload(m, table + 1 + Field(input, 1)),
                 Mload(m, table + 1 + Field(input, 2)), Mload(m, table + 1 + Field(input, 3)));
  }

  /** The four characters of group `g`. */
  function GroupOf(ext: seq<byte>, g: nat): seq<byte> {
    [Rfc4648.Alphabet(Rfc4648.Sextet(ext, 4 * g)), Rfc4648.Alphabet(Rfc4648.Sextet(ext, 4 * g + 1)),
     Rfc4648.Alphabet(Rfc4648.Sextet(ext, 4 * g + 2)), Rfc4648.Alphabet(Rfc4648.Sextet(ext, 4 * g + 3))]
  }

  /** A store of 32 bytes right behind the finished groups appends its first four bytes to them. */
  lemma StoreAppends(before: seq<byte>, after: seq<byte>, from: nat, to: nat, word: seq<byte>)
    requires |before| == |after| && from <= to && to + 32 <= |after| && |word| == 32
    requires forall k :: 0 <= k < to ==> after[k] == before[k]
    requires forall k :: to <= k < to + 32 ==> after[k] == word[k - to]
    ensures after[from..to + 4] == before[from..to] + word[..4]
  {
  }

  /** One turn of the loop: the store of a group word extends the characters from `from` by those of the group. */
  lemma GroupStored(m: seq<byte>, m': seq<byte>, data: nat, table: nat, ext: seq<byte>, g: nat, from: nat, to: nat)
    requires HoldsTable(m, table) && table + 96 <= |m| && data + 32 + |ext| <= |m| && 3 * g + 2 < |ext|
    requires ext == m[data + 32..data + 32 + |ext|]
    requires |m| == |m'| && from <= to && to + 32 <= |m| && m[from..to] == Characters(ext, 4 * g)
    requires forall k :: 0 <= k < to ==> m'[k] == m[k]
    requires forall k :: to <= k < to + 32 ==> m'[k] == BytesOf(GroupWord(m, data, 3 * g + 3, table), 32)[k - to]
    ensures m'[from..to + 4] == Characters(ext, 4 * (g + 1))
  {
    hide GroupWord, GroupOf, Characters, HoldsTable, BytesOf;
    GroupWordBytes(m, data, table, ext, g);
    CharactersGrow(ext, g);
    StoreAppends(m, m', from, to, BytesOf(GroupWord(m, data, 3 * g + 3, table), 32));
  }

  /** The assembly block. Memory past the `len` bytes of `data` is arbitrary; the last group reads up to two bytes of it. */
  method EncodeWords(mem: array<byte>, data: nat, len: nat, result: nat, table: nat, encodedLen: nat)
    requires 0 < len && encodedLen == 4 * ((len + 2) / 3)
    requires data + 32 + len <= result && result + 64 + encodedLen <= table && table + 96 <= mem.Length
    requires HoldsTable(mem[..], table)
    modifies mem
    ensures forall k :: 0 <= k < mem.Length && !(result <= k < result + 64 + encodedLen) ==> mem[k] == old(mem[k])
    ensures mem[result..result + 32] == BytesOf(encodedLen, 32)
    ensures mem[result + 32..result + 32 + encodedLen] == Rfc4648.EncodeBits(old(mem[data + 32..data + 34 + len]), len)
  {
    hide GroupWord, GroupOf, Characters, HoldsTable, Rfc4648.EncodeBits, BytesOf;
    ghost var initial := mem[..];
    ghost var ext := mem[data + 32..data + 34 + len];
    NoCharacters(ext);
    var i, resultPtr := 0, result + 32;
    ghost var g := 0;
    while i < len
      invariant i == 3 * g && i < len + 3 && resultPtr == result + 32 + 4 * g
      invariant forall k :: 0 <= k < mem.Length && !(result + 32 <= k < result + 64 + encodedLen) ==> mem[k] == old(mem[k])
      invariant mem[result + 32..resultPtr] == Characters(ext, 4 * g)
    {
      ghost var m := mem[..];
      TableKept(initial, m, table);
      i := i + 3;
      Mstore(mem, resultPtr, GroupWord(mem[..], data, i, table));
      GroupStored(m, mem[..], data, table, ext, g, result + 32, resultPtr);
      assert mem[result + 32..resultPtr + 4] == mem[..][result + 32..resultPtr + 4];
      resultPtr := resultPtr + 4;
      g := g + 1;
    }
    PadAndShrink(mem, len, result, resultPtr, encodedLen, ext);
  }

  /** The padding switch and the final store of the length word. */
  method PadAndShrink(mem: array<byte>, len: nat, result: nat, resultPtr: nat, encodedLen: nat, ghost ext: seq<byte>)
    requires 0 < len && encodedLen == Rfc4648.EncodedLength(len) && resultPtr == result + 32 + encodedLen
    requires resultPtr + 32 <= mem.Length && mem[result + 32..resultPtr] == Characters(ext, encodedLen)
    modifies mem
    ensures forall k :: 0 <= k < mem.Length && !(result <= k < resultPtr + 32) ==> mem[k] == old(mem[k])
    ensures mem[result..result + 32] == BytesOf(encodedLen, 32)
    ensures mem[result + 32..resultPtr] == Rfc4648.EncodeBits(ext, len)
  {
    hide Rfc4648.Sextet, Rfc4648.Alphabet, ShlBytes, BytesOf;
    PadWords();
    Padded(ext, len);
    ghost var p, chars := PadCount(len), mem[result + 32..resultPtr];
    if len % 3 == 1 {
      Mstore(mem, resultPtr - 2, ShlBytes(30, 0x3d3d));
    } else if len % 3 == 2 {
      Mstore(mem, resultPtr - 1, ShlBytes(31, 0x3d));
    }
    assert mem[result + 32..resultPtr - p] == chars[..encodedLen - p];
    assert mem[resultPtr - p..resultPtr] == seq(p, _ => Rfc4648.PAD);
    assert mem[result + 32..resultPtr] == mem[result + 32..resultPtr - p] + mem[resultPtr - p..resultPtr];
    Mstore(mem, result, encodedLen);
    assert mem[result + 32..resultPtr] == Rfc4648.EncodeBits(ext, len);
  }

  /** The first `n` characters of the unpadded encoding. */
  function Characters(ext: seq<byte>, n: nat): seq<byte> {
    seq(n, k requires 0 <= k => Rfc4648.Alphabet(Rfc4648.Sextet(ext, k)))
  }

  lemma NoCharacters(ext: seq<byte>)
    ensures Characters(ext, 0) == []
  {
  }

  lemma CharactersGrow(ext: seq<byte>, g: nat)
    ensures Characters(ext, 4 * (g + 1)) == Characters(ext, 4 * g) + GroupOf(ext, g)
  {
  }

  /** How many characters of the last group the padding replaces. */
  function PadCount(len: nat): nat {
    if len % 3 == 0 then 0 else 3 - len % 3
  }

  lemma Padded(ext: seq<byte>, len: nat)
    ensures var n := Rfc4648.EncodedLength(len);
            PadCount(len) <= n && Rfc4648.EncodeBits(ext, len)
            == Characters(ext, n)[..n - PadCount(len)] + seq(PadCount(len), _ => Rfc4648.PAD)
  {
    hide Rfc4648.Sextet, Rfc4648.Alphabet;
    var q, r := len / 3, len % 3;
    assert Rfc4648.EncodedLength(len) == if r == 0 then 4 * q else 4 * q + 4;
    assert Rfc4648.Significant(len) == if r == 0 then 4 * q else 4 * q + r + 1;
  }

  /** What the encoder returns for `data` when the two bytes `t0` and `t1` follow it in memory. */
  function Encoded(data: seq<byte>, t0: byte, t1: byte): seq<byte> {
    Rfc4648.EncodeBits(data + [t0, t1], |data|)
  }

  /** A decoder that ignores the pad bits recovers the input whatever memory holds after it. */
  lemma RoundTrip(data: seq<byte>, t0: byte, t1: byte)
    ensures Rfc4648.Decode(Encoded(data, t0, t1)) == Some(data)
  {
    Rfc4648.DecodeEncodeBits(data, t0, t1);
  }

  /** Different inputs never share an output, whatever memory holds after either of them. */
  lemma Injective(data: seq<byte>, t0: byte, t1: byte, data': seq<byte>, t0': byte, t1': byte)
    requires Encoded(data, t0, t1) == Encoded(data', t0', t1')
    ensures data == data'
  {
    RoundTrip(data, t0, t1);
    RoundTrip(data', t0', t1');
  }

  /** The byte after the data has no bits among the pad bits. */
  predicate ZeroPadBits(len: nat, t0: byte) {
    (len % 3 == 1 ==> t0 < 16) && (len % 3 == 2 ==> t0 < 64)
  }

  /** Every character but the last significant one is that of RFC 4648, whatever follows the data. */
  lemma SextetsAgree(data: seq<byte>, t0: byte, t1: byte, k: nat)
    requires k < Rfc4648.Significant(|data|)
    requires ZeroPadBits(|data|, t0) || |data| % 3 == 0 || k < Rfc4648.Significant(|data|) - 1
    ensures Rfc4648.Sextet(data + [t0, t1], k) == Rfc4648.Sextet(data + [0, 0], k)
  {
    hide Rfc4648.Sextet, Rfc4648.Significant, ZeroPadBits;
    var g, d, e := k / 4, data + [t0, t1], data + [0, 0];
    SignificantGroup(|data|, k, t0);
    assert d[3 * g] == e[3 * g];
    Rfc4648.GroupSextets(d, g);
    Rfc4648.GroupSextets(e, g);
    assert k == 4 * g || k == 4 * g + 1 || k == 4 * g + 2 || k == 4 * g + 3;
  }

  /** Where the bits of a significant character come from: whole groups of data, or the group that ends it. */
  lemma SignificantGroup(n: nat, k: nat, t0: byte)
    requires k < Rfc4648.Significant(n)
    requires ZeroPadBits(n, t0) || n % 3 == 0 || k < Rfc4648.Significant(n) - 1
    ensures var g := k / 4;
            || 3 * g + 2 < n
            || (n == 3 * g + 2 && k <= 4 * g + 2 && (t0 < 64 || k <= 4 * g + 1))
            || (n == 3 * g + 1 && k <= 4 * g + 1 && (t0 < 16 || k == 4 * g))
  {
    hide Rfc4648.Significant;
    SignificantIff(n, k);
    SignificantIff(n, k + 1);
    var g, j, q, r := k / 4, k % 4, n / 3, n % 3;
    assert k == 4 * g + j && n == 3 * q + r;
    assert 12 * g + 3 * j < 12 * q + 4 * r;
    assert g <= q;
  }

  /** A character is significant when its first bit is a bit of the data. */
  lemma SignificantIff(n: nat, k: nat)
    ensures k < Rfc4648.Significant(n) <==> 6 * k < 8 * n
  {
  }

  /** The last significant character differs when a pad bit is set. */
  lemma LastSextetDiffers(data: seq<byte>, t0: byte, t1: byte)
    requires !ZeroPadBits(|data|, t0)
    ensures var k := Rfc4648.Significant(|data|) - 1;
            k >= 0 && Rfc4648.Sextet(data + [t0, t1], k) != Rfc4648.Sextet(data + [0, 0], k)
  {
    hide Rfc4648.Sextet;
    var g := |data| / 3;
    Rfc4648.GroupSextets(data + [t0, t1], g);
    Rfc4648.GroupSextets(data + [0, 0], g);
    assert Rfc4648.Significant(|data|) == 4 * g + |data| % 3 + 1;
  }

  /**
   * The encoder returns the encoding of section 4 of RFC 4648 exactly when the byte that follows
   * the data sets no pad bit; the second byte that it reads never matters.
   */
  lemma MatchesRfcIff(data: seq<byte>, t0: byte, t1: byte)
    ensures Encoded(data, t0, t1) == Rfc4648.Encode(data) <==> ZeroPadBits(|data|, t0)
  {
    hide Rfc4648.Sextet;
    Rfc4648.ZeroPadding(data);
    var n := |data|;
    var s, s' := Encoded(data, t0, t1), Rfc4648.EncodeBits(data + [0, 0], n);
    if ZeroPadBits(n, t0) {
      forall k | 0 <= k < Rfc4648.EncodedLength(n) ensures s[k] == s'[k] {
        if k < Rfc4648.Significant(n) {
          SextetsAgree(data, t0, t1, k);
        }
      }
      assert s == s';
    } else {
      var k := Rfc4648.Significant(n) - 1;
      LastSextetDiffers(data, t0, t1);
      Rfc4648.ValueInverts(Rfc4648.Sextet(data + [t0, t1], k));
      Rfc4648.ValueInverts(Rfc4648.Sextet(data + [0, 0], k));
      assert s[k] != s'[k];
    }
  }

  /** The condition can fail: one byte of data followed by the byte 255 gives pad bits that are not zero. */
  lemma StrayPadBits(data: byte)
    ensures Encoded([data], 255, 0) != Rfc4648.Encode([data])
    ensures Rfc4648.Decode(Encoded([data], 255, 0)) == Some([data])
  {
    MatchesRfcIff([data], 255, 0);
    RoundTrip([data], 255, 0);
  }

  /** Copies bytes into memory. */
  method StoreBytes(mem: array<byte>, p: nat, b: seq<byte>)
    requires p + |b| <= mem.Length
    modifies mem
    ensures forall k :: p <= k < p + |b| ==> mem[k] == b[k - p]
    ensures forall k :: 0 <= k < mem.Length && !(p <= k < p + |b|) ==> mem[k] == old(mem[k])
  {
    for i := 0 to |b|
      invariant forall k :: p <= k < p + i ==> mem[k] == b[k - p]
      invariant forall k :: 0 <= k < mem.Length && !(p <= k < p + i) ==> mem[k] == old(mem[k])
    {
      mem[p + i] := b[i];
    }
  }

  /** The size of a Solidity allocation: whole words. */
  function RoundUp(n: nat): (r: nat)
    ensures n <= r < n + 32 && r % 32 == 0
  {
    (n + 31) / 32 * 32
  }

  lemma {:induction false} HighBytesZero(w: nat, n: nat)
    requires w < Shifted(1, n)
    ensures BytesOf(w, n + 2)[0] == 0 && BytesOf(w, n + 2)[1] == 0
  {
    if n == 0 {
      assert BytesOf(0, 2) == BytesOf(0, 1) + [0];
    } else {
      HighBytesZero(w / 256, n - 1);
      assert BytesOf(w, n + 2) == BytesOf(w / 256, n + 1) + [w % 256];
    }
  }

  function TableByte(v: nat): (b: byte)
    requires v < 64
    ensures b == Rfc4648.Alphabet(v)
  {
    TableIsAlphabet(v);
    TABLE[v] as int
  }

  /** `new bytes(encodedLen + 32)` and the copy of the table, at the free pointer. */
  method Allocate(mem: array<byte>, free: nat, encodedLen: nat) returns (result: nat, table: nat)
    requires free + 64 + RoundUp(encodedLen + 32) + 64 <= mem.Length <= Shifted(1, 30)
    modifies mem
    ensures result == free && result + 64 + encodedLen <= table && table + 96 <= mem.Length
    ensures forall k :: 0 <= k < free ==> mem[k] == old(mem[k])
    ensures mem[free] == 0 && mem[free + 1] == 0
    ensures HoldsTable(mem[..], table)
  {
    hide BytesOf, Rfc4648.Alphabet, Shifted, TABLE;
    result := free;
    HighBytesZero(encodedLen + 32, 30);
    Mstore(mem, result, encodedLen + 32);
    StoreBytes(mem, result + 32, seq(encodedLen + 32, _ => 0));
    table := result + 32 + RoundUp(encodedLen + 32);
    Mstore(mem, table, 64);
    StoreBytes(mem, table + 32, seq(64, v requires 0 <= v < 64 => TableByte(v)));
  }

  /** The byte at `k` once the allocations have started at `free`: a length word starts with zero bytes. */
  function After(m: seq<byte>, free: nat, k: nat): byte {
    if k < free && k < |m| then m[k] else 0
  }

  /** The encoder reads the data and the two bytes behind it, which the allocations may have written. */
  lemma BytesRead(before: seq<byte>, m: seq<byte>, free: nat, from: nat, to: nat)
    requires |m| == |before| && from <= to <= free && free + 2 <= |m|
    requires forall k :: 0 <= k < free ==> m[k] == before[k]
    requires m[free] == 0 && m[free + 1] == 0
    ensures m[from..to + 2] == before[from..to] + [After(before, free, to), After(before, free, to + 1)]
  {
    assert m[to] == After(before, free, to) && m[to + 1] == After(before, free, to + 1);
  }

  /** The length word reads as the length that was stored there. */
  lemma LengthWord(m: seq<byte>, result: nat, length: nat)
    requires result + 32 <= |m| && m[result..result + 32] == BytesOf(length, 32) && length < Shifted(1, 30)
    ensures Mload(m, result) == length
  {
    ShiftedBound(0, 1, 30);
    assert Shifted(1, 32) == 256 * Shifted(1, 31) && Shifted(1, 31) == 256 * Shifted(1, 30);
    WordOfBytes(length, 32);
  }

  /**
   * `encode(data)` in a memory whose free space starts at `free`: allocates the buffer and the copy
   * of the table there, runs the assembly block and returns the string left at `result`, of the length stored there.
   */
  method Encode(mem: array<byte>, data: nat, free: nat) returns (out: seq<byte>)
    requires data + 32 <= free <= mem.Length <= Shifted(1, 30)
    requires var len := Mload(mem[..], data);
             data + 32 + len <= free && free + 64 + RoundUp(Rfc4648.EncodedLength(len) + 32) + 64 <= mem.Length
    modifies mem
    ensures forall k :: 0 <= k < free ==> mem[k] == old(mem[k])
    ensures var len := old(Mload(mem[..], data));
            out == Encoded(old(mem[data + 32..data + 32 + len]),
                           After(old(mem[..]), free, data + 32 + len), After(old(mem[..]), free, data + 33 + len))
  {
    hide HoldsTable, Mload, Shifted, BytesOf, RoundUp, Rfc4648.EncodeBits, After;
    ghost var m0 := mem[..];
    var len := Mload(mem[..], data);
    ghost var input := m0[data + 32..data + 32 + len];
    ghost var t0, t1 := After(m0, free, data + 32 + len), After(m0, free, data + 33 + len);
    if len == 0 {
      return [];
    }
    var encodedLen := 4 * ((len + 2) / 3);
    var result, table := Allocate(mem, free, encodedLen);
    BytesRead(m0, mem[..], free, data + 32, data + 32 + len);
    assert mem[data + 32..data + 34 + len] == mem[..][data + 32..data + 34 + len] == input + [t0, t1];
    EncodeWords(mem, data, len, result, table, encodedLen);
    LengthWord(mem[..], result, encodedLen);
    var length := Mload(mem[..], result);
    out := mem[result + 32..result + 32 + length];
    assert out == Encoded(input, t0, t1);
  }
}
