/** scripts/hardhat-verify/solc/bytecode.ts: comparing deployed bytecode with compiler output, up to masked ranges. */
module Bytecode {
  import opened Wrappers
  import opened Records

  datatype ByteOffset = ByteOffset(start: nat, length: nat)

  type LinkReferences = Record<Record<seq<ByteOffset>>>

  datatype CompilerOutputBytecode = CompilerOutputBytecode(
    object_: string, linkReferences: LinkReferences, immutableReferences: Record<seq<ByteOffset>>)

  const METADATA_LENGTH: nat := 2

  // --- Offsets ---

  function ImmutableOffsets(refs: Record<seq<ByteOffset>>): seq<ByteOffset> {
    if refs == [] then [] else ImmutableOffsets(refs[..|refs| - 1]) + refs[|refs| - 1].1
  }

  function LibraryOffsets(refs: LinkReferences): seq<ByteOffset> {
    if refs == [] then [] else LibraryOffsets(refs[..|refs| - 1]) + ImmutableOffsets(refs[|refs| - 1].1)
  }

  /** `getLibraryOffsets`. */
  method GetLibraryOffsets(refs: LinkReferences) returns (offsets: seq<ByteOffset>)
    ensures offsets == LibraryOffsets(refs)
    ensures forall o :: o in offsets <==>
              exists i, j :: 0 <= i < |refs| && 0 <= j < |refs[i].1| && o in refs[i].1[j].1
  {
    offsets := [];
    for i := 0 to |refs|
      invariant offsets == LibraryOffsets(refs[..i])
      invariant forall o :: o in offsets <==> exists p, j :: 0 <= p < i && 0 <= j < |refs[p].1| && o in refs[p].1[j].1
    {
      ghost var before := offsets;
      var libraries := refs[i].1;
      for k := 0 to |libraries|
        invariant offsets == before + ImmutableOffsets(libraries[..k])
        invariant forall o :: o in offsets <==> o in before || exists j :: 0 <= j < k && o in libraries[j].1
      {
        offsets := offsets + libraries[k].1;
        assert libraries[..k + 1][..k] == libraries[..k];
      }
      assert libraries[..|libraries|] == libraries;
      assert refs[..i + 1][..i] == refs[..i];
    }
    assert refs[..|refs|] == refs;
  }

  /** `getImmutableOffsets`. */
  method GetImmutableOffsets(refs: Record<seq<ByteOffset>>) returns (offsets: seq<ByteOffset>)
    ensures offsets == ImmutableOffsets(refs)
    ensures forall o :: o in offsets <==> exists j :: 0 <= j < |refs| && o in refs[j].1
  {
    offsets := [];
    for k := 0 to |refs|
      invariant offsets == ImmutableOffsets(refs[..k])
      invariant forall o :: o in offsets <==> exists j :: 0 <= j < k && o in refs[j].1
    {
      offsets := offsets + refs[k].1;
      assert refs[..k + 1][..k] == refs[..k];
    }
    assert refs[..|refs|] == refs;
  }

  function Zeros(n: nat): (s: string)
    ensures |s| == n && forall k :: 0 <= k < n ==> s[k] == '0'
  {
    seq(n, _ => '0')
  }

  const PUSH20 := "73"

  /** The code pushes its own address, which deployment fills in. */
  predicate Protected(bytecode: string, reference: string) {
    PUSH20 + Zeros(40) <= reference && PUSH20 <= bytecode
  }

  /** `getCallProtectionOffsets`. */
  function CallProtectionOffsets(bytecode: string, reference: string): seq<ByteOffset> {
    if Protected(bytecode, reference) then [ByteOffset(1, 20)] else []
  }

  // --- Masking ---

  /** One turn of the masking loop. */
  function NullifyOne(s: string, o: ByteOffset): string {
    Slice(s, 0, 2 * o.start) + Zeros(2 * o.length) + Slice(s, 2 * (o.start + o.length), |s|)
  }

  function Nullify(s: string, offsets: seq<ByteOffset>): string {
    if offsets == [] then s
    else NullifyOne(Nullify(s, offsets[..|offsets| - 1]), offsets[|offsets| - 1])
  }

  /** Character `k` lies in one of the ranges. */
  predicate Covered(offsets: seq<ByteOffset>, k: int) {
    exists i :: 0 <= i < |offsets| && InRange(offsets[i], k)
  }

  predicate InRange(o: ByteOffset, k: int) {
    2 * o.start <= k < 2 * (o.start + o.length)
  }

  /** The length after masking: ranges that reach beyond the string make it longer. */
  function MaskedLength(n: nat, offsets: seq<ByteOffset>): nat {
    if offsets == [] then n
    else
      var m, o := MaskedLength(n, offsets[..|offsets| - 1]), offsets[|offsets| - 1];
      if m < 2 * o.start then m + 2 * o.length
      else if m < 2 * (o.start + o.length) then 2 * (o.start + o.length)
      else m
  }

  lemma NullifyOneAt(s: string, o: ByteOffset, k: int)
    requires 0 <= k < |NullifyOne(s, o)|
    ensures NullifyOne(s, o)[k] == if k < |s| && !InRange(o, k) then s[k] else '0'
  {
  }

  /**
   * Masking zeroes exactly the covered characters, and fills with zeros whatever a range adds
   * beyond the end, for any ranges, overlapping or out of bounds.
   */
  lemma {:induction false} NullifyAt(s: string, offsets: seq<ByteOffset>)
    ensures |Nullify(s, offsets)| == MaskedLength(|s|, offsets) >= |s|
    ensures forall k :: 0 <= k < |Nullify(s, offsets)| ==>
              Nullify(s, offsets)[k] == if k < |s| && !Covered(offsets, k) then s[k] else '0'
  {
    if offsets != [] {
      var n := |offsets| - 1;
      var r, o := Nullify(s, offsets[..n]), offsets[n];
      NullifyAt(s, offsets[..n]);
      forall k | 0 <= k < |NullifyOne(r, o)|
        ensures NullifyOne(r, o)[k] == if k < |s| && !Covered(offsets, k) then s[k] else '0'
      {
        NullifyOneAt(r, o, k);
        CoveredLast(offsets, k);
      }
    }
  }

  lemma CoveredLast(offsets: seq<ByteOffset>, k: int)
    requires offsets != []
    ensures var n := |offsets| - 1; Covered(offsets, k) <==> Covered(offsets[..n], k) || InRange(offsets[n], k)
  {
    var n := |offsets| - 1;
    if i :| 0 <= i < |offsets| && InRange(offsets[i], k) {
      if i < n {
        assert InRange(offsets[..n][i], k);
      }
    }
    if i :| 0 <= i < n && InRange(offsets[..n][i], k) {
      assert InRange(offsets[i], k);
    }
  }

  /** All ranges end within the string, or are empty. */
  predicate InBounds(n: nat, offsets: seq<ByteOffset>) {
    forall i :: 0 <= i < |offsets| ==> offsets[i].length == 0 || 2 * (offsets[i].start + offsets[i].length) <= n
  }

  /** Masking keeps the length exactly when all ranges are in bounds. */
  lemma {:induction false} LengthKeptIff(n: nat, offsets: seq<ByteOffset>)
    ensures MaskedLength(n, offsets) == n <==> InBounds(n, offsets)
    ensures MaskedLength(n, offsets) >= n
  {
    if offsets != [] {
      var m := |offsets| - 1;
      LengthKeptIff(n, offsets[..m]);
      assert offsets == offsets[..m] + [offsets[m]];
      assert InBounds(n, offsets) <==> InBounds(n, offsets[..m]) && InBounds(n, [offsets[m]]);
    }
  }

  /** In bounds, the result depends only on which characters are covered, not on the order or overlap of the ranges. */
  lemma SameCoverSameMask(s: string, offsets: seq<ByteOffset>, offsets': seq<ByteOffset>)
    requires InBounds(|s|, offsets) && InBounds(|s|, offsets')
    requires forall k :: 0 <= k < |s| ==> (Covered(offsets, k) <==> Covered(offsets', k))
    ensures Nullify(s, offsets) == Nullify(s, offsets')
  {
    NullifyAt(s, offsets);
    NullifyAt(s, offsets');
    LengthKeptIff(|s|, offsets);
    LengthKeptIff(|s|, offsets');
  }

  lemma MaskIdempotent(s: string, offsets: seq<ByteOffset>)
    requires InBounds(|s|, offsets)
    ensures Nullify(Nullify(s, offsets), offsets) == Nullify(s, offsets)
  {
    NullifyAt(s, offsets);
    LengthKeptIff(|s|, offsets);
    NullifyAt(Nullify(s, offsets), offsets);
  }

  /** The order of two out-of-bounds ranges can matter: even the length differs. */
  lemma OrderMattersOutOfBounds()
    ensures var a, b := ByteOffset(10, 1), ByteOffset(2, 1);
            MaskedLength(4, [a, b]) != MaskedLength(4, [b, a])
  {
    var a, b := ByteOffset(10, 1), ByteOffset(2, 1);
    assert [a, b][..1] == [a] && [b, a][..1] == [b];
    assert [a][..0] == [] && [b][..0] == [];
    assert MaskedLength(4, [a]) == 6 && MaskedLength(4, [b]) == 6;
  }

  /** Two strings of one length have equal masks exactly when they agree outside the ranges. */
  lemma EqualMasksIff(x: string, y: string, offsets: seq<ByteOffset>)
    requires |x| == |y|
    ensures Nullify(x, offsets) == Nullify(y, offsets)
       <==> forall k :: 0 <= k < |x| && !Covered(offsets, k) ==> x[k] == y[k]
  {
    NullifyAt(x, offsets);
    NullifyAt(y, offsets);
    var a, b := Nullify(x, offsets), Nullify(y, offsets);
    if a == b {
      forall k | 0 <= k < |x| && !Covered(offsets, k) ensures x[k] == y[k] {
        assert a[k] == b[k];
      }
    }
    if forall k :: 0 <= k < |x| && !Covered(offsets, k) ==> x[k] == y[k] {
      forall k | 0 <= k < |a| ensures a[k] == b[k] {
      }
    }
  }

  // --- Sections ---

  function HexDigit(c: char): (v: Option<nat>)
    ensures v.Some? ==> v.value < 16
  {
    if '0' <= c <= '9' then Some(c as int - '0' as int)
    else if 'a' <= c <= 'f' then Some(c as int - 'a' as int + 10)
    else if 'A' <= c <= 'F' then Some(c as int - 'A' as int + 10)
    else None
  }

  /** `Buffer.from(s, "hex")`: the bytes up to the first pair that is not hexadecimal. */
  function HexDecode(s: string): (b: seq<nat>)
    ensures |b| <= |s| / 2
  {
    if |s| < 2 || HexDigit(s[0]).None? || HexDigit(s[1]).None? then []
    else [16 * HexDigit(s[0]).value + HexDigit(s[1]).value] + HexDecode(s[2..])
  }

  /** `getMetadataSectionLength`: the big-endian number in the last two bytes, plus those two; it throws on shorter buffers. */
  function MetadataSectionLength(b: seq<nat>): Option<nat> {
    if |b| < METADATA_LENGTH then None else Some(256 * b[|b| - 2] + b[|b| - 1] + METADATA_LENGTH)
  }

  function WithoutPrefix(object_: string): string {
    if "0x" <= object_ then Slice(object_, 2, |object_|) else object_
  }

  /** `inferExecutableSection`, for code that may contain link placeholders. */
  function InferExecutableSection(object_: string): string {
    var bytecode := WithoutPrefix(object_);
    var tail := HexDecode(Slice(bytecode, -(2 * METADATA_LENGTH), |bytecode|));
    if |tail| != METADATA_LENGTH then bytecode
    else Slice(bytecode, 0, |bytecode| - 2 * MetadataSectionLength(tail).value)
  }

  /** All ranges of the compiler output: links first, then immutables. */
  function Ranges(output: CompilerOutputBytecode): seq<ByteOffset> {
    LibraryOffsets(output.linkReferences) + ImmutableOffsets(output.immutableReferences)
  }

  /** `nullifyBytecodeOffsets`. */
  method NullifyBytecodeOffsets(bytecode: string, output: CompilerOutputBytecode) returns (r: string)
    ensures r == Nullify(bytecode, Ranges(output) + CallProtectionOffsets(bytecode, output.object_))
  {
    hide Slice, Zeros, Protected, LibraryOffsets, ImmutableOffsets;
    var links := GetLibraryOffsets(output.linkReferences);
    var immutables := GetImmutableOffsets(output.immutableReferences);
    var offsets := links + immutables + CallProtectionOffsets(bytecode, output.object_);
    r := bytecode;
    for i := 0 to |offsets|
      invariant r == Nullify(bytecode, offsets[..i])
    {
      var start, length := offsets[i].start, offsets[i].length;
      r := Slice(r, 0, start * 2) + Zeros(length * 2) + Slice(r, (start + length) * 2, |r|);
      assert offsets[..i + 1][..i] == offsets[..i];
    }
    assert offsets[..|offsets|] == offsets;
  }

  /** What `compare` decides for code `x` of which `y` is the reference section. */
  ghost predicate Matches(x: string, y: string, output: CompilerOutputBytecode) {
    && |x| == |y|
    && (forall k :: 0 <= k < |x| && !Covered(Ranges(output), k) && !(Protected(x, output.object_) && 2 <= k < 42) ==> x[k] == y[k])
    && (Protected(y, output.object_) && !Protected(x, output.object_) ==> MaskedLength(|x|, Ranges(output)) >= 42)
  }

  /** The deployed bytecode: `new Bytecode(...)`. */
  class Bytecode {
    const bytecode: string
    const executableLength: int

    constructor (bytecode_: string)
      requires MetadataSectionLength(HexDecode(bytecode_)).Some?
      ensures bytecode == bytecode_
      ensures executableLength == |bytecode_| - 2 * MetadataSectionLength(HexDecode(bytecode_)).value
    {
      bytecode := bytecode_;
      executableLength := |bytecode_| - 2 * MetadataSectionLength(HexDecode(bytecode_)).value;
    }

    /** `_getExecutableSection`. */
    function ExecutableSection(): string {
      Slice(bytecode, 0, executableLength)
    }

    /** `compare` for code that is not OVM bytecode. */
    method Compare(output: CompilerOutputBytecode) returns (same: bool)
      ensures same <==> Matches(ExecutableSection(), InferExecutableSection(output.object_), output)
    {
      var executableSection := ExecutableSection();
      var referenceExecutableSection := InferExecutableSection(output.object_);
      if |executableSection| != |referenceExecutableSection| {
        return false;
      }
      var normalizedBytecode := NullifyBytecodeOffsets(executableSection, output);
      var normalizedReference := NullifyBytecodeOffsets(referenceExecutableSection, output);
      CompareIff(executableSection, output);
      return normalizedBytecode == normalizedReference;
    }
  }

  /** `new Bytecode(code)`; null stands for the RangeError on code too short to hold a metadata length. */
  method NewBytecode(code: string) returns (b: Bytecode?)
    ensures b == null <==> |HexDecode(code)| < METADATA_LENGTH
    ensures b != null ==> b.bytecode == code && fresh(b)
    ensures b != null && IsHex(code) && |code| % 2 == 0 ==> b.ExecutableSection() == InferExecutableSection(code)
  {
    if MetadataSectionLength(HexDecode(code)).None? {
      return null;
    }
    if IsHex(code) && |code| % 2 == 0 {
      HexDecodeConcat(code, "");
      assert code + "" == code;
      SectionsAgree(code);
    }
    b := new Bytecode(code);
  }

  /** A protected object starts with the placeholder, and so does its section as far as it reaches. */
  lemma ReferencePrefix(object_: string)
    ensures PUSH20 <= object_ ==> InferExecutableSection(object_) <= object_
  {
    if PUSH20 <= object_ {
      assert object_[0] == PUSH20[0];
      assert !("0x" <= object_);
    }
  }

  lemma CoveredConcat(a: seq<ByteOffset>, b: seq<ByteOffset>, k: int)
    ensures Covered(a + b, k) <==> Covered(a, k) || Covered(b, k)
  {
    if i :| 0 <= i < |a| && InRange(a[i], k) {
      assert InRange((a + b)[i], k);
    }
    if i :| 0 <= i < |b| && InRange(b[i], k) {
      assert InRange((a + b)[|a| + i], k);
    }
  }

  lemma CoveredProtection(k: int)
    ensures Covered([ByteOffset(1, 20)], k) <==> 2 <= k < 42
  {
    if 2 <= k < 42 {
      assert InRange([ByteOffset(1, 20)][0], k);
    }
  }

  /** The comparison of the masked sections in terms of the sections themselves. */
  lemma CompareIff(x: string, output: CompilerOutputBytecode)
    ensures var y := InferExecutableSection(output.object_);
            |x| == |y| ==>
              (Nullify(x, Ranges(output) + CallProtectionOffsets(x, output.object_))
               == Nullify(y, Ranges(output) + CallProtectionOffsets(y, output.object_))
               <==> Matches(x, y, output))
  {
    var object_, y, ranges := output.object_, InferExecutableSection(output.object_), Ranges(output);
    if |x| == |y| {
      ReferencePrefix(object_);
      if Protected(x, object_) {
        assert Protected(y, object_);
      }
      if Protected(x, object_) == Protected(y, object_) {
        SameProtection(x, y, output);
      } else {
        OneSidedProtection(x, y, output);
      }
    }
  }

  lemma SameProtection(x: string, y: string, output: CompilerOutputBytecode)
    requires |x| == |y| && Protected(x, output.object_) == Protected(y, output.object_)
    ensures Nullify(x, Ranges(output) + CallProtectionOffsets(x, output.object_))
            == Nullify(y, Ranges(output) + CallProtectionOffsets(y, output.object_))
       <==> Matches(x, y, output)
  {
    var ranges := Ranges(output);
    var protection := CallProtectionOffsets(x, output.object_);
    EqualMasksIff(x, y, ranges + protection);
    forall k ensures Covered(ranges + protection, k)
        <==> Covered(ranges, k) || (Protected(x, output.object_) && 2 <= k < 42) {
      CoveredConcat(ranges, protection, k);
      CoveredProtection(k);
    }
  }

  lemma OneSidedProtection(x: string, y: string, output: CompilerOutputBytecode)
    requires |x| == |y| && !Protected(x, output.object_) && Protected(y, output.object_) && y <= output.object_
    ensures Nullify(x, Ranges(output) + CallProtectionOffsets(x, output.object_))
            == Nullify(y, Ranges(output) + CallProtectionOffsets(y, output.object_))
       <==> Matches(x, y, output)
  {
    hide Slice, Covered, Protected, Matches, Nullify, Ranges, MaskedLength, Agree;
    var ranges := Ranges(output);
    assert ranges + [] == ranges;
    ProtectedMask(y, output);
    NullifyAt(x, ranges);
    MatchesOneSided(x, y, output);
    MaskedPair(x, y, Nullify(x, ranges), Nullify(y, ranges + [ByteOffset(1, 20)]), ranges);
  }

  /** Two masks of which the second is filled up to 42 characters. */
  lemma MaskedPair(x: string, y: string, a: string, b: string, ranges: seq<ByteOffset>)
    requires |x| == |y| <= |a| && |b| == if |a| < 42 then 42 else |a|
    requires forall k :: 0 <= k < |a| ==> a[k] == if k < |x| && !Covered(ranges, k) then x[k] else '0'
    requires forall k :: 0 <= k < |b| ==> b[k] == if k < |y| && !Covered(ranges, k) then y[k] else '0'
    ensures a == b <==> Agree(x, y, ranges) && |a| >= 42
  {
    hide Covered;
    if a == b {
      forall k | 0 <= k < |x| && !Covered(ranges, k) ensures x[k] == y[k] {
        assert a[k] == b[k];
      }
    }
    if Agree(x, y, ranges) && |a| >= 42 {
      forall k | 0 <= k < |a| ensures a[k] == b[k] {
      }
    }
  }

  /** Equal characters outside the ranges. */
  ghost predicate Agree(x: string, y: string, ranges: seq<ByteOffset>)
    requires |x| == |y|
  {
    forall k :: 0 <= k < |x| && !Covered(ranges, k) ==> x[k] == y[k]
  }

  lemma MatchesOneSided(x: string, y: string, output: CompilerOutputBytecode)
    requires |x| == |y| && !Protected(x, output.object_) && Protected(y, output.object_)
    ensures Matches(x, y, output) <==> Agree(x, y, Ranges(output)) && MaskedLength(|x|, Ranges(output)) >= 42
  {
  }

  /**
   * The call-protection range of a reference section adds nothing to the mask but length: the
   * section has zeros there itself.
   */
  lemma ProtectedMask(y: string, output: CompilerOutputBytecode)
    requires Protected(y, output.object_) && y <= output.object_
    ensures var ranges := Ranges(output);
            var b, n := Nullify(y, ranges + [ByteOffset(1, 20)]), MaskedLength(|y|, ranges);
            && |b| == (if n < 42 then 42 else n)
            && forall k :: 0 <= k < |b| ==> b[k] == if k < |y| && !Covered(ranges, k) then y[k] else '0'
  {
    hide Slice, Covered;
    var ranges, protection := Ranges(output), [ByteOffset(1, 20)];
    NullifyAt(y, ranges + protection);
    NullifyAt(y, ranges);
    hide Nullify;
    assert (ranges + protection)[..|ranges|] == ranges;
    assert MaskedLength(|y|, ranges + protection) == if MaskedLength(|y|, ranges) < 42 then 42 else MaskedLength(|y|, ranges);
    forall k ensures Covered(ranges + protection, k) <==> Covered(ranges, k) || 2 <= k < 42 {
      CoveredConcat(ranges, protection, k);
      CoveredProtection(k);
    }
    forall k | 2 <= k < 42 && k < |y| ensures y[k] == '0' {
      assert y[k] == output.object_[k] == (PUSH20 + Zeros(40))[k];
    }
  }

  /** When byte 0 lies in no link or immutable range, `compare` means agreement outside the masked ranges. */
  lemma MatchesIffAgree(x: string, y: string, output: CompilerOutputBytecode)
    requires !Covered(Ranges(output), 0) && !Covered(Ranges(output), 1)
    ensures Matches(x, y, output) <==>
              && |x| == |y|
              && forall k :: 0 <= k < |x| && !Covered(Ranges(output), k) && !(Protected(x, output.object_) && 2 <= k < 42)
                   ==> x[k] == y[k]
  {
  }

  predicate IsHex(s: string) {
    forall k :: 0 <= k < |s| ==> HexDigit(s[k]).Some?
  }

  lemma {:induction false} HexDecodeConcat(a: string, b: string)
    requires IsHex(a) && |a| % 2 == 0
    ensures HexDecode(a + b) == HexDecode(a) + HexDecode(b) && |HexDecode(a)| == |a| / 2
    decreases |a|
  {
    if a == "" {
      assert a + b == b;
    } else {
      assert (a + b)[2..] == a[2..] + b;
      HexDecodeConcat(a[2..], b);
    }
  }

  lemma SuffixDecodes(head: string, last: string)
    requires IsHex(head) && IsHex(last) && |head| % 2 == 0 && |last| == 4
    ensures var b, tail := HexDecode(head + last), HexDecode(last);
            |b| >= 2 && |tail| == 2 && tail[0] == b[|b| - 2] && tail[1] == b[|b| - 1]
  {
    hide HexDecode, IsHex;
    HexDecodeConcat(head, last);
    HexDecodeConcat(last, "");
    assert last + "" == last;
  }

  lemma TailSlice(code: string, n: int)
    requires 0 < n <= |code|
    ensures Slice(code, -n, |code|) == code[|code| - n..]
  {
  }

  /** The last four characters decode to the last two bytes. */
  lemma TailDecodes(code: string)
    requires IsHex(code) && |code| % 2 == 0 && |code| >= 4
    ensures var b, tail := HexDecode(code), HexDecode(Slice(code, -4, |code|));
            |b| >= 2 && |tail| == 2 && tail[0] == b[|b| - 2] && tail[1] == b[|b| - 1]
  {
    hide HexDecode, HexDigit, Slice;
    var n := |code| - 4;
    TailSlice(code, 4);
    SuffixDecodes(code[..n], code[n..]);
    assert code == code[..n] + code[n..];
  }

  lemma HexHasNoPrefix(code: string)
    requires IsHex(code)
    ensures !("0x" <= code)
  {
    assert HexDigit('x').None?;
    if |code| >= 2 {
      assert code[1] != "0x"[1];
    }
  }

  /**
   * The constructor reads the metadata length from the whole code and `inferExecutableSection` from
   * its last four characters: for deployed code, which is all hexadecimal, both cut the same section.
   */
  lemma SectionsAgree(code: string)
    requires IsHex(code) && |code| % 2 == 0 && |code| >= 4
    ensures MetadataSectionLength(HexDecode(code)).Some?
    ensures Slice(code, 0, |code| - 2 * MetadataSectionLength(HexDecode(code)).value) == InferExecutableSection(code)
  {
    hide HexDecode, HexDigit, IsHex, Slice;
    TailDecodes(code);
    HexHasNoPrefix(code);
    assert WithoutPrefix(code) == code;
    var b, tail := HexDecode(code), HexDecode(Slice(code, -4, |code|));
    assert MetadataSectionLength(b) == MetadataSectionLength(tail);
  }

  /** Code and object of one length with equal last four characters are cut at the same place. */
  lemma SameTailSections(code: string, object_: string)
    requires var o := WithoutPrefix(object_);
             |o| == |code| >= 4 && code[|code| - 4..] == o[|o| - 4..] && !("0x" <= code)
    ensures var x, y := InferExecutableSection(code), InferExecutableSection(object_);
            |x| == |y| <= |code| && x == code[..|x|] && y == WithoutPrefix(object_)[..|x|]
  {
    var o := WithoutPrefix(object_);
    TailSlice(code, 4);
    TailSlice(o, 4);
    hide HexDecode, HexDigit;
    var tail := HexDecode(code[|code| - 4..]);
    if |tail| == METADATA_LENGTH {
      assert InferExecutableSection(code) == Slice(code, 0, |code| - 2 * MetadataSectionLength(tail).value);
      assert InferExecutableSection(object_) == Slice(o, 0, |o| - 2 * MetadataSectionLength(tail).value);
    }
  }

  /** The first `n` characters are those of the object, except where deployment fills something in. */
  ghost predicate FilledIn(code: string, n: nat, output: CompilerOutputBytecode)
    requires n <= |code| == |WithoutPrefix(output.object_)|
  {
    forall k :: 0 <= k < n && !Covered(Ranges(output), k) && !(Protected(code, output.object_) && 2 <= k < 42)
      ==> code[k] == WithoutPrefix(output.object_)[k]
  }

  lemma PrefixMatchesIff(code: string, n: nat, output: CompilerOutputBytecode)
    requires n <= |code| == |WithoutPrefix(output.object_)|
    requires !Covered(Ranges(output), 0) && !Covered(Ranges(output), 1)
    ensures Matches(code[..n], WithoutPrefix(output.object_)[..n], output) <==> FilledIn(code, n, output)
  {
    hide Covered, Ranges, WithoutPrefix, Zeros;
    var x, y := code[..n], WithoutPrefix(output.object_)[..n];
    MatchesIffAgree(x, y, output);
    hide Matches;
    assert n >= 2 ==> (PUSH20 <= x <==> PUSH20 <= code);
    hide Protected;
  }

  /**
   * Deployed code compares equal to a compiler output of its length and metadata length if and only if it differs from
   * the object nowhere but in the link, immutable and call-protection ranges and in the metadata that follows the code.
   */
  lemma FilledMatchesIff(code: string, output: CompilerOutputBytecode)
    requires IsHex(code) && |code| % 2 == 0 && |code| >= 4
    requires var o := WithoutPrefix(output.object_); |o| == |code| && code[|code| - 4..] == o[|o| - 4..]
    requires !Covered(Ranges(output), 0) && !Covered(Ranges(output), 1)
    ensures MetadataSectionLength(HexDecode(code)).Some?
    ensures var x := Slice(code, 0, |code| - 2 * MetadataSectionLength(HexDecode(code)).value);
            && |x| <= |code|
            && (Matches(x, InferExecutableSection(output.object_), output) <==> FilledIn(code, |x|, output))
  {
    SectionsAgree(code);
    HexHasNoPrefix(code);
    SameTailSections(code, output.object_);
    hide HexDecode, Slice, Matches, Covered, InferExecutableSection, Ranges, WithoutPrefix, FilledIn;
    PrefixMatchesIff(code, |InferExecutableSection(code)|, output);
  }

  // --- Code written by a compiler ---

  /** The character is the hexadecimal digit for `v`, in either case. */
  ghost predicate IsDigit(c: char, v: nat) {
    v < 16 && (c == "0123456789abcdef"[v] || c == "0123456789ABCDEF"[v])
  }

  lemma DigitValue(c: char, v: nat)
    ensures IsDigit(c, v) <==> HexDigit(c) == Some(v)
  {
    var low, high := "0123456789abcdef", "0123456789ABCDEF";
    if v < 10 {
      assert low[v] as int == '0' as int + v == high[v] as int;
    } else if v < 16 {
      assert low[v] as int == 'a' as int + (v - 10) && high[v] as int == 'A' as int + (v - 10);
    }
  }

  /** The four big-endian hexadecimal digits of `m`, as compilers write the length of the metadata. */
  ghost predicate WritesLength(last: string, m: nat) {
    && |last| == 4 && m < 65536
    && IsDigit(last[0], m / 4096) && IsDigit(last[1], m / 256 % 16)
    && IsDigit(last[2], m / 16 % 16) && IsDigit(last[3], m % 16)
  }

  lemma LengthDecodes(last: string, m: nat)
    requires WritesLength(last, m)
    ensures HexDecode(last) == [m / 256, m % 256]
  {
    DigitValue(last[0], m / 4096);
    DigitValue(last[1], m / 256 % 16);
    DigitValue(last[2], m / 16 % 16);
    DigitValue(last[3], m % 16);
    hide IsDigit, HexDigit, HexDecode;
    TwoPairs(last);
    Digits(m);
  }

  lemma Digits(m: nat)
    ensures 16 * (m / 4096) + m / 256 % 16 == m / 256
    ensures 16 * (m / 16 % 16) + m % 16 == m % 256
  {
  }

  lemma TwoPairs(s: string)
    requires |s| == 4 && forall k :: 0 <= k < 4 ==> HexDigit(s[k]).Some?
    ensures HexDecode(s) == [16 * HexDigit(s[0]).value + HexDigit(s[1]).value, 16 * HexDigit(s[2]).value + HexDigit(s[3]).value]
  {
    hide HexDigit;
    assert HexDecode(s[2..][2..]) == [];
  }

  /** Code as a compiler writes it: the executable section, the metadata, and the length of the metadata in bytes. */
  ghost predicate Compiled(code: string, exec: string, meta: string) {
    && |meta| % 2 == 0 && |code| == |exec| + |meta| + 4
    && exec + meta <= code && WritesLength(code[|code| - 4..], |meta| / 2)
  }

  /** The section cut from the object of a compiler is the executable one, with or without the prefix. */
  lemma InferredIsExecutable(code: string, exec: string, meta: string, object_: string)
    requires Compiled(code, exec, meta)
    requires object_ == "0x" + code || (object_ == code && !("0x" <= code))
    ensures InferExecutableSection(object_) == exec
  {
    hide HexDecode, HexDigit, WritesLength, WithoutPrefix, MetadataSectionLength, Slice;
    var m := |meta| / 2;
    WithoutPrefixOf(code, object_);
    TailSlice(code, 4);
    LengthDecodes(code[|code| - 4..], m);
    MetadataLengthOf(m);
    CompiledPrefix(code, exec, meta);
    InferredWith(object_, code, [m / 256, m % 256]);
  }

  lemma InferredWith(object_: string, code: string, tail: seq<nat>)
    requires WithoutPrefix(object_) == code && |tail| == METADATA_LENGTH && HexDecode(Slice(code, -4, |code|)) == tail
    ensures InferExecutableSection(object_) == Slice(code, 0, |code| - 2 * MetadataSectionLength(tail).value)
  {
    hide HexDecode, Slice, WithoutPrefix;
  }

  lemma MetadataLengthOf(m: nat)
    ensures MetadataSectionLength([m / 256, m % 256]) == Some(m + 2)
  {
  }

  lemma CompiledPrefix(code: string, exec: string, meta: string)
    requires Compiled(code, exec, meta)
    ensures Slice(code, 0, |code| - 2 * (|meta| / 2 + 2)) == exec
  {
    hide WritesLength;
    assert |code| - 2 * (|meta| / 2 + 2) == |exec|;
    assert code[..|exec|] == exec;
  }

  lemma WithoutPrefixOf(code: string, object_: string)
    requires object_ == "0x" + code || (object_ == code && !("0x" <= code))
    ensures WithoutPrefix(object_) == code
  {
  }

  /** So is the section that the constructor cuts from deployed code. */
  lemma DeployedIsExecutable(code: string, exec: string, meta: string)
    requires Compiled(code, exec, meta) && IsHex(code) && |code| % 2 == 0
    ensures MetadataSectionLength(HexDecode(code)).Some?
    ensures Slice(code, 0, |code| - 2 * MetadataSectionLength(HexDecode(code)).value) == exec
  {
    hide HexDecode, Slice, InferExecutableSection, WritesLength;
    SectionsAgree(code);
    HexHasNoPrefix(code);
    InferredIsExecutable(code, exec, meta, code);
  }

  /**
   * `compare` of deployed code with an object, both as compilers write them: true exactly when the executable sections
   * have one length and agree outside the link, immutable and call-protection ranges; metadata never matters.
   */
  lemma CompiledMatchesIff(code: string, exec: string, meta: string, reference: string, exec': string, meta': string,
                           output: CompilerOutputBytecode)
    requires Compiled(code, exec, meta) && IsHex(code) && |code| % 2 == 0 && Compiled(reference, exec', meta')
    requires output.object_ == "0x" + reference || (output.object_ == reference && !("0x" <= reference))
    requires !Covered(Ranges(output), 0) && !Covered(Ranges(output), 1)
    ensures MetadataSectionLength(HexDecode(code)).Some?
    ensures Matches(Slice(code, 0, |code| - 2 * MetadataSectionLength(HexDecode(code)).value),
                    InferExecutableSection(output.object_), output) <==>
              && |exec| == |exec'|
              && forall k :: 0 <= k < |exec| && !Covered(Ranges(output), k) && !(Protected(exec, output.object_) && 2 <= k < 42)
                   ==> exec[k] == exec'[k]
  {
    DeployedIsExecutable(code, exec, meta);
    InferredIsExecutable(reference, exec', meta', output.object_);
    MatchesIffAgree(exec, exec', output);
  }

  /** A call-protected library pushes twenty zero bytes in the compiler output and an address when deployed. */
  lemma ProtectedIff(bytecode: string, reference: string)
    ensures Protected(bytecode, reference) <==>
              && "730000000000000000000000000000000000000000" <= reference
              && |bytecode| >= 2 && bytecode[0] == '7' && bytecode[1] == '3'
  {
    var zeros := "730000000000000000000000000000000000000000";
    assert |zeros| == 42 && zeros == PUSH20 + Zeros(40);
  }

  /** The bytes are those of the pairs of digits up to the first pair that is not hexadecimal. */
  predicate Reads(s: string, b: seq<nat>) {
    && 2 * |b| <= |s|
    && (2 * |b| + 1 < |s| ==> HexDigit(s[2 * |b|]).None? || HexDigit(s[2 * |b| + 1]).None?)
    && forall i :: 0 <= i < |b| ==> ReadsPair(s, i, b[i])
  }

  predicate ReadsPair(s: string, i: nat, v: nat)
    requires 2 * i + 1 < |s|
  {
    && HexDigit(s[2 * i]).Some? && HexDigit(s[2 * i + 1]).Some?
    && v == 16 * HexDigit(s[2 * i]).value + HexDigit(s[2 * i + 1]).value
  }

  lemma {:induction false} HexDecodeReads(s: string)
    ensures Reads(s, HexDecode(s))
  {
    if |s| >= 2 && HexDigit(s[0]).Some? && HexDigit(s[1]).Some? {
      HexDecodeReads(s[2..]);
      ReadsMore(s, 16 * HexDigit(s[0]).value + HexDigit(s[1]).value, HexDecode(s[2..]));
    }
  }

  lemma ReadsMore(s: string, v: nat, b: seq<nat>)
    requires |s| >= 2 && ReadsPair(s, 0, v) && Reads(s[2..], b)
    ensures Reads(s, [v] + b)
  {
    hide HexDigit;
    var c := [v] + b;
    assert 2 * |c| < |s| ==> s[2 * |c|] == s[2..][2 * |b|];
    assert 2 * |c| + 1 < |s| ==> s[2 * |c| + 1] == s[2..][2 * |b| + 1];
    forall i | 0 <= i < |c| ensures ReadsPair(s, i, c[i]) {
      if i > 0 {
        assert ReadsPair(s[2..], i - 1, b[i - 1]);
      }
    }
  }
}
