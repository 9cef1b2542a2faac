/** Re-targeting a BL instruction of the OS loader to code placed before the function it calls. */
module BranchPatch {
  import opened Bits
  import opened Bytes

  const TWO_64: nat := 0x1_0000_0000_0000_0000
  const BL: nat := 0x94000000
  const SCAN_MAX: nat := 0x300000

  /** The instruction word, in the arithmetic of the source: unsigned subtraction and division, then
      truncation and a mask of 27 bits. */
  function Encode(current: uint64, target: uint64): nat {
    Or(BL, And((target - current) % TWO_64 / 4 % 0x1_0000_0000, 0x7FFFFFF))
  }

  /** The BL instruction of the Arm Architecture Reference Manual (DDI 0487, section C6.2): six bits of
      opcode and a signed number of instructions to go. */
  function Decode(at: uint64, word: nat): Option<uint64> {
    if word / 0x4000000 != 0x25 then None
    else
      var imm := word % 0x4000000;
      Some((at + 4 * (if imm < 0x2000000 then imm else imm - 0x4000000)) % TWO_64)
  }

  /** At most 128 megabytes backward, less than that forward, also across the end of the address space. */
  predicate InBranchRange(current: uint64, target: uint64) {
    var d := (target - current) % TWO_64;
    d < 0x8000000 || d >= TWO_64 - 0x8000000
  }

  lemma SmallMask()
    ensures Pow2(26) == 0x4000000 && Pow2(27) == 0x8000000
  {
    assert Pow2(8) == 256;
    assert Pow2(16) == 256 * Pow2(8);
    assert Pow2(24) == 256 * Pow2(16);
    assert Pow2(26) == 4 * Pow2(24);
  }

  /** The mask keeps one bit of the opcode, but that bit is set anyway. */
  lemma EncodedBits(current: uint64, target: uint64)
    ensures Encode(current, target) == 0x25 * 0x4000000 + (target - current) % TWO_64 / 4 % 0x4000000
  {
    hide Pow2, And, Or;
    SmallMask();
    var q := (target - current) % TWO_64 / 4;
    AndMask(q % 0x1_0000_0000, 27);
    var m := q % 0x1_0000_0000 % 0x8000000;
    assert m == q % 0x8000000;
    OrScaled(0x25, m / 0x4000000, 26, m % 0x4000000);
    OpcodeBit(m / 0x4000000);
  }

  lemma OpcodeBit(high: nat)
    requires high < 2
    ensures Or(0x25, high) == 0x25
  {
    assert Or(0x12, 0) == 0x12;
  }

  /** A number less than one address space off, brought back into it. */
  function Wrapped(v: int): int {
    if v < 0 then v + TWO_64 else if v < TWO_64 then v else v - TWO_64
  }

  lemma WrapIs(v: int)
    requires v + TWO_64 >= 0 && v < 2 * TWO_64
    ensures v % TWO_64 == Wrapped(v)
  {
  }

  function SignedOffset(imm: nat): int {
    4 * (if imm < 0x2000000 then imm else imm - 0x4000000)
  }

  /** The low bits of a distance give it back exactly if the bits above are all clear or all set. */
  lemma LowBits(current: uint64, target: uint64, high: nat, imm: nat)
    requires imm < 0x4000000 && Wrapped(target - current) == 4 * (0x4000000 * high + imm)
    ensures Wrapped(current + SignedOffset(imm)) == target
       <==> Wrapped(target - current) < 0x8000000 || Wrapped(target - current) >= TWO_64 - 0x8000000
  {
  }

  lemma Distance(current: uint64, target: uint64)
    requires current % 4 == 0 && target % 4 == 0
    ensures (target - current) % TWO_64 == Wrapped(target - current)
    ensures Wrapped(target - current) % 4 == 0
  {
    WrapIs(target - current);
  }

  lemma DecodeOfBranch(at: uint64, imm: nat)
    requires imm < 0x4000000
    ensures Decode(at, 0x25 * 0x4000000 + imm) == Some(Wrapped(at + SignedOffset(imm)))
  {
    WrapIs(at + SignedOffset(imm));
    assert (0x25 * 0x4000000 + imm) / 0x4000000 == 0x25 && (0x25 * 0x4000000 + imm) % 0x4000000 == imm;
  }

  /** Encoding and decoding meet exactly within the range of the instruction. */
  lemma BranchRoundTrip(current: uint64, target: uint64)
    requires current % 4 == 0 && target % 4 == 0
    ensures Decode(current, Encode(current, target)) == Some(target) <==> InBranchRange(current, target)
  {
    hide Encode, Decode, SignedOffset, Wrapped;
    EncodedBits(current, target);
    Distance(current, target);
    var q := Wrapped(target - current) / 4;
    DecodeOfBranch(current, q % 0x4000000);
    LowBits(current, target, q / 0x4000000, q % 0x4000000);
  }

  /** So a word equals the encoding exactly when it is a BL to the target. */
  lemma MatchIsBranch(current: uint64, target: uint64, word: uint32)
    requires current % 4 == 0 && target % 4 == 0 && InBranchRange(current, target)
    ensures word == Encode(current, target) <==> Decode(current, word) == Some(target)
  {
    hide Encode, SignedOffset, Decode;
    EncodedBits(current, target);
    BranchRoundTrip(current, target);
    if Decode(current, word) == Some(target) {
      OnlyBranches(current, word);
      var imm := word % 0x4000000;
      DecodeOfBranch(current, imm);
      Distance(current, target);
      SameLowBits(current, target, imm);
    }
  }

  lemma OnlyBranches(at: uint64, word: nat)
    requires Decode(at, word).Some?
    ensures word == 0x25 * 0x4000000 + word % 0x4000000
  {
  }

  lemma SameLowBits(current: uint64, target: uint64, imm: nat)
    requires imm < 0x4000000 && Wrapped(current + SignedOffset(imm)) == target
    ensures Wrapped(target - current) / 4 % 0x4000000 == imm
  {
    var q := if imm < 0x2000000 then imm else TWO_64 / 4 - 0x4000000 + imm;
    assert Wrapped(target - current) == 4 * q;
  }

  // ----- the patch

  /** The word at an address of a memory that starts at base. */
  function Word(m: seq<byte>, base: nat, at: nat): uint32
    requires base <= at && at + 4 <= base + |m|
  {
    ReadLe32(m, at - base)
  }

  /** The memory holds the code before the function and all that is scanned. */
  predicate Mapped(base: nat, size: nat, entry: nat, shellSize: nat) {
    && base + size <= TWO_64
    && base + shellSize <= entry && entry + SCAN_MAX + 4 <= base + size
    && entry % 4 == 0 && shellSize % 4 == 0 && shellSize + SCAN_MAX <= 0x8000000
  }

  predicate Scanned(entry: nat, at: int) {
    entry <= at < entry + SCAN_MAX && (at - entry) % 4 == 0
  }

  /** A BL to the function with the pattern behind it. */
  predicate Calls(m: seq<byte>, base: nat, entry: nat, at: int, pattern: uint32)
    requires base <= entry && entry + SCAN_MAX + 4 <= base + |m| <= TWO_64
    requires Scanned(entry, at)
  {
    ScannedFits(entry, at);
    Decode(at, Word(m, base, at)) == Some(entry) && Word(m, base, at + 4) == pattern
  }

  lemma ScannedFits(entry: nat, at: int)
    requires Scanned(entry, at)
    ensures entry <= at && at + 4 <= entry + SCAN_MAX
  {
  }

  /** The call lands on the first byte of the code, the code ends at the function, and nothing else
      has changed. */
  ghost predicate Patched(before: seq<byte>, after: seq<byte>, base: nat, entry: nat, at: nat, shell: seq<byte>)
    requires Mapped(base, |before|, entry, |shell|) && Scanned(entry, at)
  {
    && |after| == |before|
    && Decode(at, Word(after, base, at)) == Some(entry - |shell|)
    && after[entry - |shell| - base..entry - base] == shell
    && forall i :: 0 <= i < |before| && !(entry - |shell| <= base + i < entry) && !(at <= base + i < at + 4) ==>
         after[i] == before[i]
  }

  method Inject(mem: array<byte>, base: nat, newAddress: uint64, current: uint64, shell: seq<byte>)
    requires Mapped(base, mem.Length, newAddress + |shell|, |shell|) && Scanned(newAddress + |shell|, current)
    modifies mem
    ensures Patched(old(mem[..]), mem[..], base, newAddress + |shell|, current, shell)
  {
    hide Encode, Le32, Patched;
    var word := Encode(current, newAddress);
    EncodedBits(current, newAddress);
    ghost var before := mem[..];
    CopyMem(mem, current - base, Le32(word));
    ghost var between := mem[..];
    CopyMem(mem, newAddress - base, shell);
    TwoCopiesPatch(before, between, mem[..], base, newAddress, current, shell);
  }

  lemma TwoCopiesPatch(before: seq<byte>, between: seq<byte>, after: seq<byte>, base: nat, low: uint64, at: uint64, shell: seq<byte>)
    requires Mapped(base, |before|, low + |shell|, |shell|) && Scanned(low + |shell|, at)
    requires Encode(at, low) < 0x1_0000_0000
    requires between == before[..at - base] + Le32(Encode(at, low)) + before[at - base + 4..]
    requires after == between[..low - base] + shell + between[low - base + |shell|..]
    ensures Patched(before, after, base, low + |shell|, at, shell)
  {
    hide Encode, Decode, ReadLe32, Le32, InBranchRange, Scanned, Word;
    var word := Encode(at, low);
    ScannedFits(low + |shell|, at);
    NearEnough(low, |shell|, at);
    TwoCopies(before, between, after, at - base, Le32(word), low - base, shell);
    BranchRoundTrip(at, low);
    WordIs(after, base, at, word);
    SameOutside(before, after, base, low + |shell|, at, shell);
  }

  lemma NearEnough(low: uint64, shellSize: nat, at: uint64)
    requires Scanned(low + shellSize, at) && (low + shellSize) % 4 == 0 && shellSize % 4 == 0 && shellSize + SCAN_MAX <= 0x8000000
    ensures at % 4 == 0 && low % 4 == 0 && InBranchRange(at, low)
  {
  }

  lemma WordIs(m: seq<byte>, base: nat, at: nat, word: uint32)
    requires base <= at && at + 4 <= base + |m| && m[at - base..at - base + 4] == Le32(word)
    ensures Word(m, base, at) == word
  {
    ReadLe32Of(m, at - base, word);
  }

  lemma SameOutside(before: seq<byte>, after: seq<byte>, base: nat, entry: nat, at: nat, shell: seq<byte>)
    requires Mapped(base, |before|, entry, |shell|) && Scanned(entry, at) && |after| == |before|
    requires forall i :: 0 <= i < |before| && !(entry - |shell| - base <= i < entry - base) && !(at - base <= i < at - base + 4) ==>
               after[i] == before[i]
    ensures forall i :: 0 <= i < |before| && !(entry - |shell| <= base + i < entry) && !(at <= base + i < at + 4) ==>
              after[i] == before[i]
  {
  }

  /** Two copies, the second one before the first. */
  lemma TwoCopies(before: seq<byte>, between: seq<byte>, after: seq<byte>, at: nat, x: seq<byte>, low: nat, y: seq<byte>)
    requires low + |y| <= at && at + |x| <= |before|
    requires between == before[..at] + x + before[at + |x|..]
    requires after == between[..low] + y + between[low + |y|..]
    ensures |after| == |before| && after[at..at + |x|] == x && after[low..low + |y|] == y
    ensures forall i :: 0 <= i < |before| && !(low <= i < low + |y|) && !(at <= i < at + |x|) ==> after[i] == before[i]
  {
    assert forall i :: low + |y| <= i < |before| ==> after[i] == between[i];
  }

  /** Patches the first call that matches; otherwise leaves the memory alone. */
  method FindAndInject(mem: array<byte>, base: nat, entry: uint64, pattern: uint32, shell: seq<byte>)
    returns (injected: bool, ghost at: nat)
    requires Mapped(base, mem.Length, entry, |shell|)
    modifies mem
    ensures injected ==> Scanned(entry, at) && Calls(old(mem[..]), base, entry, at, pattern)
    ensures injected ==> forall b :: Scanned(entry, b) && b < at ==> !Calls(old(mem[..]), base, entry, b, pattern)
    ensures injected ==> Patched(old(mem[..]), mem[..], base, entry, at, shell)
    ensures !injected ==> mem[..] == old(mem[..])
    ensures !injected ==> forall b :: Scanned(entry, b) ==> !Calls(old(mem[..]), base, entry, b, pattern)
  {
    hide Encode, Decode, ReadLe32, Patched;
    var current: nat := entry;
    at := 0;
    while current < entry + SCAN_MAX
      invariant entry <= current <= entry + SCAN_MAX && (current - entry) % 4 == 0
      invariant mem[..] == old(mem[..])
      invariant forall b :: Scanned(entry, b) && b < current ==> !Calls(mem[..], base, entry, b, pattern)
    {
      MatchIsBranch(current, entry, Word(mem[..], base, current));
      if Encode(current, entry) == Word(mem[..], base, current) && Word(mem[..], base, current + 4) == pattern {
        Inject(mem, base, entry - |shell|, current, shell);
        return true, current;
      }
      current := current + 4;
    }
    injected := false;
  }

  // ----- the loader versions

  const TEXT: nat := 0xC00

  /** Where each version of the loader has the function, and what follows its call; newest first. */
  const VERSIONS: seq<(nat, uint32)> :=
    [(0xE80, 0x52800015), (0xDD0, 0x52800015), (0xC60, 0x52800015), (0x8D0, 0x52800014), (0x850, 0xD2800002),
     (0x480, 0xD2800002), (0x400, 0xD2800002)]

  function FunctionOf(winload: nat, v: nat): nat
    requires v < |VERSIONS|
  {
    winload + TEXT + VERSIONS[v].0
  }

  predicate AllMapped(base: nat, size: nat, winload: nat, shellSize: nat) {
    forall k {:trigger FunctionOf(winload, k)} :: 0 <= k < |VERSIONS| ==> Mapped(base, size, FunctionOf(winload, k), shellSize)
  }

  /** No version before v has a call to its function in the memory. */
  ghost predicate NoneBefore(m: seq<byte>, base: nat, winload: nat, shellSize: nat, v: nat)
    requires v <= |VERSIONS| && AllMapped(base, |m|, winload, shellSize)
  {
    forall k, b :: 0 <= k < v && Scanned(FunctionOf(winload, k), b) ==> !Calls(m, base, FunctionOf(winload, k), b, VERSIONS[k].1)
  }

  /** Tries the versions in turn and patches at most once, for the first version that matches. */
  method PatchLoader(mem: array<byte>, base: nat, winload: uint64, shell: seq<byte>)
    returns (injected: bool, ghost version: nat, ghost at: nat)
    requires AllMapped(base, mem.Length, winload, |shell|)
    modifies mem
    ensures injected ==> version < |VERSIONS| && Scanned(FunctionOf(winload, version), at)
    ensures injected ==> Calls(old(mem[..]), base, FunctionOf(winload, version), at, VERSIONS[version].1)
    ensures injected ==> Patched(old(mem[..]), mem[..], base, FunctionOf(winload, version), at, shell)
    ensures injected ==> NoneBefore(old(mem[..]), base, winload, |shell|, version)
    ensures !injected ==> mem[..] == old(mem[..]) && NoneBefore(old(mem[..]), base, winload, |shell|, |VERSIONS|)
  {
    hide Decode, ReadLe32, Patched, Calls;
    injected, at := false, 0;
    for v := 0 to |VERSIONS|
      invariant !injected && mem[..] == old(mem[..]) && NoneBefore(mem[..], base, winload, |shell|, v)
    {
      assert Mapped(base, mem.Length, FunctionOf(winload, v), |shell|);
      injected, at := FindAndInject(mem, base, FunctionOf(winload, v), VERSIONS[v].1, shell);
      if injected {
        version := v;
        return;
      }
    }
    version := 0;
  }
}
