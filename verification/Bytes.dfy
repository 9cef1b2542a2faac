/** Bytes, little-endian words and the memory copy the firmware code is written with. */
module Bytes {

  type byte = x: int | 0 <= x < 0x100
  type uint16 = x: int | 0 <= x < 0x1_0000
  type uint32 = x: int | 0 <= x < 0x1_0000_0000
  type uint64 = x: int | 0 <= x < 0x1_0000_0000_0000_0000

  datatype Option<+T> = None | Some(value: T)

  function ReadLe32(s: seq<byte>, at: nat): (v: uint32)
    requires at + 4 <= |s|
  {
    var b0: int, b1: int, b2: int, b3: int := s[at], s[at + 1], s[at + 2], s[at + 3];
    b0 + 0x100 * (b1 + 0x100 * (b2 + 0x100 * b3))
  }

  lemma ReadLe32Slice(s: seq<byte>, from: nat, at: nat)
    requires from + at + 4 <= |s|
    ensures ReadLe32(s[from..], at) == ReadLe32(s, from + at)
  {
  }

  function Le32(v: uint32): (b: seq<byte>)
    ensures |b| == 4 && ReadLe32(b, 0) == v
  {
    var v1 := v / 0x100;
    var v2 := v1 / 0x100;
    [v % 0x100, v1 % 0x100, v2 % 0x100, v2 / 0x100]
  }

  lemma ReadLe32Of(s: seq<byte>, at: nat, v: uint32)
    requires at + 4 <= |s| && s[at..at + 4] == Le32(v)
    ensures ReadLe32(s, at) == v
  {
    var w := s[at..at + 4];
    assert s[at] == w[0] && s[at + 1] == w[1] && s[at + 2] == w[2] && s[at + 3] == w[3];
  }

  /** Four bytes are determined by the word they encode. */
  lemma Le32OfRead(s: seq<byte>, at: nat)
    requires at + 4 <= |s|
    ensures Le32(ReadLe32(s, at)) == s[at..at + 4]
  {
    var b2: int, b3: int := s[at + 2], s[at + 3];
    LowByte(s[at + 2], b3);
    LowByte(s[at + 1], b2 + 0x100 * b3);
    LowByte(s[at], s[at + 1] + 0x100 * (b2 + 0x100 * b3));
  }

  lemma LowByte(b: byte, t: nat)
    ensures (b + 0x100 * t) % 0x100 == b && (b + 0x100 * t) / 0x100 == t
  {
  }

  /** CopyMem: overwrite the bytes of dst from at on with src. */
  method CopyMem(dst: array<byte>, at: nat, src: seq<byte>)
    requires at + |src| <= dst.Length
    modifies dst
    ensures dst[..] == old(dst[..at]) + src + old(dst[at + |src|..])
  {
    for i := 0 to |src|
      invariant dst[..] == old(dst[..at]) + src[..i] + old(dst[at + i..])
    {
      dst[at + i] := src[i];
    }
  }

  /** CopyMem to the end of what has been written so far. */
  method AppendMem(dst: array<byte>, at: nat, src: seq<byte>) returns (end: nat)
    requires at + |src| <= dst.Length
    modifies dst
    ensures end == at + |src| && dst[..end] == old(dst[..at]) + src
  {
    CopyMem(dst, at, src);
    end := at + |src|;
  }

  /** Moving element k of a sequence from what is still to come to what is done. */
  lemma SplitAt<T>(s: seq<T>, k: nat)
    requires k < |s|
    ensures s[k..] != [] && s[k..][0] == s[k] && s[k..][1..] == s[k + 1..]
    ensures s[..k + 1] == s[..k] + [s[k]]
  {
  }

  function Zeros(n: nat): (z: seq<byte>)
    ensures |z| == n
    ensures forall i :: 0 <= i < n ==> z[i] == 0
  {
    seq(n, _ => 0)
  }

  /** Concatenation of a sequence of byte strings. */
  function Flat(parts: seq<seq<byte>>): (b: seq<byte>)
  {
    if parts == [] then [] else parts[0] + Flat(parts[1..])
  }

  lemma {:induction false} FlatAppend(a: seq<seq<byte>>, b: seq<seq<byte>>)
    ensures Flat(a + b) == Flat(a) + Flat(b)
  {
    if a == [] {
      assert a + b == b;
    } else {
      assert (a + b)[1..] == a[1..] + b;
      FlatAppend(a[1..], b);
    }
  }
}
