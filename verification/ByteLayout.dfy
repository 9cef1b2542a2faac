/** What stands where in a byte string. */
module ByteLayout {
  import opened Bytes

  /** Some bytes stand at an offset. */
  predicate Holds(b: seq<byte>, at: nat, x: seq<byte>) {
    at + |x| <= |b| && b[at..at + |x|] == x
  }

  /** The number that the four bytes at an offset are, the lowest first. */
  function Number(b: seq<byte>, at: nat): int {
    if at + 4 > |b| then -1 else b[at] as int + 0x100 * b[at + 1] as int + 0x1_0000 * b[at + 2] as int + 0x100_0000 * b[at + 3] as int
  }

  function LongNumber(b: seq<byte>, at: nat): int {
    if at + 8 > |b| then -1 else Number(b, at) + 0x1_0000_0000 * Number(b, at + 4)
  }

  lemma WordIn(b: seq<byte>, at: nat, v: uint32)
    requires Holds(b, at, Le32(v))
    ensures Number(b, at) == v
  {
    hide Le32;
    ReadLe32Of(b, at, v);
  }
}
