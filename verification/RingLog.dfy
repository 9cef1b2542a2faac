/** The persistent ring log in memory: the last bytes written, and where the next one goes. */
module RingLog {
  import opened Bits
  import opened Bytes

  /** Where byte m goes. */
  function Place(start: nat, m: nat, size: nat): (p: nat)
    requires size > 0
    ensures p < size
  {
    (start + m) % size
  }

  /** The ring after writing, byte by byte, from a stored offset on. */
  function After(ring: seq<byte>, start: nat, bytes: seq<byte>): (r: seq<byte>)
    requires ring != []
    ensures |r| == |ring|
  {
    if bytes == [] then ring
    else
      var last := |bytes| - 1;
      After(ring, start, bytes[..last])[Place(start, last, |ring|) := bytes[last]]
  }

  /** Numbers less than a whole turn apart have different places in the ring. */
  lemma PlacesDiffer(a: nat, b: nat, size: nat)
    requires size > 0 && a < b < a + size
    ensures a % size != b % size
  {
    DivMod(a, size);
    DivMod(b, size);
    if a % size == b % size {
      assert b - a == (b / size - a / size) * size;
      Positive(b / size - a / size, size);
      AtLeastOnce(b / size - a / size, size);
    }
  }

  lemma WholeTurn(start: nat, m: nat, size: nat)
    requires size > 0
    ensures Place(start, m + size, size) == Place(start, m, size)
  {
    var a := start + m;
    DivMod(a, size);
    assert a + size == (a / size + 1) * size + a % size;
    ModIs(a + size, size, a / size + 1, a % size);
  }

  /** The last bytes, at most one turn of them, stand in circular order, ending just before the offset
      stored next. */
  lemma {:induction false} LastBytesStand(ring: seq<byte>, start: nat, bytes: seq<byte>, m: nat)
    requires ring != [] && m < |bytes| <= m + |ring|
    ensures After(ring, start, bytes)[Place(start, m, |ring|)] == bytes[m]
    decreases |bytes|
  {
    hide Place;
    var last := |bytes| - 1;
    if m < last {
      LastBytesStand(ring, start, bytes[..last], m);
      PlacesApart(start, m, last, |ring|);
    }
  }

  lemma PlacesApart(start: nat, m: nat, n: nat, size: nat)
    requires size > 0 && m < n < m + size
    ensures Place(start, m, size) != Place(start, n, size)
  {
    PlacesDiffer(start + m, start + n, size);
  }

  /** A place of the ring is written if one of the last bytes goes there. */
  ghost predicate Written(p: nat, start: nat, n: nat, size: nat)
    requires size > 0
  {
    exists m: nat :: m < n <= m + size && p == Place(start, m, size)
  }

  /** Every other byte is as it was. */
  lemma {:induction false} OthersStay(ring: seq<byte>, start: nat, bytes: seq<byte>, p: nat)
    requires ring != [] && p < |ring| && !Written(p, start, |bytes|, |ring|)
    ensures After(ring, start, bytes)[p] == ring[p]
    decreases |bytes|
  {
    hide Place;
    if bytes != [] {
      var last, size := |bytes| - 1, |ring|;
      assert p != Place(start, last, size);
      if Written(p, start, last, size) {
        var m: nat :| m < last <= m + size && p == Place(start, m, size);
        WholeTurn(start, m, size);
        assert false;
      }
      OthersStay(ring, start, bytes[..last], p);
    }
  }

  class Ring {
    const data: array<byte>
    /** Kept behind the data, so it may hold anything at first. */
    var offset: uint64

    constructor (data: array<byte>, offset: uint64)
      ensures this.data == data && this.offset == offset
    {
      this.data := data;
      this.offset := offset;
    }

    method PutChar(c: byte)
      requires 0 < data.Length < 0x1_0000_0000_0000_0000
      modifies this, data
      ensures offset == Place(old(offset), 1, data.Length)
      ensures data[..] == After(old(data[..]), old(offset), [c])
    {
      offset := offset % data.Length;
      data[offset] := c;
      offset := (offset + 1) % data.Length;
      NextOffset(old(offset), data.Length);
      OneByte(old(data[..]), old(offset), c);
    }

    /** The offset moves on by the number of bytes; writing nothing does not even bring it into range. */
    method Write(bytes: seq<byte>)
      requires 0 < data.Length < 0x1_0000_0000_0000_0000
      modifies this, data
      ensures bytes != [] ==> offset == Place(old(offset), |bytes|, data.Length)
      ensures bytes == [] ==> offset == old(offset)
      ensures offset == Place(old(offset), |bytes|, data.Length) <==> bytes != [] || old(offset) < data.Length
      ensures data[..] == After(old(data[..]), old(offset), bytes)
    {
      hide After, Place;
      ghost var before, start := data[..], offset;
      NoBytes(before, start);
      assert bytes[..0] == [];
      for i := 0 to |bytes|
        invariant offset == if i == 0 then start else Place(start, i, data.Length)
        invariant data[..] == After(before, start, bytes[..i])
      {
        ghost var at := offset;
        PutChar(bytes[i]);
        NextPlace(at, start, i, data.Length);
        OneMoreByte(before, start, bytes, i, at);
      }
      assert bytes[..|bytes|] == bytes;
      InRange(start, data.Length);
    }
  }

  lemma InRange(start: nat, size: nat)
    requires size > 0
    ensures start == Place(start, 0, size) <==> start < size
  {
    if start < size {
      ModIs(start, size, 0, start);
    }
  }

  lemma NoBytes(ring: seq<byte>, start: nat)
    requires ring != []
    ensures After(ring, start, []) == ring
  {
  }

  lemma OneByte(ring: seq<byte>, start: nat, c: byte)
    requires ring != []
    ensures After(ring, start, [c]) == ring[Place(start, 0, |ring|) := c]
  {
    assert [c][..0] == [];
  }

  /** Reducing before or after adding one makes no difference. */
  lemma NextOffset(a: nat, size: nat)
    requires size > 0
    ensures (a % size + 1) % size == (a + 1) % size && a % size % size == a % size
  {
    DivMod(a, size);
    var q, r := a / size, a % size;
    ModIs(r, size, 0, r);
    if r + 1 < size {
      ModIs(a + 1, size, q, r + 1);
      ModIs(r + 1, size, 0, r + 1);
    } else {
      assert a + 1 == (q + 1) * size;
      ModIs(a + 1, size, q + 1, 0);
      ModIs(r + 1, size, 1, 0);
    }
  }

  lemma NextPlace(at: nat, start: nat, i: nat, size: nat)
    requires size > 0 && at == if i == 0 then start else Place(start, i, size)
    ensures Place(at, 0, size) == Place(start, i, size) && Place(at, 1, size) == Place(start, i + 1, size)
  {
    NextOffset(start + i, size);
  }

  lemma OneMoreByte(ring: seq<byte>, start: nat, bytes: seq<byte>, i: nat, at: nat)
    requires ring != [] && i < |bytes| && Place(at, 0, |ring|) == Place(start, i, |ring|)
    ensures After(After(ring, start, bytes[..i]), at, [bytes[i]]) == After(ring, start, bytes[..i + 1])
  {
    OneByte(After(ring, start, bytes[..i]), at, bytes[i]);
    assert bytes[..i + 1][..i] == bytes[..i] && bytes[..i + 1][i] == bytes[i];
  }
}
