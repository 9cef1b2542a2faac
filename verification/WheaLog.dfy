/** The early-storage error log: 8-bit offsets, records appended behind a checksummed header. */
module WheaLog {
  import opened Bytes
  import opened Efi

  const STORAGE_OFFSET: nat := 0x40

  function ReadLe16(s: seq<byte>, at: nat): (v: uint16)
    requires at + 2 <= |s|
  {
    var low: int, high: int := s[at], s[at + 1];
    low + 0x100 * high
  }

  function WithWord(s: seq<byte>, at: nat, v: uint16): (r: seq<byte>)
    requires at + 2 <= |s|
    ensures |r| == |s| && ReadLe16(r, at) == v
    ensures forall i :: 0 <= i < |s| && i != at && i != at + 1 ==> r[i] == s[i]
  {
    s[at := v % 0x100][at + 1 := v / 0x100]
  }

  /** The sum of the 16-bit words, not reduced. */
  function Sum(s: seq<byte>): nat
    requires |s| % 2 == 0
  {
    if s == [] then 0 else Sum(s[..|s| - 2]) + ReadLe16(s, |s| - 2)
  }

  /** Changing one word changes the sum by the difference. */
  lemma {:induction false} SumWithWord(s: seq<byte>, at: nat, v: uint16)
    requires |s| % 2 == 0 && at % 2 == 0 && at + 2 <= |s|
    ensures Sum(WithWord(s, at, v)) == Sum(s) - ReadLe16(s, at) + v
    decreases |s|
  {
    var n, r := |s| - 2, WithWord(s, at, v);
    if at == n {
      assert r[..n] == s[..n];
    } else {
      SumWithWord(s[..n], at, v);
      assert r[..n] == WithWord(s[..n], at, v);
    }
  }

  // ----- the store

  /** The place of the store: how much memory there is, how long header and record are, and where the
      header keeps its two numbers. */
  datatype Layout = Layout(capacity: nat, headerSize: nat, recordSize: nat, activeRangeAt: nat, checksumAt: nat) {
    predicate Ok() {
      && STORAGE_OFFSET + headerSize <= capacity <= 0x100
      && headerSize % 2 == 0 && recordSize % 2 == 0 && 0 < recordSize
      && activeRangeAt % 2 == 0 && checksumAt % 2 == 0 && activeRangeAt != checksumAt
      && activeRangeAt + 2 <= headerSize && checksumAt + 2 <= headerSize
    }
  }

  /** What an 8-bit index can reach from the start of the log buffer. */
  const REACH: nat := 0x100

  function HeaderIn(m: seq<byte>, l: Layout): seq<byte>
    requires l.Ok() && |m| == REACH
  {
    m[STORAGE_OFFSET..STORAGE_OFFSET + l.headerSize]
  }

  function DataIn(m: seq<byte>, l: Layout): (d: seq<byte>)
    requires l.Ok() && |m| == REACH
    ensures |d| == l.capacity - STORAGE_OFFSET - l.headerSize
  {
    m[STORAGE_OFFSET + l.headerSize..l.capacity]
  }

  /** The memory around the store. */
  function Outside(m: seq<byte>, l: Layout): (seq<byte>, seq<byte>)
    requires l.Ok() && |m| == REACH
  {
    (m[..STORAGE_OFFSET], m[l.capacity..])
  }

  function Overwritten(m: seq<byte>, at: nat, b: seq<byte>): (r: seq<byte>)
    requires at + |b| <= |m|
    ensures |r| == |m|
  {
    m[..at] + b + m[at + |b|..]
  }

  /** The test of both raw accesses, with its 8-bit difference. */
  predicate RawRefused(capacity: nat, size: nat, offset: nat) {
    size == 0 || (capacity - size) % 0x100 < offset
  }

  /** A request that is let through stays inside exactly if its size is within the capacity. */
  lemma InsideIfSmall(capacity: nat, size: nat, offset: nat)
    requires !RawRefused(capacity, size, offset)
    ensures offset + size <= capacity <==> size <= capacity
  {
  }

  /** A size above the capacity is let through here, and runs past the store. */
  lemma WrappedSizeRunsPast()
    ensures !RawRefused(0x80, 0xC0, 0x40) && 0x40 + 0xC0 > 0x80
  {
    assert (0x80 - 0xC0) % 0x100 == 0xC0;
  }

  lemma NotRefusedInside(capacity: nat, size: nat, offset: nat)
    requires size <= capacity <= 0x100
    ensures !RawRefused(capacity, size, offset) <==> 0 < size && offset + size <= capacity
  {
  }

  /** How far an index lies behind an offset, counted around. */
  function Distance(j: int, offset: nat): nat {
    (j - offset) % 0x100
  }

  lemma ReadInside(m: seq<byte>, offset: nat, bytes: seq<byte>)
    requires |m| == REACH && offset + |bytes| <= REACH
    requires forall i :: 0 <= i < |bytes| ==> bytes[i] == m[(offset + i) % 0x100]
    ensures bytes == m[offset..offset + |bytes|]
  {
    assert forall i :: 0 <= i < |bytes| ==> bytes[i] == m[offset + i];
  }

  lemma NoWrap(before: seq<byte>, after: seq<byte>, offset: nat, bytes: seq<byte>)
    requires |before| == |after| == REACH && offset + |bytes| <= REACH
    requires forall j :: 0 <= j < REACH ==>
               after[j] == if Distance(j, offset) < |bytes| then bytes[Distance(j, offset)] else before[j]
    ensures after == Overwritten(before, offset, bytes)
  {
    forall j | 0 <= j < REACH
      ensures after[j] == Overwritten(before, offset, bytes)[j]
    {
      assert Distance(j, offset) == if j >= offset then j - offset else j - offset + 0x100;
    }
  }

  class WheaStore {
    const layout: Layout
    const mem: array<byte>

    ghost predicate Mapped()
      reads this
    {
      layout.Ok() && mem.Length == REACH
    }

    function Header(): seq<byte>
      requires Mapped()
      reads this, mem
    {
      HeaderIn(mem[..], layout)
    }

    function Data(): (d: seq<byte>)
      requires Mapped()
      reads this, mem
      ensures |d| == layout.capacity - STORAGE_OFFSET - layout.headerSize
    {
      DataIn(mem[..], layout)
    }

    function ActiveRange(): uint16
      requires Mapped()
      reads this, mem
    {
      ReadLe16(Header(), layout.activeRangeAt)
    }

    ghost predicate Valid()
      reads this, mem
    {
      Mapped() && ActiveRange() <= |Data()| && ActiveRange() % 2 == 0
    }

    /** The records, one behind the other. */
    function Active(): seq<byte>
      requires Valid()
      reads this, mem
    {
      Data()[..ActiveRange()]
    }

    /** Header and records sum up to nothing. */
    predicate Checked()
      requires Valid()
      reads this, mem
    {
      (Sum(Header()) + Sum(Active())) % 0x1_0000 == 0
    }

    constructor (layout: Layout, mem: array<byte>)
      requires layout.Ok() && mem.Length == REACH
      ensures this.layout == layout && this.mem == mem && Mapped()
    {
      this.layout := layout;
      this.mem := mem;
    }

    /** All arithmetic on offsets is on eight bits. */
    function GetMaxSize(): (n: nat)
      reads this
      ensures Mapped() ==> n == layout.capacity - STORAGE_OFFSET < 0x100
    {
      if layout.capacity < STORAGE_OFFSET then 0 else (layout.capacity - STORAGE_OFFSET) % 0x100
    }

    function GetMaxDataCount(): (n: nat)
      reads this
      ensures Mapped() ==> n == layout.capacity - STORAGE_OFFSET - layout.headerSize
    {
      if GetMaxSize() < layout.headerSize then 0 else (GetMaxSize() - layout.headerSize) % 0x100
    }

    /** The indices are 8-bit numbers and wrap. A request that is not refused stays inside the store
        exactly if its size does not exceed the capacity. */
    method RawRead(size: nat, offset: nat) returns (status: Status, bytes: seq<byte>)
      requires mem.Length == REACH && size < 0x100 && offset < 0x100
      ensures status == if RawRefused(layout.capacity, size, offset) then InvalidParameter else Success
      ensures status == Success ==> |bytes| == size && forall i :: 0 <= i < size ==> bytes[i] == mem[(offset + i) % 0x100]
      ensures status == Success ==> (offset + size <= layout.capacity <==> size <= layout.capacity)
    {
      if size == 0 || (layout.capacity - size) % 0x100 < offset {
        return InvalidParameter, [];
      }
      InsideIfSmall(layout.capacity, size, offset);
      bytes := [];
      for i := 0 to size
        invariant |bytes| == i && forall j :: 0 <= j < i ==> bytes[j] == mem[(offset + j) % 0x100]
      {
        var index := (offset + i) % 0x100;
        bytes := bytes + [mem[index]];
      }
      status := Success;
    }

    method RawWrite(bytes: seq<byte>, offset: nat) returns (status: Status)
      requires mem.Length == REACH && |bytes| < 0x100 && offset < 0x100
      modifies mem
      ensures status == if RawRefused(layout.capacity, |bytes|, offset) then InvalidParameter else Success
      ensures status != Success ==> mem[..] == old(mem[..])
      ensures status == Success ==> forall j :: 0 <= j < REACH ==>
                mem[j] == if Distance(j, offset) < |bytes| then bytes[Distance(j, offset)] else old(mem[j])
      ensures status == Success ==> (offset + |bytes| <= layout.capacity <==> |bytes| <= layout.capacity)
    {
      if |bytes| == 0 || (layout.capacity - |bytes|) % 0x100 < offset {
        return InvalidParameter;
      }
      InsideIfSmall(layout.capacity, |bytes|, offset);
      for i := 0 to |bytes|
        invariant forall j :: 0 <= j < REACH ==>
                    mem[j] == if Distance(j, offset) < i then bytes[Distance(j, offset)] else old(mem[j])
      {
        var index := (offset + i) % 0x100;
        mem[index] := bytes[i];
      }
      status := Success;
    }

    method Read(size: nat, offset: nat) returns (status: Status, bytes: seq<byte>)
      requires Mapped() && size < 0x100 && offset < 0x100
      ensures status == if offset >= layout.capacity - STORAGE_OFFSET || RawRefused(layout.capacity, size, STORAGE_OFFSET + offset)
                        then InvalidParameter else Success
      ensures status == Success ==> (STORAGE_OFFSET + offset + size <= layout.capacity <==> size <= layout.capacity)
      ensures size <= layout.capacity ==>
                (status == Success <==> 0 < size && STORAGE_OFFSET + offset + size <= layout.capacity)
      ensures status == Success && size <= layout.capacity ==>
                bytes == mem[..][STORAGE_OFFSET + offset..STORAGE_OFFSET + offset + size]
    {
      if offset >= GetMaxSize() {
        return InvalidParameter, [];
      }
      status, bytes := RawRead(size, (STORAGE_OFFSET + offset) % 0x100);
      if size <= layout.capacity {
        NotRefusedInside(layout.capacity, size, STORAGE_OFFSET + offset);
        if status == Success {
          ReadInside(mem[..], STORAGE_OFFSET + offset, bytes);
        }
      }
    }

    method Write(bytes: seq<byte>, offset: nat) returns (status: Status)
      requires Mapped() && |bytes| < 0x100 && offset < 0x100
      modifies mem
      ensures status == if offset >= layout.capacity - STORAGE_OFFSET || RawRefused(layout.capacity, |bytes|, STORAGE_OFFSET + offset)
                        then InvalidParameter else Success
      ensures status != Success ==> mem[..] == old(mem[..])
      ensures status == Success ==> (STORAGE_OFFSET + offset + |bytes| <= layout.capacity <==> |bytes| <= layout.capacity)
      ensures |bytes| <= layout.capacity ==>
                (status == Success <==> 0 < |bytes| && STORAGE_OFFSET + offset + |bytes| <= layout.capacity)
      ensures status == Success && |bytes| <= layout.capacity ==>
                mem[..] == Overwritten(old(mem[..]), STORAGE_OFFSET + offset, bytes)
    {
      if offset >= GetMaxSize() {
        return InvalidParameter;
      }
      status := RawWrite(bytes, (STORAGE_OFFSET + offset) % 0x100);
      if |bytes| <= layout.capacity {
        NotRefusedInside(layout.capacity, |bytes|, STORAGE_OFFSET + offset);
        if status == Success {
          NoWrap(old(mem[..]), mem[..], STORAGE_OFFSET + offset, bytes);
        }
      }
    }

    /** The slot behind the records, if a record of this size still fits. */
    method FindSlot(size: nat) returns (status: Status, offset: nat)
      requires Valid()
      ensures status == if ActiveRange() + size <= |Data()| then Success else OutOfResources
      ensures status == Success ==> offset == ActiveRange()
    {
      var read, header := Read(layout.headerSize, 0);
      if ReadLe16(header, layout.activeRangeAt) + size <= GetMaxDataCount() {
        return Success, ReadLe16(header, layout.activeRangeAt) % 0x100;
      }
      return OutOfResources, 0;
    }

    /** The checksum that makes header and data sum up to nothing; the header's own is left out. */
    method CalculateChecksum16(header: seq<byte>) returns (status: Status, checksum: uint16)
      requires Mapped() && |header| == layout.headerSize
      ensures var range := ReadLe16(header, layout.activeRangeAt);
        && (range > layout.capacity - STORAGE_OFFSET || range % 2 == 1 ==> status == BadBufferSize)
        && (|Data()| < range <= layout.capacity - STORAGE_OFFSET && range % 2 == 0 ==> status == InvalidParameter)
        && (range <= |Data()| && range % 2 == 0 ==>
              status == Success && (Sum(WithWord(header, layout.checksumAt, checksum)) + Sum(Data()[..range])) % 0x1_0000 == 0)
    {
      hide Sum, ReadLe16, WithWord;
      var range := ReadLe16(header, layout.activeRangeAt);
      checksum := 0;
      if range > GetMaxSize() || range % 2 != 0 {
        return BadBufferSize, checksum;
      }
      var bare := WithWord(header, layout.checksumAt, 0);
      var sum;
      status, sum := AddData(Sum(bare) % 0x1_0000, range);
      if status != Success {
        return;
      }
      var total: int := sum;
      checksum := (0x1_0000 - total) % 0x1_0000;
      AddModulo(Sum(bare), Sum(Data()[..range]));
      ChecksumCancels(header, layout.checksumAt, Sum(Data()[..range]), checksum);
    }

    /** One word of the data, read through the store. */
    method ReadWord(index: nat) returns (status: Status, word: seq<byte>)
      requires Mapped() && index <= |Data()|
      ensures status == if index + 2 <= |Data()| then Success else InvalidParameter
      ensures status == Success ==> word == Data()[index..index + 2]
    {
      status, word := Read(2, (layout.headerSize + index) % 0x100);
    }

    /** The summing loop over the data. */
    method AddData(start: uint16, range: nat) returns (status: Status, sum: uint16)
      requires Mapped() && range % 2 == 0
      ensures status == if range <= |Data()| then Success else InvalidParameter
      ensures status == Success ==> sum == (start + Sum(Data()[..range])) % 0x1_0000
    {
      hide Sum, ReadLe16, Mapped, DataIn;
      ghost var data := Data();
      var index: nat := 0;
      status, sum := Success, start;
      SumOfNothing(data);
      while index < range
        invariant index % 2 == 0 && index <= range && index <= |data|
        invariant status == Success
        invariant sum == (start + Sum(data[..index])) % 0x1_0000
      {
        var word;
        status, word := ReadWord(index);
        if status != Success {
          return;
        }
        OneMoreWord(data, index);
        sum := (sum + ReadLe16(word, 0)) % 0x1_0000;
        index := index + 2;
      }
    }

    /** Writes a record behind the others; the header is not touched yet. */
    method WriteRecord(record: seq<byte>, range: nat) returns (status: Status)
      requires Mapped() && 0 < |record| && range + |record| <= |Data()|
      modifies mem
      ensures status == Success && Outside(mem[..], layout) == old(Outside(mem[..], layout)) && Header() == old(Header())
      ensures Data()[..range + |record|] == old(Data()[..range]) + record
    {
      hide HeaderIn, DataIn, Overwritten;
      status := Write(record, (layout.headerSize + range) % 0x100);
      RecordWritten(old(mem[..]), mem[..], layout, range, record);
    }

    method WriteHeader(header: seq<byte>) returns (status: Status)
      requires Mapped() && |header| == layout.headerSize
      modifies mem
      ensures status == Success && Outside(mem[..], layout) == old(Outside(mem[..], layout))
      ensures Header() == header && Data() == old(Data())
    {
      hide HeaderIn, DataIn, Overwritten;
      status := Write(header, 0);
      HeaderWritten(old(mem[..]), mem[..], layout, header);
    }

    method ReadHeader() returns (status: Status, header: seq<byte>)
      requires Mapped()
      ensures status == Success && header == Header()
    {
      status, header := Read(layout.headerSize, 0);
    }

    /** A record that fits is appended: the records before it stay as they are, header and records sum up
        to nothing again, and of the header only the two numbers change. Without room nothing changes. */
    method AddRecord(record: seq<byte>) returns (status: Status)
      requires Valid() && |record| == layout.recordSize
      modifies mem
      ensures Valid()
      ensures status == if old(ActiveRange()) + |record| <= |Data()| then Success else OutOfResources
      ensures status != Success ==> mem[..] == old(mem[..])
      ensures status == Success ==> Active() == old(Active()) + record && Checked()
      ensures Outside(mem[..], layout) == old(Outside(mem[..], layout))
      ensures forall i :: 0 <= i < layout.headerSize && !InWord(i, layout.activeRangeAt) && !InWord(i, layout.checksumAt) ==>
                Header()[i] == old(Header()[i])
    {
      hide Sum, ReadLe16, WithWord, Mapped, HeaderIn, DataIn;
      ghost var at, header0 := ActiveRange(), Header();
      RangesFit();
      var slot, header, checksum;
      status, slot := FindSlot(layout.recordSize);
      if status != Success {
        return;
      }
      status := WriteRecord(record, slot);
      status, header := ReadHeader();
      header := WithWord(header, layout.activeRangeAt, ReadLe16(header, layout.activeRangeAt) + layout.recordSize);
      OtherWord(header0, layout.activeRangeAt, at + layout.recordSize, layout.checksumAt);
      status, checksum := CalculateChecksum16(header);
      OtherWord(header, layout.checksumAt, checksum, layout.activeRangeAt);
      header := WithWord(header, layout.checksumAt, checksum);
      status := WriteHeader(header);
      status, header := ReadHeader();
    }

    /** A run of additions: the records in order, behind those there were, until one has no room. */
    method AddRecords(records: seq<seq<byte>>) returns (added: nat)
      requires Valid() && forall i :: 0 <= i < |records| ==> |records[i]| == layout.recordSize
      modifies mem
      ensures Valid() && added <= |records| && Active() == old(Active()) + Flat(records[..added])
      ensures added < |records| ==> ActiveRange() + layout.recordSize > |Data()|
      ensures added > 0 ==> Checked()
    {
      hide Sum, ReadLe16, Mapped, HeaderIn, DataIn, Flat;
      added := 0;
      FlatOfNothing();
      assert records[..0] == [];
      while added < |records|
        invariant Valid() && added <= |records| && Active() == old(Active()) + Flat(records[..added])
        invariant added > 0 ==> Checked()
      {
        var status := AddRecord(records[added]);
        if status != Success {
          return;
        }
        FlatOneMore(records, added);
        added := added + 1;
      }
    }

    lemma RangesFit()
      requires Valid()
      ensures layout.Ok() && |Header()| == layout.headerSize && |Data()| < 0x100 && |Data()| <= layout.capacity - STORAGE_OFFSET
    {
    }
  }

  lemma AddModulo(a: nat, b: nat)
    ensures (a % 0x1_0000 + b) % 0x1_0000 == (a + b) % 0x1_0000
  {
  }

  lemma FlatOfNothing()
    ensures Flat([]) == []
  {
  }

  lemma FlatOneMore(parts: seq<seq<byte>>, k: nat)
    requires k < |parts|
    ensures Flat(parts[..k + 1]) == Flat(parts[..k]) + parts[k]
  {
    assert parts[..k + 1] == parts[..k] + [parts[k]];
    FlatAppend(parts[..k], [parts[k]]);
    var one := [parts[k]];
    assert one[1..] == [] && Flat(one) == parts[k] + [];
  }

  predicate InWord(i: nat, at: nat) {
    i == at || i == at + 1
  }

  lemma SumOfNothing(s: seq<byte>)
    ensures Sum(s[..0]) == 0
  {
  }

  lemma OneMoreWord(s: seq<byte>, n: nat)
    requires n % 2 == 0 && n + 2 <= |s|
    ensures Sum(s[..n + 2]) == Sum(s[..n]) + ReadLe16(s[n..n + 2], 0)
  {
    assert s[..n + 2][..n] == s[..n];
  }

  lemma ChecksumCancels(header: seq<byte>, at: nat, rest: nat, checksum: uint16)
    requires |header| % 2 == 0 && at % 2 == 0 && at + 2 <= |header|
    requires checksum == (0x1_0000 - (Sum(WithWord(header, at, 0)) + rest) % 0x1_0000) % 0x1_0000
    ensures (Sum(WithWord(header, at, checksum)) + rest) % 0x1_0000 == 0
  {
    hide Sum, WithWord, ReadLe16;
    SumWithWord(header, at, 0);
    SumWithWord(header, at, checksum);
  }

  lemma OtherWord(s: seq<byte>, at: nat, v: uint16, other: nat)
    requires at + 2 <= |s| && other + 2 <= |s| && at % 2 == 0 && other % 2 == 0 && at != other
    ensures ReadLe16(WithWord(s, at, v), other) == ReadLe16(s, other)
    ensures forall i :: 0 <= i < |s| && !InWord(i, at) ==> WithWord(s, at, v)[i] == s[i]
  {
  }

  lemma OverwrittenAt(before: seq<byte>, after: seq<byte>, l: Layout, at: nat, b: seq<byte>)
    requires l.Ok() && |before| == REACH && STORAGE_OFFSET <= at && at + |b| <= l.capacity
    requires after == Overwritten(before, at, b)
    ensures |after| == REACH && Outside(after, l) == Outside(before, l)
    ensures forall j :: 0 <= j < REACH && !(at <= j < at + |b|) ==> after[j] == before[j]
    ensures forall i :: 0 <= i < |b| ==> after[at + i] == b[i]
  {
    assert forall j :: 0 <= j < REACH && !(at <= j < at + |b|) ==> after[j] == before[j];
    assert after[..STORAGE_OFFSET] == before[..STORAGE_OFFSET];
    assert after[l.capacity..] == before[l.capacity..];
  }

  lemma RecordWritten(before: seq<byte>, after: seq<byte>, l: Layout, range: nat, record: seq<byte>)
    requires l.Ok() && |before| == REACH && range + |record| <= |DataIn(before, l)|
    requires after == Overwritten(before, STORAGE_OFFSET + l.headerSize + range, record)
    ensures Outside(after, l) == Outside(before, l) && HeaderIn(after, l) == HeaderIn(before, l)
    ensures DataIn(after, l)[..range + |record|] == DataIn(before, l)[..range] + record
  {
    hide Overwritten, Outside;
    OverwrittenAt(before, after, l, STORAGE_OFFSET + l.headerSize + range, record);
    var h, g := HeaderIn(after, l), HeaderIn(before, l);
    assert |h| == |g| && forall i :: 0 <= i < |h| ==> h[i] == after[STORAGE_OFFSET + i] == before[STORAGE_OFFSET + i] == g[i];
    assert h == g;
    var x, y := DataIn(after, l), DataIn(before, l);
    var d := STORAGE_OFFSET + l.headerSize;
    assert forall i :: 0 <= i < range ==> x[i] == after[d + i] == before[d + i] == y[i];
    assert forall i :: 0 <= i < |record| ==> x[range + i] == after[d + range + i] == record[i];
    assert x[..range + |record|] == y[..range] + record;
  }

  lemma HeaderWritten(before: seq<byte>, after: seq<byte>, l: Layout, header: seq<byte>)
    requires l.Ok() && |before| == REACH && |header| == l.headerSize
    requires after == Overwritten(before, STORAGE_OFFSET, header)
    ensures Outside(after, l) == Outside(before, l)
    ensures HeaderIn(after, l) == header && DataIn(after, l) == DataIn(before, l)
  {
    hide Overwritten, Outside;
    OverwrittenAt(before, after, l, STORAGE_OFFSET, header);
    assert HeaderIn(after, l) == header;
    assert DataIn(after, l) == DataIn(before, l);
  }
}
