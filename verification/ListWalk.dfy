/** Walking over signature lists without knowing that they are well formed: sizes are 32-bit fields in
    unsigned 64-bit arithmetic, and what lies behind the data is read along. */
module ListWalk {
  import opened Bytes
  import opened SignatureList

  const TWO_64: nat := 0x1_0000_0000_0000_0000
  const OWNER_SIZE: nat := 16

  /** What a pointer sees from its target on. */
  type Memory = nat -> byte

  /** Some data with whatever stands behind it. */
  function Seen(data: seq<byte>, behind: Memory): Memory {
    (i: nat) => if i < |data| then data[i] else behind(i - |data|)
  }

  function Window(m: Memory, at: nat, n: nat): (w: seq<byte>)
    ensures |w| == n && forall i :: 0 <= i < n ==> w[i] == m(at + i)
  {
    seq(n, i requires 0 <= i < n => m(at + i))
  }

  function Word(m: Memory, at: nat): uint32 {
    ReadLe32(Window(m, at, 4), 0)
  }

  /** Data with the memory behind it. */
  datatype Buffer = Buffer(bytes: seq<byte>, behind: Memory) {
    function View(): Memory {
      Seen(bytes, behind)
    }
  }

  datatype ListHead = ListHead(typ: seq<byte>, size: nat, headerSize: nat, signatureSize: nat) {
    /** The bytes for signatures, as the code subtracts: they wrap below zero. */
    function Room(): nat {
      (size - LIST_HEADER_SIZE - headerSize) % TWO_64
    }

    function KeySize(): nat {
      (signatureSize - OWNER_SIZE) % TWO_64
    }
  }

  /** How many signatures a list announces. */
  function CertCount(h: ListHead): nat
    requires h.signatureSize > 0
  {
    h.Room() / h.signatureSize
  }

  function HeadAt(m: Memory, at: nat): ListHead {
    ListHead(Window(m, at, 16), Word(m, at + 16), Word(m, at + 20), Word(m, at + 24))
  }

  /** Signature j of a list. */
  function SignatureAt(m: Memory, at: nat, h: ListHead, j: nat): (s: seq<byte>)
    ensures |s| == h.signatureSize
  {
    Window(m, at + LIST_HEADER_SIZE + h.headerSize + j * h.signatureSize, h.signatureSize)
  }

  /** The list is looked at: something is left, and at least as much as the list says it takes. */
  predicate Within(h: ListHead, left: nat) {
    0 < left && h.size <= left
  }

  /** What the code comes to; no answer where it divides by zero or never leaves its loop. */
  datatype Verdict = Accepted | Rejected | NoAnswer

  lemma HeadOfBytes(typ: seq<byte>, size: uint32, headerSize: uint32, signatureSize: uint32, m: Memory)
    requires |typ| == 16
    requires forall i :: 0 <= i < 28 ==> m(i) == (typ + Le32(size) + Le32(headerSize) + Le32(signatureSize))[i]
    ensures HeadAt(m, 0) == ListHead(typ, size, headerSize, signatureSize)
  {
    hide ReadLe32, Le32;
    var b := typ + Le32(size) + Le32(headerSize) + Le32(signatureSize);
    assert Window(m, 0, 16) == typ;
    assert Window(m, 16, 4) == b[16..20] == Le32(size);
    assert Window(m, 20, 4) == b[20..24] == Le32(headerSize);
    assert Window(m, 24, 4) == b[24..28] == Le32(signatureSize);
    WordIs(m, 16, size);
    WordIs(m, 20, headerSize);
    WordIs(m, 24, signatureSize);
  }

  lemma WordIs(m: Memory, at: nat, v: uint32)
    requires Window(m, at, 4) == Le32(v)
    ensures Word(m, at) == v
  {
  }

  // ----- the walk

  /** What is done about a single list: a hit, none, or no answer. */
  type Probe = (nat, ListHead) -> Verdict

  /** From list to list until one is hit, or does not fit into what is left. */
  function Walk(probe: Probe, m: Memory, at: nat, left: nat): Verdict
    decreases left
  {
    var h := HeadAt(m, at);
    if !Within(h, left) then Rejected
    else match probe(at, h)
      case Rejected => if h.size == 0 then NoAnswer else Walk(probe, m, at + h.size, left - h.size)
      case other => other
  }

  /** Where the walk stands after n lists. */
  function Skipped(m: Memory, at: nat, n: nat): (place: nat)
    ensures place >= at
    decreases n
  {
    if n == 0 then at else Skipped(m, at + HeadAt(m, at).size, n - 1)
  }

  /** List n of the walk is within the data that ends at end, and is no hit. */
  predicate PassedOver(probe: Probe, m: Memory, at: nat, end: nat, n: nat) {
    var p := Skipped(m, at, n);
    p < end && Within(HeadAt(m, p), end - p) && probe(p, HeadAt(m, p)) == Rejected
  }

  /** List n of the walk is within the data, and has no answer itself, or is no hit and of size zero. */
  predicate StuckAt(probe: Probe, m: Memory, at: nat, end: nat, n: nat) {
    var p := Skipped(m, at, n);
    var h := HeadAt(m, p);
    p < end && Within(h, end - p)
    && (probe(p, h) == NoAnswer || (probe(p, h) == Rejected && h.size == 0))
  }

  /** The first n lists are no hits. */
  ghost predicate AllPassedOver(probe: Probe, m: Memory, at: nat, end: nat, n: nat) {
    forall k: nat :: k < n ==> PassedOver(probe, m, at, end, k)
  }

  ghost predicate Stuck(probe: Probe, m: Memory, at: nat, end: nat) {
    exists n: nat :: StuckAt(probe, m, at, end, n) && AllPassedOver(probe, m, at, end, n)
  }

  lemma StuckPastOne(probe: Probe, m: Memory, at: nat, end: nat)
    requires PassedOver(probe, m, at, end, 0) && HeadAt(m, at).size > 0
    ensures Stuck(probe, m, at, end) <==> Stuck(probe, m, at + HeadAt(m, at).size, end)
  {
    hide HeadAt;
    var next := at + HeadAt(m, at).size;
    assert forall k: nat :: Skipped(m, at, k + 1) == Skipped(m, next, k);
    if n: nat :| StuckAt(probe, m, at, end, n) && AllPassedOver(probe, m, at, end, n) {
      assert StuckAt(probe, m, next, end, n - 1);
      forall k: nat | k < n - 1
        ensures PassedOver(probe, m, next, end, k)
      {
        assert PassedOver(probe, m, at, end, k + 1);
      }
    }
    if n: nat :| StuckAt(probe, m, next, end, n) && AllPassedOver(probe, m, next, end, n) {
      assert StuckAt(probe, m, at, end, n + 1);
      forall k: nat | k < n + 1
        ensures PassedOver(probe, m, at, end, k)
      {
        assert k > 0 ==> PassedOver(probe, m, next, end, k - 1);
      }
    }
  }

  /** The walk has no answer exactly if it comes to a list where it gets stuck. */
  lemma {:induction false} WalkNoAnswer(probe: Probe, m: Memory, at: nat, left: nat)
    ensures Walk(probe, m, at, left) == NoAnswer <==> Stuck(probe, m, at, at + left)
    decreases left
  {
    hide HeadAt, Stuck;
    var h := HeadAt(m, at);
    if Within(h, left) && probe(at, h) == Rejected && h.size > 0 {
      WalkNoAnswer(probe, m, at + h.size, left - h.size);
      StuckPastOne(probe, m, at, at + left);
    } else {
      StuckHere(probe, m, at, at + left);
    }
  }

  /** Where the walk ends at its first list. */
  lemma StuckHere(probe: Probe, m: Memory, at: nat, end: nat)
    requires !(PassedOver(probe, m, at, end, 0) && HeadAt(m, at).size > 0)
    ensures Stuck(probe, m, at, end) <==> StuckAt(probe, m, at, end, 0)
  {
    hide HeadAt;
    if n: nat :| StuckAt(probe, m, at, end, n) && AllPassedOver(probe, m, at, end, n) {
      assert n > 0 ==> PassedOver(probe, m, at, end, 0);
    }
  }

  /** A hit is a hit of some list. */
  lemma {:induction false} WalkHits(probe: Probe, m: Memory, at: nat, left: nat)
    requires forall p, h :: probe(p, h) != Accepted
    ensures Walk(probe, m, at, left) != Accepted
    decreases left
  {
    hide HeadAt;
    var h := HeadAt(m, at);
    if Within(h, left) && probe(at, h) == Rejected && h.size > 0 {
      WalkHits(probe, m, at + h.size, left - h.size);
    }
  }

  // ----- lists that take their headers

  /** Every list that is come to takes its own header and has signatures of some size. */
  predicate Whole(b: seq<byte>)
    decreases |b|
  {
    b == [] ||
    (&& |b| >= LIST_HEADER_SIZE && ReadLe32(b, 24) > 0
     && var size: nat, headerSize: nat := ReadLe32(b, 16), ReadLe32(b, 20);
        LIST_HEADER_SIZE + headerSize <= size && (size <= |b| ==> Whole(b[size..])))
  }

  lemma WholeIs(b: seq<byte>)
    ensures |b| < LIST_HEADER_SIZE ==> (Whole(b) <==> b == [])
    ensures |b| >= LIST_HEADER_SIZE ==>
              (Whole(b) <==> ReadLe32(b, 24) > 0 && LIST_HEADER_SIZE + ReadLe32(b, 20) <= ReadLe32(b, 16)
                             && (ReadLe32(b, 16) <= |b| ==> Whole(b[ReadLe32(b, 16)..])))
  {
    hide ReadLe32;
  }

  predicate Takes(h: ListHead) {
    h.signatureSize > 0 && LIST_HEADER_SIZE + h.headerSize <= h.size
  }

  lemma WordSeen(data: seq<byte>, behind: Memory, at: nat)
    requires at + 4 <= |data|
    ensures Word(Seen(data, behind), at) == ReadLe32(data, at)
  {
    assert Window(Seen(data, behind), at, 4) == data[at..at + 4];
  }

  /** Inside the data, the fields of a list are what the parser reads. */
  lemma HeadSeen(data: seq<byte>, behind: Memory, at: nat)
    requires at + LIST_HEADER_SIZE <= |data|
    ensures var b, h := data[at..], HeadAt(Seen(data, behind), at);
      && h.typ == b[..16] && h.size == ReadLe32(b, 16) && h.headerSize == ReadLe32(b, 20) && h.signatureSize == ReadLe32(b, 24)
  {
    hide ReadLe32;
    WordSeen(data, behind, at + 16);
    WordSeen(data, behind, at + 20);
    WordSeen(data, behind, at + 24);
    ReadLe32Slice(data, at, 16);
    ReadLe32Slice(data, at, 20);
    ReadLe32Slice(data, at, 24);
    assert Window(Seen(data, behind), at, 16) == data[at..at + 16] == data[at..][..16];
  }

  /** Where every list takes its header, a walk has an answer if every such list has one. */
  lemma {:induction false} WholeIsAnswered(probe: Probe, data: seq<byte>, behind: Memory, at: nat)
    requires at <= |data| && Whole(data[at..])
    requires forall p, h :: Takes(h) ==> probe(p, h) != NoAnswer
    ensures Walk(probe, Seen(data, behind), at, |data| - at) != NoAnswer
    decreases |data| - at
  {
    hide ReadLe32, HeadAt, Seen, Whole;
    var b, h := data[at..], HeadAt(Seen(data, behind), at);
    WholeIs(b);
    if b != [] {
      HeadSeen(data, behind, at);
      if h.size <= |b| {
        assert b[h.size..] == data[at + h.size..];
        WholeIsAnswered(probe, data, behind, at + h.size);
      }
    }
  }

  // ----- well-formed lists

  function HeadOf(l: SigList): ListHead {
    ListHead(l.typ, l.Size(), |l.header|, l.sigSize)
  }

  lemma ListIsLong(l: SigList)
    requires l.Valid()
    ensures l.Size() >= LIST_HEADER_SIZE && l.sigSize > 0
  {
  }

  lemma HeadOfList(data: seq<byte>, behind: Memory, at: nat, l: SigList)
    requires l.Valid() && at <= |data| && Head(data, at, l)
    ensures HeadAt(Seen(data, behind), at) == HeadOf(l) && CertCount(HeadOf(l)) == |l.sigs|
  {
    hide ReadLe32, Prefix;
    HeadSeen(data, behind, at);
    ReadLe32Slice(data, at, 16);
    ReadLe32Slice(data, at, 20);
    ReadLe32Slice(data, at, 24);
    assert data[at..][..16] == data[at..at + 16];
  }

  lemma SignatureRange(data: seq<byte>, at: nat, l: SigList)
    requires l.Valid() && at <= |data| && Head(data, at, l)
    ensures LIST_HEADER_SIZE + |l.header| <= l.Size() && at + l.Size() <= |data|
    ensures data[at + LIST_HEADER_SIZE + |l.header|..at + l.Size()] == Flat(l.sigs)
  {
    hide ReadLe32, Prefix, SignatureCount;
  }

  lemma TailPart(x: seq<byte>, g: seq<byte>, i: nat, j: nat)
    requires i <= j <= |g|
    ensures (x + g)[|x| + i..|x| + j] == g[i..j]
  {
  }

  lemma Part(s: seq<byte>, from: nat, to: nat, i: nat, j: nat)
    requires from <= to <= |s| && i <= j <= to - from
    ensures s[from..to][i..j] == s[from + i..from + j]
  {
    var t := s[from..to];
    assert forall k :: i <= k < j ==> t[k] == s[from + k];
    assert |t[i..j]| == |s[from + i..from + j]|;
  }

  lemma WindowInside(data: seq<byte>, behind: Memory, at: nat, n: nat)
    requires at + n <= |data|
    ensures Window(Seen(data, behind), at, n) == data[at..at + n]
  {
  }

  lemma NextMultiple(j: nat, n: nat)
    ensures (j + 1) * n == j * n + n
  {
  }

  lemma {:induction false} SignaturePlace(sigs: seq<seq<byte>>, n: nat, j: nat)
    requires j < |sigs| && forall i :: 0 <= i < |sigs| ==> |sigs[i]| == n
    ensures j * n + n <= |Flat(sigs)| && Flat(sigs)[j * n..j * n + n] == sigs[j]
    decreases j
  {
    if j == 0 {
      assert Flat(sigs)[0..n] == sigs[0];
    } else {
      SignaturePlace(sigs[1..], n, j - 1);
      NextMultiple(j - 1, n);
      BehindFirst(sigs, (j - 1) * n, n);
    }
  }

  /** A piece of all but the first of some byte strings, in all of them. */
  lemma BehindFirst(sigs: seq<seq<byte>>, a: nat, n: nat)
    requires sigs != [] && a + n <= |Flat(sigs[1..])|
    ensures |sigs[0]| + a + n <= |Flat(sigs)|
    ensures Flat(sigs)[|sigs[0]| + a..|sigs[0]| + a + n] == Flat(sigs[1..])[a..a + n]
  {
    TailPart(sigs[0], Flat(sigs[1..]), a, a + n);
  }

  /** Signature j of a list that is all there. */
  lemma SignatureOfList(data: seq<byte>, behind: Memory, at: nat, l: SigList, j: nat)
    requires l.Valid() && at <= |data| && Head(data, at, l) && j < |l.sigs|
    ensures SignatureAt(Seen(data, behind), at, HeadOf(l), j) == l.sigs[j]
    ensures at + LIST_HEADER_SIZE + |l.header| + j * l.sigSize + l.sigSize <= |data|
  {
    hide ReadLe32, Prefix, SignatureCount, Flat, Head, Seen, SigList.Size, SigList.Valid, Window;
    ValidSigs(l);
    var n := at + LIST_HEADER_SIZE + |l.header|;
    SignatureRange(data, at, l);
    SignaturePlace(l.sigs, l.sigSize, j);
    Part(data, n, at + l.Size(), j * l.sigSize, j * l.sigSize + l.sigSize);
    WindowInside(data, behind, n + j * l.sigSize, l.sigSize);
  }

  lemma ValidSigs(l: SigList)
    requires l.Valid()
    ensures forall i :: 0 <= i < |l.sigs| ==> |l.sigs[i]| == l.sigSize
  {
  }

  /** The probe hits exactly the lists with a property, wherever one of these lists is all there. */
  ghost predicate Finds(probe: Probe, data: seq<byte>, ls: seq<SigList>, holds: SigList -> bool) {
    forall at: nat, l :: l in ls && at <= |data| && Head(data, at, l) ==>
      probe(at, HeadOf(l)) == if holds(l) then Accepted else Rejected
  }

  ghost predicate SomeHolds(ls: seq<SigList>, holds: SigList -> bool) {
    exists l :: l in ls && holds(l)
  }

  lemma SomeHoldsIs(ls: seq<SigList>, holds: SigList -> bool)
    ensures SomeHolds(ls, holds) <==> ls != [] && (holds(ls[0]) || SomeHolds(ls[1..], holds))
  {
    if l :| l in ls && holds(l) && l != ls[0] {
      assert l in ls[1..];
    }
  }

  /** Over well-formed lists the walk hits exactly if one of them has the property. */
  lemma {:induction false} WalkFrom(probe: Probe, data: seq<byte>, behind: Memory, at: nat, ls: seq<SigList>, holds: SigList -> bool)
    requires at <= |data| && Rest(data, at, ls) && SizeAt(data, at, ls) && Finds(probe, data, ls, holds)
    ensures Walk(probe, Seen(data, behind), at, |data| - at) == if SomeHolds(ls, holds) then Accepted else Rejected
    decreases |ls|
  {
    hide ReadLe32, Rest, Head, HeadAt, SigList.Size, SigList.Valid, SomeHolds;
    SomeHoldsIs(ls, holds);
    if ls != [] {
      var l := ls[0];
      RestStep(data, at, ls);
      HeadOfList(data, behind, at, l);
      ListIsLong(l);
      WalkFrom(probe, data, behind, at + l.Size(), ls[1..], holds);
    }
  }

  lemma WalkExact(probe: Probe, data: seq<byte>, behind: Memory, holds: SigList -> bool)
    requires Parse(data).Some? && Finds(probe, data, Parse(data).value, holds)
    ensures Walk(probe, Seen(data, behind), 0, |data|) == if SomeHolds(Parse(data).value, holds) then Accepted else Rejected
  {
    hide Walk, SomeHolds, Finds, Parse, ReadLe32, Rest, Serialize;
    ParseSound(data);
    RestFrom(data, 0, Parse(data).value);
    WalkFrom(probe, data, behind, 0, Parse(data).value, holds);
  }
}
