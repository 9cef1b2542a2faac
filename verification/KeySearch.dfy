/** The search for the key a request was signed with, in KEK and in front of PK or of a payload. */
module KeySearch {
  import opened Bytes
  import opened ListWalk
  import opened SignatureFormat
  import opened SignatureList

  predicate SomeKey(passes: seq<byte> -> bool, m: Memory, at: nat, h: ListHead, count: nat) {
    exists j {:trigger KeyAt(m, at, h, j)} :: 0 <= j < count && passes(KeyAt(m, at, h, j))
  }

  /** What the search of KEK does about a list. */
  function KeyProbe(passes: seq<byte> -> bool, m: Memory): Probe {
    (at: nat, h: ListHead) =>
      if h.typ != CERT_X509_GUID then Rejected
      else if h.signatureSize == 0 then NoAnswer
      else if SomeKey(passes, m, at, h, CertCount(h)) then Accepted
      else Rejected
  }

  /** The search of KEK for a key that passes a test. It ends at the first list that does not fit. */
  function Scan(passes: seq<byte> -> bool, m: Memory, left: nat): Verdict {
    Walk(KeyProbe(passes, m), m, 0, left)
  }

  method ScanKeys(passes: seq<byte> -> bool, m: Memory, dataSize: nat) returns (verdict: Verdict)
    ensures verdict == Scan(passes, m, dataSize % 0x1_0000_0000)
  {
    hide HeadAt, KeyAt;
    var kekDataSize: nat, certList: nat := dataSize % 0x1_0000_0000, 0;
    ghost var probe := KeyProbe(passes, m);
    while kekDataSize > 0 && kekDataSize >= HeadAt(m, certList).size
      invariant Scan(passes, m, dataSize % 0x1_0000_0000) == Walk(probe, m, certList, kekDataSize)
      decreases kekDataSize
    {
      var h := HeadAt(m, certList);
      if h.typ == CERT_X509_GUID {
        if h.signatureSize == 0 {
          return NoAnswer;
        }
        var certCount := CertCount(h);
        for index := 0 to certCount
          invariant !SomeKey(passes, m, certList, h, index)
        {
          if passes(KeyAt(m, certList, h, index)) {
            return Accepted;
          }
        }
      }
      if h.size == 0 {
        return NoAnswer;
      }
      kekDataSize := kekDataSize - h.size;
      certList := certList + h.size;
    }
    verdict := Rejected;
  }

  /** Where no key passes, none is found. */
  lemma NoKeyPasses(passes: seq<byte> -> bool, m: Memory, left: nat)
    requires forall key :: !passes(key)
    ensures Scan(passes, m, left) != Accepted
  {
    hide Walk;
    WalkHits(KeyProbe(passes, m), m, 0, left);
  }

  /** The search has no answer exactly if it comes to an X.509 list with signatures of size zero, or to a
      list of size zero without a key that passes. */
  lemma ScanNoAnswer(passes: seq<byte> -> bool, m: Memory, left: nat)
    ensures Scan(passes, m, left) == NoAnswer <==>
            exists n: nat :: StuckInKeys(passes, m, left, n) && AllPassedOver(KeyProbe(passes, m), m, 0, left, n)
  {
    hide HeadAt, Walk, SomeKey, AllPassedOver;
    var probe := KeyProbe(passes, m);
    WalkNoAnswer(probe, m, 0, left);
    assert forall n: nat :: StuckInKeys(passes, m, left, n) <==> StuckAt(probe, m, 0, left, n);
  }

  predicate StuckInKeys(passes: seq<byte> -> bool, m: Memory, left: nat, n: nat) {
    var at := Skipped(m, 0, n);
    var h := HeadAt(m, at);
    && at < left && Within(h, left - at)
    && if h.typ == CERT_X509_GUID && h.signatureSize == 0 then true
       else h.size == 0 && (h.typ == CERT_X509_GUID ==> !SomeKey(passes, m, at, h, CertCount(h)))
  }

  /** It has one where every list takes its header. */
  lemma WholeIsScanned(passes: seq<byte> -> bool, data: seq<byte>, behind: Memory)
    requires Whole(data)
    ensures Scan(passes, Seen(data, behind), |data|) != NoAnswer
  {
    hide Whole, SomeKey, Walk;
    assert data[0..] == data;
    WholeIsAnswered(KeyProbe(passes, Seen(data, behind)), data, behind, 0);
  }

  /** Some X.509 signature of the lists holds a key that passes the test. */
  predicate Holds(passes: seq<byte> -> bool, ls: seq<SigList>) {
    exists i, j :: 0 <= i < |ls| && ls[i].typ == CERT_X509_GUID && 0 <= j < |ls[i].sigs| && |ls[i].sigs[j]| >= OWNER_SIZE
                   && passes(ls[i].sigs[j][OWNER_SIZE..])
  }

  ghost predicate HoldsKey(passes: seq<byte> -> bool, l: SigList) {
    l.typ == CERT_X509_GUID && exists j :: 0 <= j < |l.sigs| && |l.sigs[j]| >= OWNER_SIZE && passes(l.sigs[j][OWNER_SIZE..])
  }

  /** A list that is all there has a key that passes exactly if one of its signatures holds one. */
  lemma SomeKeyOfList(passes: seq<byte> -> bool, data: seq<byte>, behind: Memory, at: nat, l: SigList)
    requires l.Valid() && at <= |data| && Head(data, at, l) && l.sigSize >= OWNER_SIZE
    ensures SomeKey(passes, Seen(data, behind), at, HeadOf(l), |l.sigs|)
       <==> exists j :: 0 <= j < |l.sigs| && |l.sigs[j]| >= OWNER_SIZE && passes(l.sigs[j][OWNER_SIZE..])
  {
    hide Head, KeyAt, SigList.Size;
    forall j | 0 <= j < |l.sigs|
      ensures KeyAt(Seen(data, behind), at, HeadOf(l), j) == l.sigs[j][OWNER_SIZE..]
    {
      KeyOfSignature(data, behind, at, l, j);
    }
  }

  lemma ScanExact(passes: seq<byte> -> bool, data: seq<byte>, behind: Memory)
    requires Parse(data).Some? && KeysHaveOwners(Parse(data).value)
    ensures Scan(passes, Seen(data, behind), |data|) == if Holds(passes, Parse(data).value) then Accepted else Rejected
  {
    hide Walk, Parse, Head, SomeHolds, HoldsKey, Holds, KeyProbe;
    var ls := Parse(data).value;
    var probe, holds := KeyProbe(passes, Seen(data, behind)), (l: SigList) => HoldsKey(passes, l);
    ParseSound(data);
    forall at: nat, l | l in ls && at <= |data| && Head(data, at, l)
      ensures probe(at, HeadOf(l)) == if holds(l) then Accepted else Rejected
    {
      KeyFound(passes, data, behind, at, l);
    }
    WalkExact(probe, data, behind, holds);
    HoldsIs(passes, ls, holds);
  }

  lemma HoldsIs(passes: seq<byte> -> bool, ls: seq<SigList>, holds: SigList -> bool)
    requires forall l :: holds(l) == HoldsKey(passes, l)
    ensures Holds(passes, ls) <==> SomeHolds(ls, holds)
  {
    if i, j :| 0 <= i < |ls| && ls[i].typ == CERT_X509_GUID && 0 <= j < |ls[i].sigs| && |ls[i].sigs[j]| >= OWNER_SIZE
               && passes(ls[i].sigs[j][OWNER_SIZE..]) {
      assert HoldsKey(passes, ls[i]);
    }
    if l :| l in ls && holds(l) {
      var j :| 0 <= j < |l.sigs| && |l.sigs[j]| >= OWNER_SIZE && passes(l.sigs[j][OWNER_SIZE..]);
      var i :| 0 <= i < |ls| && ls[i] == l;
      assert passes(ls[i].sigs[j][OWNER_SIZE..]);
    }
  }

  lemma KeyFound(passes: seq<byte> -> bool, data: seq<byte>, behind: Memory, at: nat, l: SigList)
    requires l.Valid() && at <= |data| && Head(data, at, l) && (l.typ == CERT_X509_GUID ==> l.sigSize >= OWNER_SIZE)
    ensures KeyProbe(passes, Seen(data, behind))(at, HeadOf(l)) == if HoldsKey(passes, l) then Accepted else Rejected
  {
    hide Head, SomeKey, SigList.Size;
    if l.typ == CERT_X509_GUID {
      HeadOfList(data, behind, at, l);
      SomeKeyOfList(passes, data, behind, at, l);
    }
  }

  /** The key the code takes from PK, and from a payload that brings its own: the one in front. */
  function FirstKey(data: seq<byte>, behind: Memory): seq<byte> {
    KeyAt(Seen(data, behind), 0, HeadAt(Seen(data, behind), 0), 0)
  }

  /** It is the certificate of the first signature of the first list, whatever stands behind that list. */
  lemma FirstKeyIs(data: seq<byte>, behind: Memory, l: SigList)
    requires ParseOne(data) == Some(l) && l.sigs != [] && l.sigSize >= OWNER_SIZE
    ensures FirstKey(data, behind) == l.sigs[0][OWNER_SIZE..]
  {
    hide ReadLe32, Prefix, Flat, ListBytes, KeyAt, HeadAt, Head;
    ParseOneSound(data);
    assert data[0..] == data;
    var rest := data[l.Size()..];
    assert data == ListBytes(l) + rest;
    HeadOfSlice(data, 0, l, rest);
    HeadOfList(data, behind, 0, l);
    KeyOfSignature(data, behind, 0, l, 0);
  }
}
