/** FilterSignatureList, over raw bytes: the signatures that the old data holds are taken out of the new
    data. Both are walked over as they are, with the memory behind them. */
module SignatureFilter {
  import opened Bits
  import opened Bytes
  import opened Efi
  import opened ListWalk
  import opened SignatureList

  // ----- one signature against the old data

  predicate SomeSignature(m: Memory, at: nat, h: ListHead, cert: seq<byte>, count: nat) {
    exists j :: 0 <= j < count && SignatureAt(m, at, h, j) == cert
  }

  /** What the search for a signature does about an old list. */
  function CertProbe(m: Memory, typ: seq<byte>, cert: seq<byte>): Probe {
    (at: nat, h: ListHead) =>
      if h.typ != typ || h.signatureSize != |cert| then Rejected
      else if h.signatureSize == 0 then NoAnswer
      else if SomeSignature(m, at, h, cert, CertCount(h)) then Accepted
      else Rejected
  }

  /** Is there a list of this type and signature size that holds the signature? */
  function Search(old_: Buffer, typ: seq<byte>, cert: seq<byte>): Verdict {
    Walk(CertProbe(old_.View(), typ, cert), old_.View(), 0, |old_.bytes|)
  }

  /** The innermost loop: the signatures of one old list. */
  method SearchList(m: Memory, certList: nat, h: ListHead, cert: seq<byte>) returns (found: bool)
    requires h.signatureSize == |cert| > 0
    ensures found == SomeSignature(m, certList, h, cert, CertCount(h))
  {
    hide Window;
    var at := certList + LIST_HEADER_SIZE + h.headerSize;
    for index := 0 to CertCount(h)
      invariant at == certList + LIST_HEADER_SIZE + h.headerSize + index * h.signatureSize
      invariant !SomeSignature(m, certList, h, cert, index)
    {
      if Window(m, at, h.signatureSize) == cert {
        assert SignatureAt(m, certList, h, index) == cert;
        return true;
      }
      NextMultiple(index, h.signatureSize);
      at := at + h.signatureSize;
    }
    found := false;
  }

  /** The loop over the old lists. */
  method FindSignature(old_: Buffer, typ: seq<byte>, cert: seq<byte>) returns (verdict: Verdict)
    requires cert != []
    ensures verdict == Search(old_, typ, cert)
  {
    hide HeadAt, SomeSignature, Seen;
    var m, size: nat, certList: nat := old_.View(), |old_.bytes|, 0;
    ghost var probe := CertProbe(m, typ, cert);
    while size > 0 && size >= HeadAt(m, certList).size
      invariant Search(old_, typ, cert) == Walk(probe, m, certList, size)
      decreases size
    {
      var h := HeadAt(m, certList);
      if h.typ == typ && h.signatureSize == |cert| {
        var found := SearchList(m, certList, h, cert);
        if found {
          return Accepted;
        }
      }
      if h.size == 0 {
        return NoAnswer;
      }
      size, certList := size - h.size, certList + h.size;
    }
    verdict := Rejected;
  }

  // ----- one new list

  /** What the filter leaves: bytes, or it never ends, or it writes more than it asked scratch memory for. */
  datatype Filtering = Done(bytes: seq<byte>) | Never | Overruns

  /** The signatures of a list that are kept so far. */
  datatype Keeping = Keeps(sigs: seq<seq<byte>>) | Hangs | Spills

  /** What a list takes in the scratch data: nothing before its first kept signature. */
  function CopySize(h: ListHead, sigs: seq<seq<byte>>): nat {
    if sigs == [] then 0 else LIST_HEADER_SIZE + h.headerSize + |Flat(sigs)|
  }

  /** The first n signatures of a list, with room for the copies of those to keep. */
  function KeepUpTo(old_: Buffer, m: Memory, at: nat, h: ListHead, room: nat, n: nat): Keeping
    decreases n
  {
    if n == 0 then Keeps([])
    else match KeepUpTo(old_, m, at, h, room, n - 1)
      case Keeps(sigs) => KeepOne(old_, m, at, h, room, n - 1, sigs)
      case other => other
  }

  function KeepOne(old_: Buffer, m: Memory, at: nat, h: ListHead, room: nat, j: nat, sigs: seq<seq<byte>>): Keeping {
    var cert := SignatureAt(m, at, h, j);
    match Search(old_, h.typ, cert)
    case NoAnswer => Hangs
    case Accepted => Keeps(sigs)
    case Rejected => if CopySize(h, sigs + [cert]) > room then Spills else Keeps(sigs + [cert])
  }

  /** A copied list: its header, with the list size corrected, and the signatures kept. */
  function Copied(m: Memory, at: nat, h: ListHead, sigs: seq<seq<byte>>): (b: seq<byte>)
    ensures |b| == CopySize(h, sigs)
  {
    if sigs == [] then [] else
      Window(m, at, 16) + Le32(CopySize(h, sigs) % 0x1_0000_0000) + Window(m, at + 20, 8 + h.headerSize) + Flat(sigs)
  }

  function Added(temp: seq<byte>, m: Memory, at: nat, h: ListHead, k: Keeping): Filtering {
    match k
    case Keeps(sigs) => Done(temp + Copied(m, at, h, sigs))
    case Hangs => Never
    case Spills => Overruns
  }

  lemma {:induction false} StaysStopped(old_: Buffer, m: Memory, at: nat, h: ListHead, room: nat, i: nat, n: nat)
    requires i <= n && !KeepUpTo(old_, m, at, h, room, i).Keeps?
    ensures KeepUpTo(old_, m, at, h, room, n) == KeepUpTo(old_, m, at, h, room, i)
    decreases n
  {
    if i < n {
      StaysStopped(old_, m, at, h, room, i, n - 1);
    }
  }

  /** The scratch data of a list while it is being copied: the header still with the size of the whole list. */
  function Partial(m: Memory, at: nat, h: ListHead, sigs: seq<seq<byte>>): (b: seq<byte>)
    ensures |b| == CopySize(h, sigs)
  {
    if sigs == [] then [] else Window(m, at, LIST_HEADER_SIZE + h.headerSize) + Flat(sigs)
  }

  lemma PartialAppend(m: Memory, at: nat, h: ListHead, sigs: seq<seq<byte>>, cert: seq<byte>)
    ensures Partial(m, at, h, sigs + [cert])
         == (if sigs == [] then Window(m, at, LIST_HEADER_SIZE + h.headerSize) else Partial(m, at, h, sigs)) + cert
  {
    FlatAppend(sigs, [cert]);
    assert Flat([cert]) == cert + Flat([cert][1..]) == cert;
  }

  /** Correcting SignatureListSize in place. */
  lemma PatchedSize(pre: seq<byte>, m: Memory, at: nat, h: ListHead, sigs: seq<seq<byte>>)
    requires sigs != []
    ensures var b, size := pre + Partial(m, at, h, sigs), Le32(CopySize(h, sigs) % 0x1_0000_0000);
      b[..|pre| + 16] + size + b[|pre| + 20..] == pre + Copied(m, at, h, sigs)
  {
    hide Le32;
    var head := Window(m, at, LIST_HEADER_SIZE + h.headerSize);
    assert head[..16] == Window(m, at, 16) && head[20..] == Window(m, at + 20, 8 + h.headerSize);
    var b := pre + Partial(m, at, h, sigs);
    assert b == pre + head + Flat(sigs);
    assert b[..|pre| + 16] == pre + head[..16] && b[|pre| + 20..] == head[20..] + Flat(sigs);
  }

  /** Copy the signatures of one new list that the old data does not hold to the end of the scratch data,
      after the list header if there are any; then correct the list size in that header. */
  method CopyNewSignatures(old_: Buffer, m: Memory, newCertList: nat, h: ListHead, scratch: seq<byte>, limit: nat)
    returns (r: Filtering)
    requires h.signatureSize > 0 && |scratch| <= limit
    ensures r == Added(scratch, m, newCertList, h, KeepUpTo(old_, m, newCertList, h, limit - |scratch|, CertCount(h)))
  {
    hide Window, Search, Copied, Partial, Flat;
    ghost var room := limit - |scratch|;
    ghost var kept: seq<seq<byte>> := [];
    var newCert, copiedCount := newCertList + LIST_HEADER_SIZE + h.headerSize, 0;
    var temp := scratch;
    NothingCopied(m, newCertList, h);
    for index := 0 to CertCount(h)
      invariant newCert == newCertList + LIST_HEADER_SIZE + h.headerSize + index * h.signatureSize
      invariant KeepUpTo(old_, m, newCertList, h, room, index) == Keeps(kept) && copiedCount == |kept|
      invariant temp == scratch + Partial(m, newCertList, h, kept)
      invariant forall i :: 0 <= i < |kept| ==> |kept[i]| == h.signatureSize
    {
      var cert := Window(m, newCert, h.signatureSize);
      assert cert == SignatureAt(m, newCertList, h, index);
      var verdict := FindSignature(old_, h.typ, cert);
      if verdict == NoAnswer {
        StaysStopped(old_, m, newCertList, h, room, index + 1, CertCount(h));
        return Never;
      }
      if verdict == Rejected {
        if copiedCount == 0 {
          temp := temp + Window(m, newCertList, LIST_HEADER_SIZE + h.headerSize);
        }
        temp := temp + cert;
        PartialAppend(m, newCertList, h, kept, cert);
        if |temp| > limit {
          StaysStopped(old_, m, newCertList, h, room, index + 1, CertCount(h));
          return Overruns;
        }
        copiedCount := copiedCount + 1;
        kept := kept + [cert];
      }
      NextMultiple(index, h.signatureSize);
      newCert := newCert + h.signatureSize;
    }
    if copiedCount != 0 {
      temp := SetListSize(temp, h, copiedCount, scratch, m, newCertList, kept);
    }
    r := Done(temp);
  }

  lemma NothingCopied(m: Memory, at: nat, h: ListHead)
    ensures Partial(m, at, h, []) == Copied(m, at, h, []) == []
  {
  }

  /** Correct the size field of the list at the end of the scratch data. */
  method SetListSize(temp: seq<byte>, h: ListHead, copiedCount: nat, ghost pre: seq<byte>, ghost m: Memory, ghost at: nat,
                     ghost kept: seq<seq<byte>>) returns (r: seq<byte>)
    requires kept != [] && copiedCount == |kept| && forall i :: 0 <= i < |kept| ==> |kept[i]| == h.signatureSize
    requires temp == pre + Partial(m, at, h, kept)
    ensures r == pre + Copied(m, at, h, kept)
  {
    hide Partial, Copied, Flat, Le32;
    var signatureListSize := LIST_HEADER_SIZE + h.headerSize + copiedCount * h.signatureSize;
    FlatLength(kept, h.signatureSize);
    PatchedSize(pre, m, at, h, kept);
    var certList := |temp| - signatureListSize;
    r := temp[..certList + 16] + Le32(signatureListSize % 0x1_0000_0000) + temp[certList + 20..];
  }

  // ----- all new lists

  /** A state of the loop over the new lists, and what one turn makes of it. */
  datatype Place = Place(at: nat, left: nat, temp: seq<byte>)
  datatype Turn = Go(place: Place) | Ends | Stops(result: Filtering)

  function FilterTurn(old_: Buffer, m: Memory, limit: nat, p: Place): Turn {
    var h := HeadAt(m, p.at);
    if !Within(h, p.left) then Ends
    else if h.signatureSize == 0 then Stops(Never)
    else if |p.temp| > limit then Stops(Overruns)
    else match KeepUpTo(old_, m, p.at, h, limit - |p.temp|, CertCount(h))
      case Hangs => Stops(Never)
      case Spills => Stops(Overruns)
      case Keeps(sigs) =>
        if h.size == 0 && sigs == [] then Stops(Never)
        else Go(Place(p.at + h.size, p.left - h.size, p.temp + Copied(m, p.at, h, sigs)))
  }

  function FilterFrom(old_: Buffer, m: Memory, limit: nat, p: Place): Filtering
    decreases p.left, limit - |p.temp|
  {
    match FilterTurn(old_, m, limit, p)
    case Ends => Done(p.temp)
    case Stops(r) => r
    case Go(q) => FilterFrom(old_, m, limit, q)
  }

  /** The new data without what the old data holds. */
  function FilterBytes(old_: Buffer, new_: Buffer): Filtering {
    FilterFrom(old_, new_.View(), |new_.bytes|, Place(0, |new_.bytes|, []))
  }

  lemma FilterIs(old_: Buffer, m: Memory, limit: nat, p: Place)
    ensures var t := FilterTurn(old_, m, limit, p);
      FilterFrom(old_, m, limit, p)
      == if t.Ends? then Done(p.temp) else if t.Stops? then t.result else FilterFrom(old_, m, limit, t.place)
  {
  }

  /** Build the filtered lists as scratch data. */
  method FilterInto(old_: Buffer, m: Memory, newDataSize: nat) returns (r: Filtering)
    ensures r == FilterFrom(old_, m, newDataSize, Place(0, newDataSize, []))
  {
    hide HeadAt, FilterFrom, Copied, KeepUpTo;
    var size: nat, newCertList: nat, temp: seq<byte> := newDataSize, 0, [];
    while true
      invariant |temp| <= newDataSize
      invariant FilterFrom(old_, m, newDataSize, Place(0, newDataSize, []))
             == FilterFrom(old_, m, newDataSize, Place(newCertList, size, temp))
      decreases size, newDataSize - |temp|
    {
      var h := HeadAt(m, newCertList);
      FilterIs(old_, m, newDataSize, Place(newCertList, size, temp));
      if !(size > 0 && size >= h.size) {
        return Done(temp);
      }
      if h.signatureSize == 0 {
        return Never;
      }
      KeptFits(old_, m, newCertList, h, newDataSize - |temp|, CertCount(h));
      var copied := CopyNewSignatures(old_, m, newCertList, h, temp, newDataSize);
      if copied.Never? || copied.Overruns? {
        return copied;
      }
      if h.size == 0 && copied.bytes == temp {
        return Never;
      }
      size, newCertList, temp := size - h.size, newCertList + h.size, copied.bytes;
    }
  }

  lemma {:induction false} KeptFits(old_: Buffer, m: Memory, at: nat, h: ListHead, room: nat, n: nat)
    ensures var k := KeepUpTo(old_, m, at, h, room, n); k.Keeps? ==> CopySize(h, k.sigs) <= room
  {
    hide Search, CopySize;
    if n == 0 {
      NothingCopied(m, at, h);
      assert CopySize(h, []) == |Copied(m, at, h, [])|;
    } else {
      KeptFits(old_, m, at, h, room, n - 1);
    }
  }

  /** FilterSignatureList: the new lists are replaced in place. GetScratchBuffer may fail; where more is
      written than it was asked for, nothing is known. */
  method FilterSignatureList(old_: Buffer, newData: array<byte>, behind: Memory, scratchAvailable: bool)
    returns (status: Status, resultSize: nat, overruns: bool)
    modifies newData
    ensures resultSize <= newData.Length
    ensures newData.Length == 0 ==> status == Success && resultSize == 0 && !overruns
    ensures newData.Length > 0 && !scratchAvailable ==>
      status == OutOfResources && resultSize == newData.Length && newData[..] == old(newData[..]) && !overruns
    ensures newData.Length > 0 && scratchAvailable ==>
      match FilterBytes(old_, Buffer(old(newData[..]), behind))
      case Done(bytes) => status == Success && resultSize == |bytes| && !overruns
                          && newData[..] == bytes + old(newData[resultSize..])
      case Never => status == NoReturn && newData[..] == old(newData[..]) && !overruns
      case Overruns => overruns
  {
    overruns := false;
    if newData.Length == 0 {
      return Success, 0, false;
    }
    if !scratchAvailable {
      return OutOfResources, newData.Length, false;
    }
    hide FilterFrom;
    var new_ := Buffer(newData[..], behind);
    DoneFits(old_, new_);
    var filtered := FilterInto(old_, new_.View(), newData.Length);
    match filtered
    case Never =>
      return NoReturn, newData.Length, false;
    case Overruns =>
      return Success, newData.Length, true;
    case Done(temp) =>
      CopyMem(newData, 0, temp);
      return Success, |temp|, false;
  }

  lemma DoneFits(old_: Buffer, new_: Buffer)
    ensures FilterBytes(old_, new_).Done? ==> |FilterBytes(old_, new_).bytes| <= |new_.bytes|
  {
    hide FilterFrom;
    DoneFitsFrom(old_, new_.View(), |new_.bytes|, Place(0, |new_.bytes|, []));
  }

  lemma {:induction false} DoneFitsFrom(old_: Buffer, m: Memory, limit: nat, p: Place)
    requires |p.temp| <= limit
    ensures var r := FilterFrom(old_, m, limit, p); r.Done? ==> |r.bytes| <= limit
    decreases p.left, limit - |p.temp|
  {
    hide HeadAt, Copied, KeepUpTo;
    var h := HeadAt(m, p.at);
    if FilterTurn(old_, m, limit, p).Go? {
      KeptFits(old_, m, p.at, h, limit - |p.temp|, CertCount(h));
      DoneFitsFrom(old_, m, limit, FilterTurn(old_, m, limit, p).place);
    }
  }

  // ----- when the filter comes to an end

  predicate StuckInSignatures(old_: Buffer, typ: seq<byte>, cert: seq<byte>, n: nat) {
    var m, at := old_.View(), Skipped(old_.View(), 0, n);
    var h := HeadAt(m, at);
    && at < |old_.bytes| && Within(h, |old_.bytes| - at) && h.size == 0
    && (h.typ == typ && h.signatureSize == |cert| > 0 ==> !SomeSignature(m, at, h, cert, CertCount(h)))
  }

  /** The search for a signature never ends exactly if it comes to an old list of size zero that does not
      hold it. */
  lemma SearchNoAnswer(old_: Buffer, typ: seq<byte>, cert: seq<byte>)
    requires cert != []
    ensures Search(old_, typ, cert) == NoAnswer <==>
            exists n: nat :: StuckInSignatures(old_, typ, cert, n)
                             && AllPassedOver(CertProbe(old_.View(), typ, cert), old_.View(), 0, |old_.bytes|, n)
  {
    hide HeadAt, Walk, SomeSignature, AllPassedOver, Seen;
    var probe := CertProbe(old_.View(), typ, cert);
    WalkNoAnswer(probe, old_.View(), 0, |old_.bytes|);
    assert forall n: nat :: StuckInSignatures(old_, typ, cert, n) <==> StuckAt(probe, old_.View(), 0, |old_.bytes|, n);
  }

  lemma WholeIsSearched(old_: Buffer, typ: seq<byte>, cert: seq<byte>)
    requires Whole(old_.bytes)
    ensures Search(old_, typ, cert) != NoAnswer
  {
    hide Whole, SomeSignature, Walk, Seen;
    assert old_.bytes[0..] == old_.bytes;
    WholeIsAnswered(CertProbe(old_.View(), typ, cert), old_.bytes, old_.behind, 0);
  }

  /** The signatures of a list are never done with exactly if the search for one of them never ends. */
  lemma {:induction false} KeepHangs(old_: Buffer, m: Memory, at: nat, h: ListHead, room: nat, n: nat)
    ensures KeepUpTo(old_, m, at, h, room, n) == Hangs
       <==> exists j: nat :: j < n && KeepUpTo(old_, m, at, h, room, j).Keeps?
                             && Search(old_, h.typ, SignatureAt(m, at, h, j)) == NoAnswer
  {
    hide Search, SignatureAt, CopySize;
    if n > 0 {
      KeepHangs(old_, m, at, h, room, n - 1);
      if KeepUpTo(old_, m, at, h, room, n) == Hangs && KeepUpTo(old_, m, at, h, room, n - 1).Keeps? {
        assert n - 1 < n && Search(old_, h.typ, SignatureAt(m, at, h, n - 1)) == NoAnswer;
      }
    }
  }

  /** A new list the filter never gets past: its signatures have size zero, or the search for one that it
      comes to never ends, or it has size zero itself and nothing of it is kept. */
  ghost predicate NeverPast(old_: Buffer, m: Memory, limit: nat, p: Place) {
    var h := HeadAt(m, p.at);
    && Within(h, p.left)
    && (h.signatureSize == 0
        || (|p.temp| <= limit
            && ((exists j: nat :: j < CertCount(h) && KeepUpTo(old_, m, p.at, h, limit - |p.temp|, j).Keeps?
                                  && Search(old_, h.typ, SignatureAt(m, p.at, h, j)) == NoAnswer)
                || (h.size == 0 && KeepUpTo(old_, m, p.at, h, limit - |p.temp|, CertCount(h)) == Keeps([])))))
  }

  lemma NeverPastIs(old_: Buffer, m: Memory, limit: nat, p: Place)
    ensures NeverPast(old_, m, limit, p) <==> FilterTurn(old_, m, limit, p) == Stops(Never)
  {
    hide HeadAt, KeepUpTo, Search, SignatureAt, Copied;
    var h := HeadAt(m, p.at);
    if h.signatureSize > 0 && |p.temp| <= limit {
      KeepHangs(old_, m, p.at, h, limit - |p.temp|, CertCount(h));
    }
  }

  /** n turns of the loop over the new lists. */
  function Turns(old_: Buffer, m: Memory, limit: nat, p: Place, n: nat): Turn
    decreases n
  {
    if n == 0 then Go(p)
    else
      var t := FilterTurn(old_, m, limit, p);
      if t.Go? then Turns(old_, m, limit, t.place, n - 1) else t
  }

  ghost predicate ComesToNeverPast(old_: Buffer, m: Memory, limit: nat, p: Place) {
    exists n: nat :: Turns(old_, m, limit, p, n).Go? && NeverPast(old_, m, limit, Turns(old_, m, limit, p, n).place)
  }

  lemma NeverPastLater(old_: Buffer, m: Memory, limit: nat, p: Place)
    requires FilterTurn(old_, m, limit, p).Go?
    ensures ComesToNeverPast(old_, m, limit, p)
       <==> ComesToNeverPast(old_, m, limit, FilterTurn(old_, m, limit, p).place)
  {
    NeverPastIs(old_, m, limit, p);
    hide FilterTurn, NeverPast;
    var next := FilterTurn(old_, m, limit, p).place;
    if n: nat :| Turns(old_, m, limit, p, n).Go? && NeverPast(old_, m, limit, Turns(old_, m, limit, p, n).place) {
      assert n > 0 && Turns(old_, m, limit, p, n) == Turns(old_, m, limit, next, n - 1);
    }
    if n: nat :| Turns(old_, m, limit, next, n).Go? && NeverPast(old_, m, limit, Turns(old_, m, limit, next, n).place) {
      assert Turns(old_, m, limit, p, n + 1) == Turns(old_, m, limit, next, n);
    }
  }

  lemma NeverPastHere(old_: Buffer, m: Memory, limit: nat, p: Place)
    requires !FilterTurn(old_, m, limit, p).Go?
    ensures ComesToNeverPast(old_, m, limit, p) <==> NeverPast(old_, m, limit, p)
  {
    hide FilterTurn, NeverPast;
    assert Turns(old_, m, limit, p, 0) == Go(p);
  }

  /** The filter never ends exactly if some number of turns brings it to such a list. */
  lemma {:induction false} FilterNever(old_: Buffer, m: Memory, limit: nat, p: Place)
    ensures FilterFrom(old_, m, limit, p) == Never <==> ComesToNeverPast(old_, m, limit, p)
    decreases p.left, limit - |p.temp|
  {
    NeverPastIs(old_, m, limit, p);
    FilterIs(old_, m, limit, p);
    TurnResults(old_, m, limit, p);
    hide NeverPast, ComesToNeverPast, FilterFrom, KeepUpTo, Copied, HeadAt;
    if FilterTurn(old_, m, limit, p).Go? {
      NeverPastLater(old_, m, limit, p);
      FilterNever(old_, m, limit, FilterTurn(old_, m, limit, p).place);
    } else {
      NeverPastHere(old_, m, limit, p);
    }
  }

  lemma TurnResults(old_: Buffer, m: Memory, limit: nat, p: Place)
    ensures var t := FilterTurn(old_, m, limit, p); t.Stops? ==> t.result == Never || t.result == Overruns
  {
  }

  // ----- new data of lists that take their headers

  /** All signatures of a list fit into what the list takes. */
  lemma SignaturesFit(h: ListHead, n: nat, sigs: seq<seq<byte>>)
    requires Takes(h) && h.size < TWO_64 && n <= CertCount(h) && |sigs| <= n
    requires forall i :: 0 <= i < |sigs| ==> |sigs[i]| == h.signatureSize
    ensures CopySize(h, sigs) <= h.size
  {
    hide Flat;
    FlatLength(sigs, h.signatureSize);
    MulMonotone(|sigs|, CertCount(h), h.signatureSize);
    DivMod(h.Room(), h.signatureSize);
  }

  ghost predicate AreSignatures(h: ListHead, sigs: seq<seq<byte>>, n: nat) {
    |sigs| <= n && forall i :: 0 <= i < |sigs| ==> |sigs[i]| == h.signatureSize
  }

  lemma {:induction false} KeepOfWhole(old_: Buffer, m: Memory, at: nat, h: ListHead, room: nat, n: nat)
    requires Takes(h) && h.size < TWO_64 && h.size <= room && n <= CertCount(h)
    ensures var k := KeepUpTo(old_, m, at, h, room, n);
      && !k.Spills? && (k.Keeps? ==> AreSignatures(h, k.sigs, n) && CopySize(h, k.sigs) <= h.size)
      && (k.Hangs? <==> exists j: nat :: j < n && Search(old_, h.typ, SignatureAt(m, at, h, j)) == NoAnswer)
  {
    hide Search, CopySize, Window;
    if n == 0 {
      SignaturesFit(h, 0, []);
    } else {
      KeepOfWhole(old_, m, at, h, room, n - 1);
      var k := KeepUpTo(old_, m, at, h, room, n - 1);
      if k.Keeps? {
        SignaturesFit(h, n, k.sigs);
        SignaturesFit(h, n, k.sigs + [SignatureAt(m, at, h, n - 1)]);
        assert Search(old_, h.typ, SignatureAt(m, at, h, n - 1)) == NoAnswer <==> KeepUpTo(old_, m, at, h, room, n).Hangs?;
      }
    }
  }

  /** Where every new list takes its header, no more is written than was asked for; and where every old
      list does so too, the filter comes to an end. */
  lemma {:induction false} WholeFrom(old_: Buffer, new_: Buffer, at: nat, temp: seq<byte>)
    requires at <= |new_.bytes| && Whole(new_.bytes[at..]) && |temp| <= at
    ensures var r := FilterFrom(old_, new_.View(), |new_.bytes|, Place(at, |new_.bytes| - at, temp));
      r != Overruns && (Whole(old_.bytes) ==> r.Done?)
    decreases |new_.bytes| - at
  {
    hide ReadLe32, HeadAt, Seen, Whole, FilterFrom, KeepUpTo, Copied, CopySize, Search;
    var b, m, limit := new_.bytes[at..], new_.View(), |new_.bytes|;
    var h, p := HeadAt(m, at), Place(at, |b|, temp);
    WholeIs(b);
    FilterIs(old_, m, limit, p);
    if b != [] {
      HeadSeen(new_.bytes, new_.behind, at);
      if h.size <= |b| {
        KeepOfWhole(old_, m, at, h, limit - |temp|, CertCount(h));
        if Whole(old_.bytes) {
          forall j: nat
            ensures Search(old_, h.typ, SignatureAt(m, at, h, j)) != NoAnswer
          {
            WholeIsSearched(old_, h.typ, SignatureAt(m, at, h, j));
          }
        }
        if FilterTurn(old_, m, limit, p).Go? {
          assert b[h.size..] == new_.bytes[at + h.size..];
          WholeFrom(old_, new_, at + h.size, FilterTurn(old_, m, limit, p).place.temp);
        }
      }
    }
  }

  lemma WholeIsFiltered(old_: Buffer, new_: Buffer)
    requires Whole(new_.bytes)
    ensures FilterBytes(old_, new_) != Overruns
    ensures Whole(old_.bytes) ==> FilterBytes(old_, new_).Done?
  {
    hide Whole, FilterFrom;
    assert new_.bytes[0..] == new_.bytes;
    WholeFrom(old_, new_, 0, []);
  }

  // ----- well-formed lists

  /** Over well-formed old lists the search finds exactly what they hold. */
  lemma SearchExact(old_: Buffer, typ: seq<byte>, cert: seq<byte>)
    requires Parse(old_.bytes).Some? && cert != []
    ensures Search(old_, typ, cert) == if Known(Parse(old_.bytes).value, typ, cert) then Accepted else Rejected
  {
    hide Walk, Parse, Head, Known, CertProbe, SomeHolds, Seen;
    var ls := Parse(old_.bytes).value;
    var probe, holds := CertProbe(old_.View(), typ, cert), (l: SigList) => l.typ == typ && cert in l.sigs;
    ParseSound(old_.bytes);
    forall at: nat, l | l in ls && at <= |old_.bytes| && Head(old_.bytes, at, l)
      ensures probe(at, HeadOf(l)) == if holds(l) then Accepted else Rejected
    {
      SignatureFound(old_, at, l, typ, cert);
    }
    WalkExact(probe, old_.bytes, old_.behind, holds);
    KnownIs(ls, typ, cert, holds);
  }

  lemma KnownIs(ls: seq<SigList>, typ: seq<byte>, cert: seq<byte>, holds: SigList -> bool)
    requires forall l :: holds(l) == (l.typ == typ && cert in l.sigs)
    ensures Known(ls, typ, cert) <==> SomeHolds(ls, holds)
  {
  }

  lemma SignatureFound(old_: Buffer, at: nat, l: SigList, typ: seq<byte>, cert: seq<byte>)
    requires l.Valid() && at <= |old_.bytes| && Head(old_.bytes, at, l) && cert != []
    ensures CertProbe(old_.View(), typ, cert)(at, HeadOf(l)) == if l.typ == typ && cert in l.sigs then Accepted else Rejected
  {
    hide Head, SigList.Size, SignatureAt, Seen;
    ValidSigs(l);
    if l.typ == typ && l.sigSize == |cert| {
      HeadOfList(old_.bytes, old_.behind, at, l);
      forall j | 0 <= j < |l.sigs|
        ensures SignatureAt(old_.View(), at, HeadOf(l), j) == l.sigs[j]
      {
        SignatureOfList(old_.bytes, old_.behind, at, l, j);
      }
    }
  }

  /** The search for one of the signatures of some lists never ends. */
  ghost predicate SomeUnanswered(old_: Buffer, ls: seq<SigList>) {
    exists s :: s in Signatures(ls) && Search(old_, s.typ, s.bytes) == NoAnswer
  }

  lemma UnansweredIs(old_: Buffer, ls: seq<SigList>)
    requires ls != []
    ensures SomeUnanswered(old_, ls)
       <==> (exists j :: 0 <= j < |ls[0].sigs| && Search(old_, ls[0].typ, ls[0].sigs[j]) == NoAnswer) || SomeUnanswered(old_, ls[1..])
  {
    hide Search;
    var first := Tagged(ls[0].typ, ls[0].sigs);
    assert forall s :: s in Signatures(ls) <==> s in first || s in Signatures(ls[1..]);
    if j :| 0 <= j < |ls[0].sigs| && Search(old_, ls[0].typ, ls[0].sigs[j]) == NoAnswer {
      assert first[j] in first;
    }
  }

  lemma SignaturesAt(data: seq<byte>, behind: Memory, at: nat, l: SigList)
    requires l.Valid() && at <= |data| && Head(data, at, l)
    ensures forall j: nat :: j < |l.sigs| ==> SignatureAt(Seen(data, behind), at, HeadOf(l), j) == l.sigs[j]
  {
    hide Head, SignatureAt, Seen, SigList.Size, SigList.Valid;
    forall j: nat | j < |l.sigs|
      ensures SignatureAt(Seen(data, behind), at, HeadOf(l), j) == l.sigs[j]
    {
      SignatureOfList(data, behind, at, l, j);
    }
  }

  lemma ListTakes(l: SigList)
    requires l.Valid()
    ensures Takes(HeadOf(l)) && HeadOf(l).size == l.Size() < TWO_64
  {
  }

  /** One well-formed new list against any old data. */
  lemma TurnOfList(old_: Buffer, new_: Buffer, at: nat, l: SigList, temp: seq<byte>)
    requires l.Valid() && at <= |new_.bytes| && Head(new_.bytes, at, l) && |temp| <= at && at + l.Size() <= |new_.bytes|
    ensures var t := FilterTurn(old_, new_.View(), |new_.bytes|, Place(at, |new_.bytes| - at, temp));
      && (t == Stops(Never) <==> exists j :: 0 <= j < |l.sigs| && Search(old_, l.typ, l.sigs[j]) == NoAnswer)
      && (t == Stops(Never) || (t.Go? && t.place.at == at + l.Size() && t.place.left == |new_.bytes| - at - l.Size()
                                && |t.place.temp| <= at + l.Size()))
  {
    hide Head, SignatureAt, Seen, SigList.Size, SigList.Valid, Search, HeadAt, KeepUpTo, Copied, CopySize, CertCount;
    HeadOfList(new_.bytes, new_.behind, at, l);
    SignaturesAt(new_.bytes, new_.behind, at, l);
    ListTakes(l);
    ListIsLong(l);
    KeepOfWhole(old_, new_.View(), at, HeadOf(l), |new_.bytes| - |temp|, |l.sigs|);
  }

  /** Well-formed new lists are never done with exactly if the search for one of their signatures never ends. */
  lemma {:induction false} ListsNeverFrom(old_: Buffer, new_: Buffer, at: nat, ls: seq<SigList>, temp: seq<byte>)
    requires at <= |new_.bytes| && Rest(new_.bytes, at, ls) && SizeAt(new_.bytes, at, ls) && |temp| <= at
    ensures FilterFrom(old_, new_.View(), |new_.bytes|, Place(at, |new_.bytes| - at, temp)) == Never <==> SomeUnanswered(old_, ls)
    decreases |ls|
  {
    hide ReadLe32, Rest, Head, Seen, SigList.Size, SigList.Valid, FilterFrom, FilterTurn, SomeUnanswered, Search;
    var m, limit, p := new_.View(), |new_.bytes|, Place(at, |new_.bytes| - at, temp);
    FilterIs(old_, m, limit, p);
    if ls == [] {
      NothingNew(old_, m, limit, at, temp);
    } else {
      var l := ls[0];
      RestStep(new_.bytes, at, ls);
      TurnOfList(old_, new_, at, l, temp);
      UnansweredIs(old_, ls);
      var t := FilterTurn(old_, m, limit, p);
      if t.Go? {
        ListsNeverFrom(old_, new_, at + l.Size(), ls[1..], t.place.temp);
      }
    }
  }

  lemma NothingNew(old_: Buffer, m: Memory, limit: nat, at: nat, temp: seq<byte>)
    ensures FilterTurn(old_, m, limit, Place(at, 0, temp)) == Ends && !SomeUnanswered(old_, [])
  {
  }

  lemma ListsNever(old_: Buffer, new_: Buffer)
    requires Parse(new_.bytes).Some?
    ensures FilterBytes(old_, new_) == Never <==> SomeUnanswered(old_, Parse(new_.bytes).value)
  {
    hide FilterFrom, SomeUnanswered, Parse, ReadLe32, Rest, Serialize;
    ParseSound(new_.bytes);
    RestFrom(new_.bytes, 0, Parse(new_.bytes).value);
    ListsNeverFrom(old_, new_, 0, Parse(new_.bytes).value, []);
  }

  // ----- well-formed lists on both sides

  /** The scratch data holds the filtered lists except for what the lists still to come leave. */
  ghost predicate Filtered(old_: seq<SigList>, new_: seq<SigList>, todo: seq<SigList>, temp: seq<byte>) {
    exists done :: AllValid(done) && temp == Serialize(done) && Filter(old_, new_) == done + Filter(old_, todo)
  }

  lemma FilterStart(old_: seq<SigList>, new_: seq<SigList>)
    ensures Filtered(old_, new_, new_, [])
  {
    assert Filter(old_, new_) == [] + Filter(old_, new_) && Serialize([]) == [];
  }

  lemma FilterStep(old_: seq<SigList>, new_: seq<SigList>, todo: seq<SigList>, temp: seq<byte>)
    requires Filtered(old_, new_, todo, temp) && todo != [] && AllValid(FilterOne(old_, todo[0]))
    ensures Filtered(old_, new_, todo[1..], temp + Serialize(FilterOne(old_, todo[0])))
  {
    hide FilterOne, ListBytes, SigList.Valid, SigList.Size;
    var f := FilterOne(old_, todo[0]);
    var done :| AllValid(done) && temp == Serialize(done) && Filter(old_, new_) == done + Filter(old_, todo);
    SerializeAppend(done, f);
    assert done + Filter(old_, todo) == (done + f) + Filter(old_, todo[1..]);
  }

  lemma FilterEnd(old_: seq<SigList>, new_: seq<SigList>, todo: seq<SigList>, temp: seq<byte>)
    requires Filtered(old_, new_, todo, temp) && todo == []
    ensures Parse(temp) == Some(Filter(old_, new_))
  {
    hide ListBytes, Parse, SigList.Valid, SigList.Size;
    var done :| AllValid(done) && temp == Serialize(done) && Filter(old_, new_) == done + Filter(old_, todo);
    assert done + Filter(old_, todo) == done;
    ParseComplete(done);
  }

  /** Of one new list, the signatures are kept that the old lists do not hold. */
  lemma {:induction false} KeepExact(old_: Buffer, new_: Buffer, at: nat, l: SigList, room: nat, n: nat)
    requires Parse(old_.bytes).Some? && l.Valid() && at <= |new_.bytes| && Head(new_.bytes, at, l)
    requires l.Size() <= room && n <= |l.sigs|
    ensures KeepUpTo(old_, new_.View(), at, HeadOf(l), room, n) == Keeps(Kept(Parse(old_.bytes).value, l.typ, l.sigs[..n]))
  {
    hide Head, SigList.Size, SigList.Valid, Search, SignatureAt, Seen, Parse, Known, CopySize, CertCount;
    if n > 0 {
      KeepExact(old_, new_, at, l, room, n - 1);
      SignatureOfList(new_.bytes, new_.behind, at, l, n - 1);
      ValidSigs(l);
      ListIsLong(l);
      SearchExact(old_, l.typ, l.sigs[n - 1]);
      assert l.sigs[..n][..n - 1] == l.sigs[..n - 1];
      HeadOfList(new_.bytes, new_.behind, at, l);
      ListTakes(l);
      KeepOfWhole(old_, new_.View(), at, HeadOf(l), room, n);
    }
  }

  /** The copy of a list is the list with the signatures kept. */
  lemma CopiedIs(new_: Buffer, at: nat, l: SigList, sigs: seq<seq<byte>>)
    requires l.Valid() && at <= |new_.bytes| && Head(new_.bytes, at, l) && sigs != [] && l.(sigs := sigs).Valid()
    ensures Copied(new_.View(), at, HeadOf(l), sigs) == Serialize([l.(sigs := sigs)])
  {
    hide ReadLe32, Flat, Le32, Seen, SignatureCount;
    var f := l.(sigs := sigs);
    SerializeOne(f);
    var n := LIST_HEADER_SIZE + |l.header|;
    var p := Prefix(l, l.Size());
    WindowInside(new_.bytes, new_.behind, at, 16);
    WindowInside(new_.bytes, new_.behind, at + 20, 8 + |l.header|);
    assert new_.bytes[at..at + n] == p;
    assert new_.bytes[at + 20..at + n] == p[20..];
    assert Prefix(f, f.Size()) == l.typ + Le32(f.Size()) + p[20..];
  }

  lemma SerializeOne(f: SigList)
    requires f.Valid()
    ensures Serialize([f]) == ListBytes(f)
  {
    assert [f][1..] == [];
  }

  lemma TurnExact(old_: Buffer, new_: Buffer, at: nat, l: SigList, temp: seq<byte>)
    requires Parse(old_.bytes).Some? && l.Valid() && at <= |new_.bytes| && Head(new_.bytes, at, l)
    requires |temp| <= at && at + l.Size() <= |new_.bytes|
    ensures AllValid(FilterOne(Parse(old_.bytes).value, l))
    ensures FilterTurn(old_, new_.View(), |new_.bytes|, Place(at, |new_.bytes| - at, temp))
         == Go(Place(at + l.Size(), |new_.bytes| - at - l.Size(), temp + Serialize(FilterOne(Parse(old_.bytes).value, l))))
    ensures |temp + Serialize(FilterOne(Parse(old_.bytes).value, l))| <= at + l.Size()
  {
    hide Head, SigList.Size, SigList.Valid, SignatureAt, Seen, Parse, Kept, KeepUpTo, Copied, CopySize, HeadAt, CertCount, ListBytes, Serialize;
    var kept := Kept(Parse(old_.bytes).value, l.typ, l.sigs);
    HeadOfList(new_.bytes, new_.behind, at, l);
    ListTakes(l);
    ListIsLong(l);
    KeepExact(old_, new_, at, l, |new_.bytes| - |temp|, |l.sigs|);
    assert l.sigs[..|l.sigs|] == l.sigs;
    KeepOfWhole(old_, new_.View(), at, HeadOf(l), |new_.bytes| - |temp|, |l.sigs|);
    FilterOneFits(Parse(old_.bytes).value, l);
    if kept == [] {
      NothingCopied(new_.View(), at, HeadOf(l));
      SerializeNone();
    } else {
      assert FilterOne(Parse(old_.bytes).value, l)[0] == l.(sigs := kept);
      CopiedIs(new_, at, l, kept);
    }
  }

  lemma {:induction false} ExactFrom(old_: Buffer, new_: Buffer, at: nat, all: seq<SigList>, todo: seq<SigList>, temp: seq<byte>)
    requires Parse(old_.bytes).Some? && at <= |new_.bytes| && Rest(new_.bytes, at, todo) && SizeAt(new_.bytes, at, todo)
    requires |temp| <= at && Filtered(Parse(old_.bytes).value, all, todo, temp)
    ensures var r := FilterFrom(old_, new_.View(), |new_.bytes|, Place(at, |new_.bytes| - at, temp));
      r.Done? && Parse(r.bytes) == Some(Filter(Parse(old_.bytes).value, all))
    decreases |todo|
  {
    hide ReadLe32, Rest, Head, Seen, SigList.Size, SigList.Valid, FilterFrom, FilterTurn, Parse, Filter, FilterOne, Filtered, Serialize;
    var m, limit, p := new_.View(), |new_.bytes|, Place(at, |new_.bytes| - at, temp);
    FilterIs(old_, m, limit, p);
    if todo == [] {
      NothingNew(old_, m, limit, at, temp);
      FilterEnd(Parse(old_.bytes).value, all, todo, temp);
    } else {
      var l := todo[0];
      RestStep(new_.bytes, at, todo);
      TurnExact(old_, new_, at, l, temp);
      FilterStep(Parse(old_.bytes).value, all, todo, temp);
      ExactFrom(old_, new_, at + l.Size(), all, todo[1..], FilterTurn(old_, m, limit, p).place.temp);
    }
  }

  /** New lists against old lists: the bytes left are the new lists filtered by the old ones. */
  lemma FilterBytesExact(old_: Buffer, new_: Buffer)
    requires Parse(old_.bytes).Some? && Parse(new_.bytes).Some?
    ensures var r := FilterBytes(old_, new_);
      r.Done? && Parse(r.bytes) == Some(Filter(Parse(old_.bytes).value, Parse(new_.bytes).value))
  {
    hide FilterFrom, Parse, ReadLe32, Rest, Serialize, Filter, Filtered;
    var ls := Parse(new_.bytes).value;
    ParseSound(new_.bytes);
    RestFrom(new_.bytes, 0, ls);
    FilterStart(Parse(old_.bytes).value, ls);
    ExactFrom(old_, new_, 0, ls, ls, []);
  }

  // ----- where it does not come to an end

  /** Old data that starts with a list whose sizes are zero: no filtering of any signature ever ends. */
  lemma ZeroListHangs(old_: Buffer, new_: Buffer)
    requires old_.bytes != [] && HeadAt(old_.View(), 0).size == 0 && HeadAt(old_.View(), 0).signatureSize == 0
    requires Parse(new_.bytes).Some? && Signatures(Parse(new_.bytes).value) != []
    ensures FilterBytes(old_, new_) == Never
  {
    hide Parse, HeadAt, FilterBytes, SomeSignature, Seen;
    var ls := Parse(new_.bytes).value;
    ParseSound(new_.bytes);
    FirstSignature(ls);
    var s := Signatures(ls)[0];
    assert Search(old_, s.typ, s.bytes) == NoAnswer;
    ListsNever(old_, new_);
  }

  lemma {:induction false} FirstSignature(ls: seq<SigList>)
    requires AllValid(ls) && Signatures(ls) != []
    ensures Signatures(ls)[0].bytes != []
  {
    hide SigList.Size;
    if ls[0].sigs == [] {
      FirstSignature(ls[1..]);
    }
  }

  /** Zero bytes are such data. */
  lemma ZeroBytesHang(n: nat, behind: Memory, new_: Buffer)
    requires n >= LIST_HEADER_SIZE && Parse(new_.bytes).Some? && Signatures(Parse(new_.bytes).value) != []
    ensures FilterBytes(Buffer(Zeros(n), behind), new_) == Never
  {
    hide Parse, HeadAt, FilterBytes, Signatures, ReadLe32;
    HeadOfBytes(Zeros(16), 0, 0, 0, Seen(Zeros(n), behind));
    ZeroListHangs(Buffer(Zeros(n), behind), new_);
  }

  /** So is a remainder of twelve bytes in front of zeros. */
  lemma RemainderHangs(typ: seq<byte>, behind: Memory, new_: Buffer)
    requires |typ| == 12 && forall i :: 0 <= i < 16 ==> behind(i) == 0
    requires Parse(new_.bytes).Some? && Signatures(Parse(new_.bytes).value) != []
    ensures FilterBytes(Buffer(typ, behind), new_) == Never
  {
    hide Parse, HeadAt, FilterBytes, Signatures, ReadLe32;
    HeadOfBytes(typ + Zeros(4), 0, 0, 0, Seen(typ, behind));
    ZeroListHangs(Buffer(typ, behind), new_);
  }
}
