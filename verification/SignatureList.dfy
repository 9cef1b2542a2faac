/** EFI_SIGNATURE_LIST buffers: their layout, a parser for it, and what it means to filter
    one buffer against another (UEFI 2.10, section 32.4.1). */
module SignatureList {
  import opened Bits
  import opened Bytes

  const LIST_HEADER_SIZE := 28 // type GUID, list size, header size, signature size

  datatype SigList = SigList(typ: seq<byte>, header: seq<byte>, sigSize: nat, sigs: seq<seq<byte>>) {
    function Size(): nat {
      LIST_HEADER_SIZE + |header| + |Flat(sigs)|
    }

    ghost predicate Valid() {
      && |typ| == 16
      && 0 < sigSize < 0x1_0000_0000
      && (forall i :: 0 <= i < |sigs| ==> |sigs[i]| == sigSize)
      && Size() < 0x1_0000_0000
    }
  }

  ghost predicate AllValid(ls: seq<SigList>) {
    forall i :: 0 <= i < |ls| ==> ls[i].Valid()
  }

  /** The bytes in front of a list's signatures, with the list size given apart. */
  function Prefix(l: SigList, listSize: uint32): (b: seq<byte>)
    requires |l.typ| == 16 && l.sigSize < 0x1_0000_0000 && |l.header| < 0x1_0000_0000
    ensures |b| == LIST_HEADER_SIZE + |l.header|
  {
    l.typ + Le32(listSize) + Le32(|l.header|) + Le32(l.sigSize) + l.header
  }

  function ListBytes(l: SigList): (b: seq<byte>)
    requires l.Valid()
    ensures |b| == l.Size()
  {
    Prefix(l, l.Size()) + Flat(l.sigs)
  }

  function Serialize(ls: seq<SigList>): seq<byte>
    requires AllValid(ls)
  {
    if ls == [] then [] else ListBytes(ls[0]) + Serialize(ls[1..])
  }

  lemma SerializeNone()
    ensures Serialize([]) == []
  {
  }

  /** Cut a byte string into pieces of n bytes. */
  function Chunks(b: seq<byte>, n: nat): (c: seq<seq<byte>>)
    requires 0 < n && |b| % n == 0
    ensures Flat(c) == b && |b| == |c| * n
    ensures forall i :: 0 <= i < |c| ==> |c[i]| == n
    decreases |b|
  {
    if b == [] then [] else
      assert n <= |b| && (|b| - n) % n == 0 by { DivStep(|b|, n); }
      [b[..n]] + Chunks(b[n..], n)
  }

  function ParseOne(b: seq<byte>): Option<SigList>
  {
    if |b| < LIST_HEADER_SIZE then None else
      var size: nat, hdr: nat, sig: nat := ReadLe32(b, 16), ReadLe32(b, 20), ReadLe32(b, 24);
      if sig == 0 || size < LIST_HEADER_SIZE + hdr || |b| < size || (size - LIST_HEADER_SIZE - hdr) % sig != 0
      then None
      else Some(SigList(b[..16], b[LIST_HEADER_SIZE..LIST_HEADER_SIZE + hdr], sig,
                        Chunks(b[LIST_HEADER_SIZE + hdr..size], sig)))
  }

  /** The lists a buffer holds, or None when it is not a whole number of well-formed lists. */
  function Parse(b: seq<byte>): Option<seq<SigList>>
    decreases |b|
  {
    if b == [] then Some([]) else
      match ParseOne(b)
      case None => None
      case Some(l) =>
        match Parse(b[ReadLe32(b, 16)..])
        case None => None
        case Some(rest) => Some([l] + rest)
  }

  // ----- arithmetic and layout helpers

  lemma DivStep(m: nat, n: nat)
    requires 0 < n && 0 < m && m % n == 0
    ensures n <= m && (m - n) % n == 0
  {
    DivMod(m, n);
    Positive(m / n, n);
    AtLeastOnce(m / n, n);
    assert m - n == (m / n - 1) * n;
    ModIs(m - n, n, m / n - 1, 0);
  }

  lemma {:induction false} FlatLength(sigs: seq<seq<byte>>, n: nat)
    requires forall i :: 0 <= i < |sigs| ==> |sigs[i]| == n
    ensures |Flat(sigs)| == |sigs| * n
  {
    if sigs != [] {
      FlatLength(sigs[1..], n);
    }
  }

  lemma {:induction false} ChunksOfFlat(sigs: seq<seq<byte>>, n: nat)
    requires 0 < n && forall i :: 0 <= i < |sigs| ==> |sigs[i]| == n
    ensures |Flat(sigs)| % n == 0 && Chunks(Flat(sigs), n) == sigs
  {
    FlatLength(sigs, n);
    ModIs(|sigs| * n, n, |sigs|, 0);
    if sigs != [] {
      ChunksOfFlat(sigs[1..], n);
      assert Flat(sigs)[..n] == sigs[0] && Flat(sigs)[n..] == Flat(sigs[1..]);
    }
  }

  /** The fields at the front of a serialized list, whatever follows it. */
  lemma FieldsOf(l: SigList, rest: seq<byte>)
    requires l.Valid()
    ensures var b := ListBytes(l) + rest;
      && b[..16] == l.typ
      && ReadLe32(b, 16) == l.Size() && ReadLe32(b, 20) == |l.header| && ReadLe32(b, 24) == l.sigSize
      && b[LIST_HEADER_SIZE..LIST_HEADER_SIZE + |l.header|] == l.header
      && b[..LIST_HEADER_SIZE + |l.header|] == Prefix(l, l.Size())
      && b[LIST_HEADER_SIZE + |l.header|..l.Size()] == Flat(l.sigs)
      && b[l.Size()..] == rest
      && (l.Size() - LIST_HEADER_SIZE - |l.header|) / l.sigSize == |l.sigs|
  {
    var b := ListBytes(l) + rest;
    var p := Prefix(l, l.Size());
    assert b[..|p|] == p;
    assert b[16..20] == p[16..20] == Le32(l.Size());
    assert b[20..24] == p[20..24] == Le32(|l.header|);
    assert b[24..28] == p[24..28] == Le32(l.sigSize);
    FlatLength(l.sigs, l.sigSize);
    ModIs(|l.sigs| * l.sigSize, l.sigSize, |l.sigs|, 0);
  }

  lemma ParseOneOfBytes(l: SigList, rest: seq<byte>)
    requires l.Valid()
    ensures ParseOne(ListBytes(l) + rest) == Some(l)
  {
    FieldsOf(l, rest);
    ChunksOfFlat(l.sigs, l.sigSize);
  }

  lemma ParseOneSound(b: seq<byte>)
    requires ParseOne(b).Some?
    ensures var l := ParseOne(b).value;
      l.Valid() && |b| >= LIST_HEADER_SIZE && l.Size() == ReadLe32(b, 16) && l.Size() <= |b| && ListBytes(l) == b[..l.Size()]
  {
    var l := ParseOne(b).value;
    Le32OfRead(b, 16);
    Le32OfRead(b, 20);
    Le32OfRead(b, 24);
    assert b[..LIST_HEADER_SIZE] == b[..16] + b[16..20] + b[20..24] + b[24..28];
  }

  lemma ParseStep(b: seq<byte>)
    requires b != [] && Parse(b).Some?
    ensures ParseOne(b).Some? && |b| >= ParseOne(b).value.Size() > 0
    ensures var l := ParseOne(b).value;
      Parse(b[l.Size()..]).Some? && Parse(b).value == [l] + Parse(b[l.Size()..]).value
  {
    assert ParseOne(b).Some?;
    ParseOneSound(b);
    hide ParseOne;
  }

  /** A buffer that parses is the serialization of exactly the lists it parses to. */
  lemma {:induction false} ParseSound(b: seq<byte>)
    requires Parse(b).Some?
    ensures AllValid(Parse(b).value) && Serialize(Parse(b).value) == b
    decreases |b|
  {
    hide ParseOne;
    hide ListBytes;
    if b != [] {
      ParseStep(b);
      ParseOneSound(b);
      hide Parse;
      var l := ParseOne(b).value;
      var tail := b[l.Size()..];
      ParseSound(tail);
      assert Parse(b).value[1..] == Parse(tail).value;
      assert b == ListBytes(l) + tail;
    }
  }

  lemma ParseCons(l: SigList, rest: seq<byte>)
    requires l.Valid() && Parse(rest).Some?
    ensures Parse(ListBytes(l) + rest) == Some([l] + Parse(rest).value)
  {
    var b := ListBytes(l) + rest;
    assert |b| >= LIST_HEADER_SIZE;
    assert b[ReadLe32(b, 16)..] == rest by {
      FieldsOf(l, rest);
    }
    ParseOneOfBytes(l, rest);
  }

  /** Every sequence of well-formed lists is read back from its serialization. */
  lemma {:induction false} ParseComplete(ls: seq<SigList>)
    requires AllValid(ls)
    ensures Parse(Serialize(ls)) == Some(ls)
  {
    hide ParseOne;
    hide ListBytes;
    if ls != [] {
      ParseComplete(ls[1..]);
      ParseCons(ls[0], Serialize(ls[1..]));
      assert Serialize(ls) == ListBytes(ls[0]) + Serialize(ls[1..]);
      assert ls == [ls[0]] + ls[1..];
    }
  }

  lemma {:induction false} SerializeAppend(a: seq<SigList>, b: seq<SigList>)
    requires AllValid(a) && AllValid(b)
    ensures Serialize(a + b) == Serialize(a) + Serialize(b)
  {
    if a == [] {
      assert a + b == b;
    } else {
      assert (a + b)[1..] == a[1..] + b;
      SerializeAppend(a[1..], b);
    }
  }

  /** Buffers with whole lists can be put one after the other. */
  lemma ParseConcat(a: seq<byte>, b: seq<byte>)
    requires Parse(a).Some? && Parse(b).Some?
    ensures Parse(a + b) == Some(Parse(a).value + Parse(b).value)
  {
    hide Parse, ListBytes, SigList.Valid;
    ParseSound(a);
    ParseSound(b);
    SerializeAppend(Parse(a).value, Parse(b).value);
    ParseComplete(Parse(a).value + Parse(b).value);
  }

  // ----- filtering

  /** A signature as the filter compares it; its size is the length of its bytes. */
  datatype Signature = Signature(typ: seq<byte>, bytes: seq<byte>)

  function Tagged(typ: seq<byte>, sigs: seq<seq<byte>>): (s: seq<Signature>)
    ensures |s| == |sigs| && forall i :: 0 <= i < |s| ==> s[i] == Signature(typ, sigs[i])
  {
    seq(|sigs|, i requires 0 <= i < |sigs| => Signature(typ, sigs[i]))
  }

  /** All signatures of some lists, in order. */
  function Signatures(ls: seq<SigList>): seq<Signature>
  {
    if ls == [] then [] else Tagged(ls[0].typ, ls[0].sigs) + Signatures(ls[1..])
  }

  /** The members of new that do not occur in old, in their order and number. */
  function Minus(new_: seq<Signature>, old_: seq<Signature>): seq<Signature>
  {
    if new_ == [] then []
    else (if new_[0] in old_ then [] else [new_[0]]) + Minus(new_[1..], old_)
  }

  predicate Known(old_: seq<SigList>, typ: seq<byte>, sig: seq<byte>) {
    exists i :: 0 <= i < |old_| && old_[i].typ == typ && sig in old_[i].sigs
  }

  function Kept(old_: seq<SigList>, typ: seq<byte>, sigs: seq<seq<byte>>): (k: seq<seq<byte>>)
    ensures |k| <= |sigs|
  {
    if sigs == [] then []
    else Kept(old_, typ, sigs[..|sigs| - 1]) +
         (if Known(old_, typ, sigs[|sigs| - 1]) then [] else [sigs[|sigs| - 1]])
  }

  lemma {:induction false} KeptMember(old_: seq<SigList>, typ: seq<byte>, sigs: seq<seq<byte>>)
    ensures forall s :: s in Kept(old_, typ, sigs) <==> s in sigs && !Known(old_, typ, s)
  {
    hide Known;
    if sigs != [] {
      KeptMember(old_, typ, sigs[..|sigs| - 1]);
      assert sigs == sigs[..|sigs| - 1] + [sigs[|sigs| - 1]];
    }
  }

  function FilterOne(old_: seq<SigList>, l: SigList): seq<SigList> {
    var kept := Kept(old_, l.typ, l.sigs);
    if kept == [] then [] else [l.(sigs := kept)]
  }

  function Filter(old_: seq<SigList>, new_: seq<SigList>): seq<SigList> {
    if new_ == [] then [] else FilterOne(old_, new_[0]) + Filter(old_, new_[1..])
  }

  lemma FilterNothing(old_: seq<SigList>, new_: seq<byte>)
    requires new_ == []
    ensures Parse(new_) == Some([]) && Filter(old_, []) == []
  {
  }

  lemma {:induction false} KnownIsMember(old_: seq<SigList>, typ: seq<byte>, sig: seq<byte>)
    ensures Known(old_, typ, sig) <==> Signature(typ, sig) in Signatures(old_)
  {
    if old_ != [] {
      var t, l := old_[1..], old_[0];
      KnownIsMember(t, typ, sig);
      assert Known(old_, typ, sig) <==> (l.typ == typ && sig in l.sigs) || Known(t, typ, sig) by {
        if Known(t, typ, sig) {
          var i :| 0 <= i < |t| && t[i].typ == typ && sig in t[i].sigs;
          assert old_[i + 1] == t[i];
        }
      }
      var tag := Tagged(l.typ, l.sigs);
      assert Signature(typ, sig) in tag <==> l.typ == typ && sig in l.sigs by {
        if l.typ == typ && sig in l.sigs {
          var i :| 0 <= i < |l.sigs| && l.sigs[i] == sig;
          assert tag[i] == Signature(typ, sig);
        }
      }
    }
  }

  lemma {:induction false} MinusAppend(a: seq<Signature>, b: seq<Signature>, old_: seq<Signature>)
    ensures Minus(a + b, old_) == Minus(a, old_) + Minus(b, old_)
  {
    if a == [] {
      assert a + b == b;
    } else {
      assert (a + b)[1..] == a[1..] + b;
      MinusAppend(a[1..], b, old_);
    }
  }

  lemma {:induction false} KeptIsMinus(old_: seq<SigList>, typ: seq<byte>, sigs: seq<seq<byte>>)
    ensures Tagged(typ, Kept(old_, typ, sigs)) == Minus(Tagged(typ, sigs), Signatures(old_))
  {
    if sigs != [] {
      var front, last := sigs[..|sigs| - 1], sigs[|sigs| - 1];
      KeptIsMinus(old_, typ, front);
      KnownIsMember(old_, typ, last);
      assert Tagged(typ, sigs) == Tagged(typ, front) + [Signature(typ, last)];
      MinusAppend(Tagged(typ, front), [Signature(typ, last)], Signatures(old_));
      assert Minus([Signature(typ, last)], Signatures(old_)) ==
        if Known(old_, typ, last) then [] else [Signature(typ, last)];
    }
  }

  /** The filtered lists hold exactly the new signatures that the old lists do not hold, in order,
      in well-formed and non-empty lists. */
  lemma {:induction false} FilterExact(old_: seq<SigList>, new_: seq<SigList>)
    requires AllValid(new_)
    ensures AllValid(Filter(old_, new_))
    ensures Signatures(Filter(old_, new_)) == Minus(Signatures(new_), Signatures(old_))
    ensures forall i :: 0 <= i < |Filter(old_, new_)| ==> Filter(old_, new_)[i].sigs != []
  {
    if new_ != [] {
      var l := new_[0];
      FilterExact(old_, new_[1..]);
      KeptIsMinus(old_, l.typ, l.sigs);
      MinusAppend(Tagged(l.typ, l.sigs), Signatures(new_[1..]), Signatures(old_));
      FilterOneFits(old_, l);
      var f, tail := FilterOne(old_, l), Filter(old_, new_[1..]);
      if f != [] {
        assert f + tail == [f[0]] + tail && (f + tail)[1..] == tail;
      } else {
        assert f + tail == tail;
      }
    }
  }

  lemma FilterOneFits(old_: seq<SigList>, l: SigList)
    requires l.Valid()
    ensures AllValid(FilterOne(old_, l)) && |Serialize(FilterOne(old_, l))| <= l.Size()
  {
    var kept := Kept(old_, l.typ, l.sigs);
    var f := l.(sigs := kept);
    KeptMember(old_, l.typ, l.sigs);
    assert forall i :: 0 <= i < |kept| ==> kept[i] in l.sigs;
    assert f.Size() <= l.Size() by {
      FlatLength(kept, l.sigSize);
      FlatLength(l.sigs, l.sigSize);
      MulMonotone(|kept|, |l.sigs|, l.sigSize);
    }
    if kept != [] {
      assert Serialize([f]) == ListBytes(f) + Serialize([f][1..]);
    }
  }

  lemma MulMonotone(a: nat, b: nat, n: nat)
    requires a <= b
    ensures a * n <= b * n
  {
    assert b * n == a * n + (b - a) * n;
  }

  /** Filtering never lengthens the buffer. */
  lemma {:induction false} FilterShrinks(old_: seq<SigList>, new_: seq<SigList>)
    requires AllValid(new_)
    ensures AllValid(Filter(old_, new_)) && |Serialize(Filter(old_, new_))| <= |Serialize(new_)|
  {
    FilterExact(old_, new_);
    if new_ != [] {
      FilterExact(old_, new_[1..]);
      FilterShrinks(old_, new_[1..]);
      FilterOneFits(old_, new_[0]);
      SerializeAppend(FilterOne(old_, new_[0]), Filter(old_, new_[1..]));
    }
  }

  lemma {:induction false} KeptOfKept(old_: seq<SigList>, typ: seq<byte>, sigs: seq<seq<byte>>)
    requires forall s :: s in sigs ==> !Known(old_, typ, s)
    ensures Kept(old_, typ, sigs) == sigs
  {
    hide Known;
    if sigs != [] {
      assert sigs == sigs[..|sigs| - 1] + [sigs[|sigs| - 1]];
      KeptOfKept(old_, typ, sigs[..|sigs| - 1]);
    }
  }

  /** A second run of the filter changes nothing. */
  lemma {:induction false} FilterIdempotent(old_: seq<SigList>, new_: seq<SigList>)
    ensures Filter(old_, Filter(old_, new_)) == Filter(old_, new_)
  {
    if new_ != [] {
      hide Kept, Known, FilterOne;
      FilterIdempotent(old_, new_[1..]);
      FilterOneTwice(old_, new_[0]);
      FilterAppend(old_, FilterOne(old_, new_[0]), Filter(old_, new_[1..]));
    }
  }

  lemma FilterOneTwice(old_: seq<SigList>, l: SigList)
    ensures Filter(old_, FilterOne(old_, l)) == FilterOne(old_, l)
  {
    var f := FilterOne(old_, l);
    if f != [] {
      KeptMember(old_, l.typ, l.sigs);
      KeptOfKept(old_, l.typ, f[0].sigs);
      assert f[1..] == [];
    }
  }

  lemma {:induction false} MinusMember(new_: seq<Signature>, old_: seq<Signature>, s: Signature)
    ensures s in Minus(new_, old_) <==> s in new_ && s !in old_
  {
    if new_ != [] {
      MinusMember(new_[1..], old_, s);
    }
  }

  /** Old data followed by the filtered data holds exactly the signatures of old and new data, and
      no kept signature repeats an old one. */
  lemma AppendAfterFilter(old_: seq<SigList>, new_: seq<SigList>, s: Signature)
    requires AllValid(new_)
    ensures s in Signatures(old_) + Signatures(Filter(old_, new_)) <==> s in Signatures(old_) + Signatures(new_)
    ensures !(s in Signatures(old_) && s in Signatures(Filter(old_, new_)))
  {
    FilterExact(old_, new_);
    MinusMember(Signatures(new_), Signatures(old_), s);
  }

  // ----- repeats

  predicate NoRepeats(s: seq<Signature>) {
    forall i, j :: 0 <= i < j < |s| ==> s[i] != s[j]
  }

  /** Signatures that stand twice in the new data are held by the old data. */
  predicate RepeatsOnlyKnown(new_: seq<Signature>, old_: seq<Signature>) {
    forall i, j :: 0 <= i < j < |new_| && new_[i] == new_[j] ==> new_[i] in old_
  }

  lemma {:induction false} MinusNoRepeats(new_: seq<Signature>, old_: seq<Signature>)
    ensures NoRepeats(Minus(new_, old_)) <==> RepeatsOnlyKnown(new_, old_)
  {
    if new_ == [] {
    } else {
      hide NoRepeats, RepeatsOnlyKnown;
      var s, rest := new_[0], new_[1..];
      MinusNoRepeats(rest, old_);
      MinusMember(rest, old_, s);
      RepeatsStep(new_, old_);
      if s in old_ {
        assert [] + Minus(rest, old_) == Minus(rest, old_);
      } else {
        NoRepeatsStep([s] + Minus(rest, old_));
        assert ([s] + Minus(rest, old_))[1..] == Minus(rest, old_);
      }
    }
  }

  lemma NoRepeatsStep(s: seq<Signature>)
    requires s != []
    ensures NoRepeats(s) <==> s[0] !in s[1..] && NoRepeats(s[1..])
  {
    var t := s[1..];
    assert forall i :: 0 <= i < |t| ==> t[i] == s[i + 1];
    if s[0] !in t && NoRepeats(t) {
      forall i, j | 0 <= i < j < |s|
        ensures s[i] != s[j]
      {
        assert s[j] == t[j - 1];
        if i > 0 {
          assert s[i] == t[i - 1];
        }
      }
    }
  }

  lemma RepeatsStep(new_: seq<Signature>, old_: seq<Signature>)
    requires new_ != []
    ensures RepeatsOnlyKnown(new_, old_) <==> (new_[0] in new_[1..] ==> new_[0] in old_) && RepeatsOnlyKnown(new_[1..], old_)
  {
    var t := new_[1..];
    assert forall i :: 0 <= i < |t| ==> t[i] == new_[i + 1];
    if (new_[0] in t ==> new_[0] in old_) && RepeatsOnlyKnown(t, old_) {
      forall i, j | 0 <= i < j < |new_| && new_[i] == new_[j]
        ensures new_[i] in old_
      {
        assert new_[j] == t[j - 1];
        if i > 0 {
          assert new_[i] == t[i - 1];
        }
      }
    }
  }

  lemma ApartNoRepeats(x: seq<Signature>, y: seq<Signature>)
    requires forall s :: s in y ==> s !in x
    ensures NoRepeats(x + y) <==> NoRepeats(x) && NoRepeats(y)
  {
    var z := x + y;
    assert forall i :: 0 <= i < |x| ==> z[i] == x[i];
    assert forall i :: 0 <= i < |y| ==> z[|x| + i] == y[i];
    if NoRepeats(x) && NoRepeats(y) {
      forall i, j | 0 <= i < j < |z|
        ensures z[i] != z[j]
      {
        if i >= |x| {
          assert z[i] == y[i - |x|] && z[j] == y[j - |x|];
        } else if j >= |x| {
          assert z[j] == y[j - |x|] && z[j] in y && z[i] in x;
        }
      }
    }
  }

  /** Old data with the filtered data behind it holds no signature twice exactly if the old data does not,
      and the new data repeats only what the old data holds. */
  lemma AppendRepeats(old_: seq<SigList>, new_: seq<SigList>)
    requires AllValid(old_) && AllValid(new_)
    ensures NoRepeats(Signatures(old_ + Filter(old_, new_)))
       <==> NoRepeats(Signatures(old_)) && RepeatsOnlyKnown(Signatures(new_), Signatures(old_))
  {
    hide NoRepeats, RepeatsOnlyKnown, AllValid, Filter;
    FilterExact(old_, new_);
    SignaturesConcat(old_, Filter(old_, new_));
    var x, n := Signatures(old_), Signatures(new_);
    forall s | s in Minus(n, x)
      ensures s !in x
    {
      MinusMember(n, x, s);
    }
    ApartNoRepeats(x, Minus(n, x));
    MinusNoRepeats(n, x);
  }

  lemma {:induction false} SignaturesConcat(a: seq<SigList>, b: seq<SigList>)
    ensures Signatures(a + b) == Signatures(a) + Signatures(b)
  {
    hide Tagged;
    if a == [] {
      assert a + b == b;
    } else {
      assert (a + b)[1..] == a[1..] + b;
      SignaturesConcat(a[1..], b);
    }
  }

  /** One list with a signature twice: filtering it against nothing keeps both. */
  lemma RepeatedSignatureStays(typ: seq<byte>, sig: seq<byte>)
    requires |typ| == 16 && 0 < |sig| < 0x1000_0000
    ensures var twice := [SigList(typ, [], |sig|, [sig, sig])];
      AllValid(twice) && !NoRepeats(Signatures([] + Filter([], twice)))
  {
    var sigs := [sig, sig];
    var l := SigList(typ, [], |sig|, sigs);
    assert sigs[1..] == [sig] && [sig][1..] == [];
    assert Flat([sig]) == sig + Flat([]) == sig && Flat(sigs) == sig + sig;
    var x := Signature(typ, sig);
    assert [l][1..] == [];
    assert Signatures([l]) == Tagged(typ, sigs) + [] && Tagged(typ, sigs)[0] == Tagged(typ, sigs)[1] == x;
    assert Signatures([l])[0] == Signatures([l])[1];
    assert x !in Signatures([]);
    AppendRepeats([], [l]);
  }

  lemma {:induction false} FilterAppend(old_: seq<SigList>, a: seq<SigList>, b: seq<SigList>)
    ensures Filter(old_, a + b) == Filter(old_, a) + Filter(old_, b)
  {
    if a == [] {
      assert a + b == b;
    } else {
      assert (a + b)[1..] == a[1..] + b;
      FilterAppend(old_, a[1..], b);
    }
  }

  // ----- the code: scans over the raw buffers

  /** From off on, the buffer holds these lists. */
  ghost predicate Rest(data: seq<byte>, off: nat, ls: seq<SigList>) {
    && AllValid(ls) && off <= |data| && data[off..] == Serialize(ls)
    && (ls != [] ==> Head(data, off, ls[0]))
  }

  /** How many signatures the header at off announces. */
  function SignatureCount(b: seq<byte>, off: nat): int
    requires off + LIST_HEADER_SIZE <= |b| && ReadLe32(b, off + 24) > 0
  {
    var size: int, header: int, signatureSize: int := ReadLe32(b, off + 16), ReadLe32(b, off + 20), ReadLe32(b, off + 24);
    (size - LIST_HEADER_SIZE - header) / signatureSize
  }

  /** What can be read off a buffer where list l starts. */
  ghost predicate Head(data: seq<byte>, off: nat, l: SigList) {
    var n := LIST_HEADER_SIZE + |l.header|;
    && 0 < l.sigSize && n <= l.Size() && off + l.Size() <= |data|
    && data[off..off + 16] == l.typ
    && ReadLe32(data, off + 16) == l.Size() && ReadLe32(data, off + 20) == |l.header|
    && ReadLe32(data, off + 24) == l.sigSize
    && data[off..off + n] == Prefix(l, l.Size())
    && data[off + n..off + l.Size()] == Flat(l.sigs)
    && SignatureCount(data, off) == |l.sigs|
  }

  lemma HeadOfSlice(data: seq<byte>, off: nat, l: SigList, rest: seq<byte>)
    requires l.Valid() && off <= |data| && data[off..] == ListBytes(l) + rest
    ensures Head(data, off, l) && data[off + l.Size()..] == rest
  {
    hide ListBytes, Prefix, Flat, SigList.Size, ReadLe32;
    var b := data[off..];
    var n, m := LIST_HEADER_SIZE + |l.header|, l.Size();
    FieldsOf(l, rest);
    ReadLe32Slice(data, off, 16);
    ReadLe32Slice(data, off, 20);
    ReadLe32Slice(data, off, 24);
    assert b[..16] == data[off..off + 16];
    assert b[..n] == data[off..off + n] && b[n..m] == data[off + n..off + m] && b[m..] == data[off + m..];
    CountOfSlice(data, off, l);
  }

  lemma CountOfSlice(data: seq<byte>, off: nat, l: SigList)
    requires l.Valid() && off + LIST_HEADER_SIZE <= |data|
    requires ReadLe32(data, off + 16) == l.Size() && ReadLe32(data, off + 20) == |l.header|
    requires ReadLe32(data, off + 24) == l.sigSize && (l.Size() - LIST_HEADER_SIZE - |l.header|) / l.sigSize == |l.sigs|
    ensures SignatureCount(data, off) == |l.sigs|
  {
    hide ReadLe32;
  }

  /** The size field of the first of the lists, if there is one. */
  ghost predicate SizeAt(data: seq<byte>, off: nat, ls: seq<SigList>) {
    && (off < |data| <==> ls != [])
    && (ls != [] ==> off + LIST_HEADER_SIZE <= |data| && ReadLe32(data, off + 16) == ls[0].Size() > 0
                     && off + ls[0].Size() <= |data|)
  }

  lemma SerializeCons(ls: seq<SigList>)
    requires AllValid(ls) && ls != []
    ensures ls[0].Valid() && AllValid(ls[1..]) && Serialize(ls) == ListBytes(ls[0]) + Serialize(ls[1..])
  {
  }

  lemma RestFrom(data: seq<byte>, off: nat, ls: seq<SigList>)
    requires AllValid(ls) && off <= |data| && data[off..] == Serialize(ls)
    ensures Rest(data, off, ls) && SizeAt(data, off, ls)
  {
    if ls != [] {
      SerializeCons(ls);
      hide AllValid, ListBytes, Serialize, SigList.Valid, SigList.Size, Head, ReadLe32;
      HeadOfSlice(data, off, ls[0], Serialize(ls[1..]));
    }
  }

  lemma RestStep(data: seq<byte>, off: nat, ls: seq<SigList>)
    requires Rest(data, off, ls) && ls != []
    ensures ls[0].Valid() && Head(data, off, ls[0]) && off + ls[0].Size() <= |data|
    ensures Rest(data, off + ls[0].Size(), ls[1..]) && SizeAt(data, off + ls[0].Size(), ls[1..])
  {
    hide AllValid, ListBytes, Serialize, SigList.Valid, SigList.Size, Head, ReadLe32;
    SerializeCons(ls);
    HeadOfSlice(data, off, ls[0], Serialize(ls[1..]));
    assert off + ls[0].Size() <= |data|;
    RestFrom(data, off + ls[0].Size(), ls[1..]);
  }
}
