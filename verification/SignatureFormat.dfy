/** The format check of signature lists, which walks over the raw bytes. */
module SignatureFormat {
  import opened Bits
  import opened Bytes
  import opened ListWalk
  import opened SignatureList

  const CERT_X509_GUID: seq<byte> :=
    [0xa1, 0x59, 0xc0, 0xa5, 0xe4, 0x94, 0xa7, 0x4a, 0x87, 0xb5, 0xab, 0x15, 0x5c, 0x2b, 0xf0, 0x72]

  /** Key j of a list: what follows the owner of signature j. */
  function KeyAt(m: Memory, at: nat, h: ListHead, j: nat): (key: seq<byte>)
    ensures |key| == h.KeySize()
  {
    Window(m, at + LIST_HEADER_SIZE + h.headerSize + j * h.signatureSize + OWNER_SIZE, h.KeySize())
  }

  /** A supported signature type, with the sizes it must have, if any. */
  datatype SigItem = SigItem(typ: seq<byte>, headerSize: Option<uint32>, dataSize: Option<uint32>)

  datatype Rules = Rules(items: seq<SigItem>, usableKey: seq<byte> -> bool)

  predicate ItemFits(item: SigItem, h: ListHead) {
    && (item.dataSize.Some? ==> h.KeySize() == item.dataSize.value)
    && (item.headerSize.Some? ==> h.headerSize == item.headerSize.value)
  }

  /** The first item of the type decides. */
  predicate Supported(items: seq<SigItem>, h: ListHead) {
    items != [] && if items[0].typ == h.typ then ItemFits(items[0], h) else Supported(items[1..], h)
  }

  predicate KeyUsable(usable: seq<byte> -> bool, m: Memory, at: nat, h: ListHead) {
    h.typ == CERT_X509_GUID && h.KeySize() > 0 ==> usable(KeyAt(m, at, h, 0))
  }

  /** A state of the loop, and what one pass through its body makes of it. */
  datatype Pos = Pos(at: nat, left: nat, count: nat)
  datatype PassResult = Next(pos: Pos) | Leaves | Refuses | Undefined

  function Pass(rules: Rules, m: Memory, pos: Pos): PassResult {
    var h := HeadAt(m, pos.at);
    if pos.left == 0 || pos.left < h.size then Leaves
    else if !Supported(rules.items, h) || !KeyUsable(rules.usableKey, m, pos.at, h) then Refuses
    else if h.signatureSize == 0 then Undefined
    else if h.Room() % h.signatureSize != 0 then Refuses
    else Next(Pos(pos.at + h.size, pos.left - h.size, (pos.count + h.Room() / h.signatureSize) % 0x1_0000_0000))
  }

  function Checked(rules: Rules, isPk: bool, m: Memory, pos: Pos): Verdict
    decreases pos.left
  {
    match Pass(rules, m, pos)
    case Leaves => if pos.left != 0 || (isPk && pos.count > 1) then Rejected else Accepted
    case Refuses => Rejected
    case Undefined => NoAnswer
    case Next(p) => if p.left < pos.left then Checked(rules, isPk, m, p) else NoAnswer
  }

  function Passes(rules: Rules, m: Memory, pos: Pos, n: nat): PassResult
    decreases n
  {
    if n == 0 then Next(pos)
    else match Pass(rules, m, pos)
      case Next(p) => Passes(rules, m, p, n - 1)
      case other => other
  }

  /** A list of size zero is come back to after any number of passes: the loop is never left. */
  lemma {:induction false} ZeroSizeNeverLeft(rules: Rules, m: Memory, pos: Pos, n: nat)
    requires Pass(rules, m, pos).Next? && HeadAt(m, pos.at).size == 0
    ensures Passes(rules, m, pos, n).Next?
    ensures Passes(rules, m, pos, n).pos.at == pos.at && Passes(rules, m, pos, n).pos.left == pos.left
    decreases n
  {
    if n > 0 {
      ZeroSizeNeverLeft(rules, m, Pass(rules, m, pos).pos, n - 1);
    }
  }

  /** The loop over the table of supported types. */
  method FindItem(items: seq<SigItem>, h: ListHead) returns (supported: bool)
    ensures supported == Supported(items, h)
  {
    assert items[0..] == items;
    for index := 0 to |items|
      invariant Supported(items, h) == Supported(items[index..], h)
    {
      SplitAt(items, index);
      if h.typ == items[index].typ {
        if items[index].dataSize.Some? && h.KeySize() != items[index].dataSize.value {
          return false;
        }
        if items[index].headerSize.Some? && h.headerSize != items[index].headerSize.value {
          return false;
        }
        return true;
      }
    }
    supported := false;
  }

  /** CheckSignatureListFormat, on data that is not empty. */
  method CheckSignatureListFormat(rules: Rules, isPk: bool, m: Memory, dataSize: nat) returns (verdict: Verdict)
    ensures verdict == Checked(rules, isPk, m, Pos(0, dataSize, 0))
  {
    hide Supported, HeadAt, KeyAt, Checked;
    var sigCount: nat, sigList: nat, sigDataSize: nat := 0, 0, dataSize;
    while true
      invariant Checked(rules, isPk, m, Pos(0, dataSize, 0)) == Checked(rules, isPk, m, Pos(sigList, sigDataSize, sigCount))
      invariant sigList + sigDataSize == dataSize
      decreases sigDataSize
    {
      var h := HeadAt(m, sigList);
      CheckedIs(rules, isPk, m, Pos(sigList, sigDataSize, sigCount));
      if !(sigDataSize > 0 && sigDataSize >= h.size) {
        break;
      }
      var supported := FindItem(rules.items, h);
      if !supported {
        return Rejected;
      }
      if h.typ == CERT_X509_GUID {
        if h.KeySize() > 0 && !rules.usableKey(KeyAt(m, sigList, h, 0)) {
          return Rejected;
        }
      }
      if h.signatureSize == 0 {
        return NoAnswer;
      }
      if h.Room() % h.signatureSize != 0 {
        return Rejected;
      }
      sigCount := (sigCount + h.Room() / h.signatureSize) % 0x1_0000_0000;
      if h.size == 0 {
        return NoAnswer;
      }
      sigDataSize := sigDataSize - h.size;
      sigList := sigList + h.size;
    }
    if sigList != dataSize {
      return Rejected;
    }
    if isPk && sigCount > 1 {
      return Rejected;
    }
    verdict := Accepted;
  }

  lemma CheckedIs(rules: Rules, isPk: bool, m: Memory, pos: Pos)
    ensures Checked(rules, isPk, m, pos) ==
            match Pass(rules, m, pos)
            case Leaves => if pos.left != 0 || (isPk && pos.count > 1) then Rejected else Accepted
            case Refuses => Rejected
            case Undefined => NoAnswer
            case Next(p) => if p.left < pos.left then Checked(rules, isPk, m, p) else NoAnswer
  {
  }

  /** A list with which the check comes to no end: it is within the data and would be taken, and its
      signatures have size zero, or the list itself has and its room is a multiple of theirs. */
  predicate Endless(rules: Rules, m: Memory, pos: Pos) {
    var h := HeadAt(m, pos.at);
    && Within(h, pos.left) && Supported(rules.items, h) && KeyUsable(rules.usableKey, m, pos.at, h)
    && (h.signatureSize == 0 || (h.size == 0 && h.Room() % h.signatureSize == 0))
  }

  ghost predicate ComesToEndless(rules: Rules, m: Memory, pos: Pos) {
    exists n: nat :: Passes(rules, m, pos, n).Next? && Endless(rules, m, Passes(rules, m, pos, n).pos)
  }

  lemma EndlessPastOne(rules: Rules, m: Memory, pos: Pos)
    requires Pass(rules, m, pos).Next? && !Endless(rules, m, pos)
    ensures ComesToEndless(rules, m, pos) <==> ComesToEndless(rules, m, Pass(rules, m, pos).pos)
  {
    hide Pass, Endless;
    var next := Pass(rules, m, pos).pos;
    if n: nat :| Passes(rules, m, pos, n).Next? && Endless(rules, m, Passes(rules, m, pos, n).pos) {
      assert n > 0 && Passes(rules, m, pos, n) == Passes(rules, m, next, n - 1);
    }
    if n: nat :| Passes(rules, m, next, n).Next? && Endless(rules, m, Passes(rules, m, next, n).pos) {
      assert Passes(rules, m, pos, n + 1) == Passes(rules, m, next, n);
    }
  }

  lemma EndlessHere(rules: Rules, m: Memory, pos: Pos)
    requires !Pass(rules, m, pos).Next? || Endless(rules, m, pos)
    ensures ComesToEndless(rules, m, pos) <==> Endless(rules, m, pos)
  {
    hide Pass, Endless;
    if n: nat :| Passes(rules, m, pos, n).Next? && Endless(rules, m, Passes(rules, m, pos, n).pos) {
      assert n > 0 ==> Pass(rules, m, pos).Next?;
    }
    if Endless(rules, m, pos) {
      assert Passes(rules, m, pos, 0) == Next(pos);
    }
  }

  /** The check has no answer exactly if some number of passes brings it to such a list. */
  lemma {:induction false} CheckNoAnswer(rules: Rules, isPk: bool, m: Memory, pos: Pos)
    ensures Checked(rules, isPk, m, pos) == NoAnswer <==> ComesToEndless(rules, m, pos)
    decreases pos.left
  {
    hide HeadAt, Supported, KeyUsable, ComesToEndless;
    var h := HeadAt(m, pos.at);
    if Pass(rules, m, pos).Next? && !Endless(rules, m, pos) {
      EndlessPastOne(rules, m, pos);
      CheckNoAnswer(rules, isPk, m, Pass(rules, m, pos).pos);
    } else {
      EndlessHere(rules, m, pos);
    }
  }

  /** It has one wherever every list takes its header and has signatures of some size. */
  lemma {:induction false} WholeIsChecked(rules: Rules, isPk: bool, data: seq<byte>, behind: Memory, at: nat, count: nat)
    requires at <= |data| && Whole(data[at..])
    ensures Checked(rules, isPk, Seen(data, behind), Pos(at, |data| - at, count)) != NoAnswer
    decreases |data| - at
  {
    hide ReadLe32, HeadAt, Seen, Whole, Supported, KeyUsable;
    var b, m := data[at..], Seen(data, behind);
    var h := HeadAt(m, at);
    WholeIs(b);
    if b != [] {
      HeadSeen(data, behind, at);
      var r := Pass(rules, m, Pos(at, |b|, count));
      if r.Next? {
        assert b[h.size..] == data[at + h.size..];
        WholeIsChecked(rules, isPk, data, behind, at + h.size, r.pos.count);
      }
    }
  }

  // ----- what the format check is for

  /** Lists of supported types whose X.509 keys can be used. */
  predicate GoodLists(rules: Rules, m: Memory, at: nat, ls: seq<SigList>)
    decreases |ls|
  {
    ls == [] ||
    (&& Supported(rules.items, HeadOf(ls[0])) && KeyUsable(rules.usableKey, m, at, HeadOf(ls[0]))
     && GoodLists(rules, m, at + ls[0].Size(), ls[1..]))
  }

  /** What the parser makes of a list that takes its header. */
  lemma FirstList(b: seq<byte>)
    requires |b| >= LIST_HEADER_SIZE && ReadLe32(b, 24) > 0 && LIST_HEADER_SIZE + ReadLe32(b, 20) <= ReadLe32(b, 16)
    ensures var size: nat, room: nat, sig: nat := ReadLe32(b, 16), ReadLe32(b, 16) - LIST_HEADER_SIZE - ReadLe32(b, 20), ReadLe32(b, 24);
      && (size > |b| || room % sig != 0 ==> Parse(b).None?)
      && (size <= |b| && room % sig == 0 && Parse(b[size..]).None? ==> Parse(b).None?)
      && (size <= |b| && room % sig == 0 && Parse(b[size..]).Some? ==>
            Parse(b).Some? && var ls := Parse(b).value;
            && ls != [] && ls[1..] == Parse(b[size..]).value
            && ls[0].typ == b[..16] && ls[0].Size() == size && |ls[0].header| == ReadLe32(b, 20) && ls[0].sigSize == sig
            && |ls[0].sigs| == room / sig && room / sig <= room)
  {
    hide ReadLe32, Parse, ParseOne, SigList.Size;
    ParseIs(b);
    FirstOne(b);
  }

  lemma FirstOne(b: seq<byte>)
    requires |b| >= LIST_HEADER_SIZE && ReadLe32(b, 24) > 0 && LIST_HEADER_SIZE + ReadLe32(b, 20) <= ReadLe32(b, 16)
    ensures var size: nat, room: nat, sig: nat := ReadLe32(b, 16), ReadLe32(b, 16) - LIST_HEADER_SIZE - ReadLe32(b, 20), ReadLe32(b, 24);
      if size > |b| || room % sig != 0 then ParseOne(b).None?
      else ParseOne(b).Some? && var l := ParseOne(b).value;
        && l.typ == b[..16] && l.Size() == size && |l.header| == ReadLe32(b, 20) && l.sigSize == sig
        && |l.sigs| == room / sig && room / sig <= room
  {
    hide ReadLe32, Flat;
    var size: nat, hdr: nat, sig: nat := ReadLe32(b, 16), ReadLe32(b, 20), ReadLe32(b, 24);
    if size <= |b| && (size - LIST_HEADER_SIZE - hdr) % sig == 0 {
      PieceCount(b[LIST_HEADER_SIZE + hdr..size], sig);
    }
  }

  lemma PieceCount(b: seq<byte>, n: nat)
    requires n > 0 && |b| % n == 0
    ensures |Chunks(b, n)| == |b| / n <= |b| && |Flat(Chunks(b, n))| == |b|
  {
    var c := Chunks(b, n);
    ModIs(|b|, n, |c|, 0);
    Quotient(|c|, n);
  }

  lemma Quotient(n: nat, p: nat)
    requires p > 0
    ensures n <= n * p
  {
  }

  lemma ParseIs(b: seq<byte>)
    requires b != []
    ensures Parse(b) == match ParseOne(b)
                        case None => None
                        case Some(l) =>
                          match Parse(b[ReadLe32(b, 16)..])
                          case None => None
                          case Some(rest) => Some([l] + rest)
  {
  }

  /** What data of PK, KEK and the signature databases should be from a place on: a whole number of
      well-formed lists of supported types with usable keys, and in PK at most one signature in all. */
  predicate FormatOkFrom(rules: Rules, isPk: bool, data: seq<byte>, behind: Memory, at: nat, count: nat)
    requires at <= |data|
  {
    match Parse(data[at..])
    case None => false
    case Some(ls) => GoodLists(rules, Seen(data, behind), at, ls) && (isPk ==> count + |Signatures(ls)| <= 1)
  }

  predicate FormatOk(rules: Rules, isPk: bool, data: seq<byte>, behind: Memory) {
    FormatOkFrom(rules, isPk, data, behind, 0, 0)
  }

  lemma SignaturesIs(ls: seq<SigList>)
    requires ls != []
    ensures |Signatures(ls)| == |ls[0].sigs| + |Signatures(ls[1..])|
  {
  }

  predicate Fits(h: ListHead, left: nat)
    requires Takes(h)
  {
    h.size <= left && h.Room() % h.signatureSize == 0
  }

  lemma CheckedPastOne(rules: Rules, isPk: bool, m: Memory, at: nat, left: nat, count: nat)
    requires var h := HeadAt(m, at); Takes(h) && left > 0
    ensures var h := HeadAt(m, at);
      && (!Fits(h, left) ==> Checked(rules, isPk, m, Pos(at, left, count)) == Rejected)
      && (Fits(h, left) && count + CertCount(h) < 0x1_0000_0000 ==>
            Checked(rules, isPk, m, Pos(at, left, count))
            == if Supported(rules.items, h) && KeyUsable(rules.usableKey, m, at, h)
               then Checked(rules, isPk, m, Pos(at + h.size, left - h.size, count + CertCount(h))) else Rejected)
  {
    hide Supported, KeyUsable, HeadAt, Checked;
    CheckedIs(rules, isPk, m, Pos(at, left, count));
  }

  lemma FirstListFits(b: seq<byte>, h: ListHead)
    requires |b| >= LIST_HEADER_SIZE && Takes(h)
    requires h.typ == b[..16] && h.size == ReadLe32(b, 16) && h.headerSize == ReadLe32(b, 20) && h.signatureSize == ReadLe32(b, 24)
    ensures !Fits(h, |b|) ==> Parse(b).None?
    ensures Fits(h, |b|) ==> h.size <= |b| && (Parse(b[h.size..]).None? ==> Parse(b).None?)
    ensures Fits(h, |b|) && Parse(b[h.size..]).Some? ==>
              Parse(b).Some? && var ls := Parse(b).value;
              ls != [] && ls[1..] == Parse(b[h.size..]).value && HeadOf(ls[0]) == h && |ls[0].sigs| == CertCount(h)
  {
    hide ReadLe32, Parse, SigList.Size;
    FirstList(b);
    assert h.Room() == h.size - LIST_HEADER_SIZE - h.headerSize;
  }

  /** One list that takes its header, and those behind it. */
  lemma FormatOkPastOne(rules: Rules, isPk: bool, data: seq<byte>, behind: Memory, at: nat, count: nat)
    requires at + LIST_HEADER_SIZE <= |data| && Takes(HeadAt(Seen(data, behind), at))
    ensures var m, h := Seen(data, behind), HeadAt(Seen(data, behind), at);
      && (!Fits(h, |data| - at) ==> !FormatOkFrom(rules, isPk, data, behind, at, count))
      && (Fits(h, |data| - at) ==>
            (FormatOkFrom(rules, isPk, data, behind, at, count)
             <==> Supported(rules.items, h) && KeyUsable(rules.usableKey, m, at, h)
                  && FormatOkFrom(rules, isPk, data, behind, at + h.size, count + CertCount(h))))
  {
    hide ReadLe32, Parse, Supported, KeyUsable, HeadAt, Seen, SigList.Size, Signatures, GoodLists, Fits, CertCount, ListHead.Room;
    var b, h := data[at..], HeadAt(Seen(data, behind), at);
    HeadSeen(data, behind, at);
    FirstListFits(b, h);
    if Fits(h, |b|) {
      assert b[h.size..] == data[at + h.size..];
      if Parse(b).Some? {
        var ls := Parse(b).value;
        assert HeadOf(ls[0]) == h;
        SignaturesIs(ls);
        GoodIs(rules, Seen(data, behind), at, ls);
      }
    }
  }

  lemma GoodIs(rules: Rules, m: Memory, at: nat, ls: seq<SigList>)
    requires ls != []
    ensures GoodLists(rules, m, at, ls)
       <==> Supported(rules.items, HeadOf(ls[0])) && KeyUsable(rules.usableKey, m, at, HeadOf(ls[0]))
            && GoodLists(rules, m, at + ls[0].Size(), ls[1..])
  {
  }

  lemma {:induction false} CheckExactFrom(rules: Rules, isPk: bool, data: seq<byte>, behind: Memory, at: nat, count: nat)
    requires at <= |data| < 0x1_0000_0000 && count <= at
    ensures Checked(rules, isPk, Seen(data, behind), Pos(at, |data| - at, count)) == Accepted && Whole(data[at..])
       <==> FormatOkFrom(rules, isPk, data, behind, at, count)
    decreases |data| - at
  {
    hide ReadLe32, Parse, Supported, KeyUsable, HeadAt, Checked, Whole, FormatOkFrom, Seen;
    var b, m := data[at..], Seen(data, behind);
    ParseSmall(b);
    WholeIs(b);
    if b == [] {
      CheckedIs(rules, isPk, m, Pos(at, 0, count));
      NothingLeft(rules, isPk, data, behind, at, count);
    } else if |b| >= LIST_HEADER_SIZE {
      HeadSeen(data, behind, at);
      var h := HeadAt(m, at);
      if Takes(h) {
        CheckedPastOne(rules, isPk, m, at, |b|, count);
        FormatOkPastOne(rules, isPk, data, behind, at, count);
        if Fits(h, |b|) {
          AtMost(h.Room(), h.signatureSize);
          assert b[h.size..] == data[at + h.size..];
          CheckExactFrom(rules, isPk, data, behind, at + h.size, count + CertCount(h));
        }
      } else {
        NotTaken(rules, isPk, data, behind, at, count);
      }
    } else {
      NotTaken(rules, isPk, data, behind, at, count);
    }
  }

  lemma NotTaken(rules: Rules, isPk: bool, data: seq<byte>, behind: Memory, at: nat, count: nat)
    requires at <= |data| && Parse(data[at..]).None?
    ensures !FormatOkFrom(rules, isPk, data, behind, at, count)
  {
    hide Parse;
  }

  lemma AtMost(n: nat, p: nat)
    requires p > 0
    ensures n / p <= n
  {
    DivMod(n, p);
    Quotient(n / p, p);
  }

  lemma NothingLeft(rules: Rules, isPk: bool, data: seq<byte>, behind: Memory, at: nat, count: nat)
    requires at <= |data| && data[at..] == []
    ensures FormatOkFrom(rules, isPk, data, behind, at, count) <==> (isPk ==> count <= 1)
  {
  }

  lemma ParseSmall(b: seq<byte>)
    ensures b == [] ==> Parse(b) == Some([])
    ensures 0 < |b| < LIST_HEADER_SIZE ==> Parse(b) == None
    ensures |b| >= LIST_HEADER_SIZE && (ReadLe32(b, 24) == 0 || ReadLe32(b, 16) < LIST_HEADER_SIZE + ReadLe32(b, 20)) ==> Parse(b) == None
  {
    hide ReadLe32;
  }

  /** Data that should be accepted is, and what is accepted should be, exactly where every list takes its
      header and has signatures of some size. */
  lemma CheckExact(rules: Rules, isPk: bool, data: seq<byte>, behind: Memory)
    requires |data| < 0x1_0000_0000
    ensures FormatOk(rules, isPk, data, behind)
       <==> Checked(rules, isPk, Seen(data, behind), Pos(0, |data|, 0)) == Accepted && Whole(data)
  {
    hide Parse, GoodLists, Checked, Whole, Signatures;
    CheckExactFrom(rules, isPk, data, behind, 0, 0);
    assert data[0..] == data;
  }

  /** X.509 signatures have room for their owner. */
  predicate KeysHaveOwners(ls: seq<SigList>) {
    forall l :: l in ls && l.typ == CERT_X509_GUID ==> l.sigSize >= OWNER_SIZE
  }

  /** Key j of a list that is all there is the certificate of signature j. */
  lemma KeyOfSignature(data: seq<byte>, behind: Memory, at: nat, l: SigList, j: nat)
    requires l.Valid() && at <= |data| && Head(data, at, l) && j < |l.sigs| && l.sigSize >= OWNER_SIZE
    ensures KeyAt(Seen(data, behind), at, HeadOf(l), j) == l.sigs[j][OWNER_SIZE..]
  {
    hide Head, SigList.Size, Seen;
    SignatureOfList(data, behind, at, l, j);
  }

  // ----- what is taken, by the table

  /** Item i of the table is the first of the list's type, and the list has the sizes that it demands. */
  predicate ServedBy(items: seq<SigItem>, l: SigList, i: nat) {
    && i < |items| && items[i].typ == l.typ && (forall j :: 0 <= j < i ==> items[j].typ != l.typ)
    && (items[i].headerSize.Some? ==> |l.header| == items[i].headerSize.value)
    && (items[i].dataSize.Some? ==> l.sigSize == OWNER_SIZE + items[i].dataSize.value)
  }

  ghost predicate Listed(items: seq<SigItem>, l: SigList) {
    exists i: nat :: ServedBy(items, l, i)
  }

  lemma ServedLater(items: seq<SigItem>, l: SigList, i: nat)
    requires items != [] && items[0].typ != l.typ
    ensures ServedBy(items[1..], l, i) <==> ServedBy(items, l, i + 1)
  {
    var rest := items[1..];
    assert forall j :: 0 <= j < |rest| ==> rest[j] == items[j + 1];
    if ServedBy(rest, l, i) {
      forall j | 0 <= j < i + 1
        ensures items[j].typ != l.typ
      {
        assert j > 0 ==> items[j] == rest[j - 1];
      }
    }
  }

  lemma ServedFirst(items: seq<SigItem>, l: SigList)
    requires l.Valid() && items != [] && items[0].typ == l.typ
    ensures Listed(items, l) <==> ItemFits(items[0], HeadOf(l))
  {
    hide SigList.Size;
    ListIsLong(l);
    if i: nat :| ServedBy(items, l, i) {
      assert i == 0;
    }
    assert ItemFits(items[0], HeadOf(l)) ==> ServedBy(items, l, 0);
  }

  lemma {:induction false} ListedIs(items: seq<SigItem>, l: SigList)
    requires l.Valid()
    ensures Supported(items, HeadOf(l)) <==> Listed(items, l)
  {
    hide ServedBy, ItemFits, SigList.Valid;
    if items == [] {
      NothingListed(l);
    } else if items[0].typ == l.typ {
      ServedFirst(items, l);
    } else {
      ListedIs(items[1..], l);
      NotFirst(items, l);
      forall i: nat
        ensures ServedBy(items[1..], l, i) <==> ServedBy(items, l, i + 1)
      {
        ServedLater(items, l, i);
      }
      if i: nat :| ServedBy(items, l, i) {
        assert ServedBy(items[1..], l, i - 1);
      }
    }
  }

  lemma NothingListed(l: SigList)
    ensures !Listed([], l)
  {
  }

  lemma NotFirst(items: seq<SigItem>, l: SigList)
    requires items != [] && items[0].typ != l.typ
    ensures !ServedBy(items, l, 0)
  {
  }

  /** X.509 lists hold certificates. */
  predicate KeysAreThere(ls: seq<SigList>) {
    forall l :: l in ls && l.typ == CERT_X509_GUID ==> l.sigs != [] && l.sigSize >= OWNER_SIZE
  }

  /** The first certificate of an X.509 list, unless it is empty, has a key that can be used. */
  predicate KeyIsUsable(usable: seq<byte> -> bool, l: SigList) {
    l.typ == CERT_X509_GUID && l.sigSize > OWNER_SIZE && l.sigs != [] && |l.sigs[0]| >= OWNER_SIZE ==> usable(l.sigs[0][OWNER_SIZE..])
  }

  lemma UsableIs(usable: seq<byte> -> bool, data: seq<byte>, behind: Memory, at: nat, l: SigList)
    requires l.Valid() && at <= |data| && Head(data, at, l)
    requires l.typ == CERT_X509_GUID ==> l.sigs != [] && l.sigSize >= OWNER_SIZE
    ensures KeyUsable(usable, Seen(data, behind), at, HeadOf(l)) <==> KeyIsUsable(usable, l)
  {
    hide Head, SigList.Size, KeyAt, Seen;
    ValidSigs(l);
    if l.typ == CERT_X509_GUID {
      KeyOfSignature(data, behind, at, l, 0);
    }
  }

  lemma {:induction false} GoodAre(rules: Rules, data: seq<byte>, behind: Memory, at: nat, ls: seq<SigList>)
    requires at <= |data| && Rest(data, at, ls) && SizeAt(data, at, ls) && KeysAreThere(ls)
    ensures GoodLists(rules, Seen(data, behind), at, ls)
       <==> forall l :: l in ls ==> Listed(rules.items, l) && KeyIsUsable(rules.usableKey, l)
    decreases |ls|
  {
    hide ReadLe32, Rest, Head, Seen, SigList.Size, SigList.Valid, Listed, Supported, KeyUsable, KeyIsUsable, GoodLists;
    if ls == [] {
      NoListIsGood(rules, Seen(data, behind), at);
    } else {
      RestStep(data, at, ls);
      ListedIs(rules.items, ls[0]);
      UsableIs(rules.usableKey, data, behind, at, ls[0]);
      GoodIs(rules, Seen(data, behind), at, ls);
      GoodAre(rules, data, behind, at + ls[0].Size(), ls[1..]);
      assert forall l :: l in ls <==> l == ls[0] || l in ls[1..];
    }
  }

  lemma {:induction false} UnlistedIsNotGood(rules: Rules, m: Memory, at: nat, ls: seq<SigList>, l: SigList)
    requires l in ls && l.Valid() && !Listed(rules.items, l)
    ensures !GoodLists(rules, m, at, ls)
    decreases |ls|
  {
    hide SigList.Size, SigList.Valid, Listed, Supported, KeyUsable, GoodLists;
    GoodIs(rules, m, at, ls);
    if l == ls[0] {
      ListedIs(rules.items, l);
    } else {
      assert l in ls[1..];
      UnlistedIsNotGood(rules, m, at + ls[0].Size(), ls[1..], l);
    }
  }

  lemma NoListIsGood(rules: Rules, m: Memory, at: nat)
    ensures GoodLists(rules, m, at, [])
  {
  }

  lemma {:induction false} ParsedIsWhole(b: seq<byte>)
    requires Parse(b).Some?
    ensures Whole(b)
    decreases |b|
  {
    hide ReadLe32, Whole;
    WholeIs(b);
    ParseSmall(b);
    if b != [] {
      ParseStep(b);
      ParseOneSound(b);
      ParsedIsWhole(b[ParseOne(b).value.Size()..]);
    }
  }

  /** Data of well-formed lists is accepted exactly if each is of a type in the table with the sizes its
      item demands, the certificates in front have keys that can be used, and PK gets one signature at
      most; anything else is rejected. */
  lemma ListsAccepted(rules: Rules, isPk: bool, data: seq<byte>, behind: Memory)
    requires |data| < 0x1_0000_0000 && Parse(data).Some? && KeysAreThere(Parse(data).value)
    ensures var ls := Parse(data).value;
      var good := (forall l :: l in ls ==> Listed(rules.items, l) && KeyIsUsable(rules.usableKey, l)) && (isPk ==> |Signatures(ls)| <= 1);
      Checked(rules, isPk, Seen(data, behind), Pos(0, |data|, 0)) == if good then Accepted else Rejected
  {
    hide ReadLe32, Parse, Checked, Whole, GoodLists, Listed, KeyIsUsable, Signatures, Rest, Serialize, KeysAreThere;
    var ls := Parse(data).value;
    ParsedIsWhole(data);
    assert data[0..] == data;
    WholeIsChecked(rules, isPk, data, behind, 0, 0);
    CheckExact(rules, isPk, data, behind);
    ParseSound(data);
    RestFrom(data, 0, ls);
    GoodAre(rules, data, behind, 0, ls);
  }

  /** A single list of a type that the table does not have, or of other sizes, spoils all. */
  lemma UnlistedIsRejected(rules: Rules, isPk: bool, data: seq<byte>, behind: Memory, l: SigList)
    requires |data| < 0x1_0000_0000 && Parse(data).Some? && l in Parse(data).value && !Listed(rules.items, l)
    ensures Checked(rules, isPk, Seen(data, behind), Pos(0, |data|, 0)) == Rejected
  {
    hide ReadLe32, Parse, Checked, Whole, GoodLists, Listed, Signatures, SigList.Valid;
    ParsedIsWhole(data);
    assert data[0..] == data;
    WholeIsChecked(rules, isPk, data, behind, 0, 0);
    CheckExact(rules, isPk, data, behind);
    ParseSound(data);
    UnlistedIsNotGood(rules, Seen(data, behind), 0, Parse(data).value, l);
  }

  // ----- where the two part

  lemma ZeroSizePass(rules: Rules, m: Memory, left: nat)
    requires left > 0 && HeadAt(m, 0) == ListHead(CERT_X509_GUID, 0, 0, 3491)
    requires Supported(rules.items, HeadAt(m, 0)) && rules.usableKey(KeyAt(m, 0, HeadAt(m, 0), 0))
    ensures Pass(rules, m, Pos(0, left, 0)).Next? && Pass(rules, m, Pos(0, left, 0)).pos.left == left
  {
    hide HeadAt, KeyAt, Supported;
    WrappedRooms();
  }

  /** An X.509 list that gives its size as zero, with signatures of 3491 bytes and a usable certificate: the
      wrapped room is a multiple of 3491, and the list is looked at again for ever. */
  lemma ZeroSizeHasNoAnswer(rules: Rules, cert: seq<byte>, behind: Memory, isPk: bool)
    requires Supported(rules.items, ListHead(CERT_X509_GUID, 0, 0, 3491)) && |cert| == 3475 + 16 && rules.usableKey(cert[16..])
    ensures var data := CERT_X509_GUID + Le32(0) + Le32(0) + Le32(3491) + cert;
      && Checked(rules, isPk, Seen(data, behind), Pos(0, |data|, 0)) == NoAnswer
      && !FormatOk(rules, isPk, data, behind) && !Whole(data)
      && forall n: nat :: Passes(rules, Seen(data, behind), Pos(0, |data|, 0), n).Next?
  {
    hide ReadLe32, Le32, Supported, Checked, FormatOk, Whole, HeadAt, Pass, Passes;
    var head := CERT_X509_GUID + Le32(0) + Le32(0) + Le32(3491);
    var data := head + cert;
    var m, pos := Seen(data, behind), Pos(0, |data|, 0);
    HeadOfBytes(CERT_X509_GUID, 0, 0, 3491, m);
    assert KeyAt(m, 0, HeadAt(m, 0), 0) == cert[16..] by {
      WindowInside(data, behind, 44, 3475);
      assert data[44..44 + 3475] == cert[16..];
    }
    ZeroSizePass(rules, m, |data|);
    CheckedIs(rules, isPk, m, pos);
    CheckExact(rules, isPk, data, behind);
    HeadSeen(data, behind, 0);
    assert data[0..] == data;
    WholeIs(data);
    forall n: nat
      ensures Passes(rules, m, pos, n).Next?
    {
      ZeroSizeNeverLeft(rules, m, pos, n);
    }
  }

  lemma WrappedRooms()
    ensures ListHead(CERT_X509_GUID, 0, 0, 3491).Room() % 3491 == 0
    ensures forall typ :: ListHead(typ, 12, 0, 48).Room() % 48 == 0 && ListHead(typ, 12, 0, 48).KeySize() == 32
  {
    assert (TWO_64 - 28) % 3491 == 0;
    assert (TWO_64 - 16) % 48 == 0;
  }

  /** Twelve bytes, with memory behind them that completes a type and gives a size of twelve, are accepted. */
  lemma RemainderIsAccepted(rules: Rules, typ: seq<byte>, behind: Memory)
    requires |typ| == 16 && typ != CERT_X509_GUID && Supported(rules.items, ListHead(typ, 12, 0, 48))
    requires forall i :: 0 <= i < 16 ==> behind(i) == (typ[12..] + Le32(12) + Le32(0) + Le32(48))[i]
    ensures var data := typ[..12];
      && Checked(rules, false, Seen(data, behind), Pos(0, |data|, 0)) == Accepted
      && !FormatOk(rules, false, data, behind) && Parse(data) == None && !Whole(data)
  {
    hide ReadLe32, Le32, Supported, Checked;
    var data := typ[..12];
    var m := Seen(data, behind);
    var b := typ + Le32(12) + Le32(0) + Le32(48);
    var tail := typ[12..] + Le32(12) + Le32(0) + Le32(48);
    assert b == data + tail;
    HeadOfBytes(typ, 12, 0, 48, m);
    WrappedRooms();
    var count := ListHead(typ, 12, 0, 48).Room() / 48 % 0x1_0000_0000;
    CheckedIs(rules, false, m, Pos(0, 12, 0));
    CheckedIs(rules, false, m, Pos(12, 0, count));
    ParseSmall(data);
    WholeIs(data);
    assert data[0..] == data;
  }
}
