/** The platform memory map: device descriptors laid over the DDR banks, with what they leave of the
    banks as RAM partitions. */
module MemoryMap {
  import opened Efi

  const MAX_DESCRIPTOR_COUNT := 128

  /** kind stands for the five attribute fields, which are only ever copied. */
  datatype Descriptor = Descriptor(name: string, address: nat, length: nat, kind: nat) {
    function End(): nat { address + length }

    predicate Contains(a: nat) { address <= a < End() }
  }

  datatype Bank = Bank(base: nat, length: nat) {
    function End(): nat { base + length }

    predicate Contains(a: nat) { base <= a < End() }
  }

  const RAM_KIND := 1
  const TERMINATOR := Descriptor("Terminator", 0, 0, 0)

  /** An entry of the merged map: a device descriptor as it is, or RAM. */
  datatype Entry = Dev(d: Descriptor) | Ram(base: nat, length: nat) {
    function Describe(): Descriptor {
      match this
      case Dev(d) => d
      case Ram(b, n) => Descriptor("RAM Partition", b, n, RAM_KIND)
    }

    function Start(): nat { Describe().address }

    function End(): nat { Describe().End() }

    predicate Contains(a: nat) { Describe().Contains(a) }
  }

  predicate Overlaps(d: Descriptor, b: Bank) {
    d.address < b.End() && b.base < d.End()
  }

  // ----- what the merge computes

  function Max(a: nat, b: nat): nat { if a < b then b else a }

  function Gap(from: nat, to: nat): seq<Entry> {
    if from < to then [Ram(from, to - from)] else []
  }

  /** One bank from the cursor on. */
  function BankMap(b: Bank, ds: seq<Descriptor>, cursor: nat): seq<Entry> {
    if ds == [] then Gap(cursor, b.End())
    else if !Overlaps(ds[0], b) then BankMap(b, ds[1..], cursor)
    else Gap(cursor, ds[0].address) + [Dev(ds[0])] + BankMap(b, ds[1..], Max(cursor, ds[0].End()))
  }

  function AllBanks(banks: seq<Bank>, ds: seq<Descriptor>): seq<Entry> {
    if banks == [] then [] else BankMap(banks[0], ds, banks[0].base) + AllBanks(banks[1..], ds)
  }

  predicate InSomeBank(banks: seq<Bank>, d: Descriptor) {
    exists i :: 0 <= i < |banks| && Overlaps(d, banks[i])
  }

  function Outside(banks: seq<Bank>, ds: seq<Descriptor>): seq<Entry> {
    if ds == [] then [] else
      (if InSomeBank(banks, ds[0]) then [] else [Dev(ds[0])]) + Outside(banks, ds[1..])
  }

  function Merged(banks: seq<Bank>, ds: seq<Descriptor>): seq<Entry> {
    AllBanks(banks, ds) + Outside(banks, ds)
  }

  function Describe(es: seq<Entry>): (r: seq<Descriptor>)
    ensures |r| == |es| && forall i :: 0 <= i < |r| ==> r[i] == es[i].Describe()
  {
    seq(|es|, i requires 0 <= i < |es| => es[i].Describe())
  }

  // ----- coverage, for any descriptors in any order

  predicate Covers(es: seq<Entry>, a: nat) {
    exists i :: 0 <= i < |es| && es[i].Contains(a)
  }

  predicate InAny(ds: seq<Descriptor>, a: nat) {
    exists i :: 0 <= i < |ds| && ds[i].Contains(a)
  }

  predicate InAnyBank(banks: seq<Bank>, a: nat) {
    exists i :: 0 <= i < |banks| && banks[i].Contains(a)
  }

  lemma CoversConcat(x: seq<Entry>, y: seq<Entry>, a: nat)
    ensures Covers(x + y, a) <==> Covers(x, a) || Covers(y, a)
  {
    if Covers(x, a) {
      var i :| 0 <= i < |x| && x[i].Contains(a);
      assert (x + y)[i].Contains(a);
    }
    if Covers(y, a) {
      var i :| 0 <= i < |y| && y[i].Contains(a);
      assert (x + y)[|x| + i].Contains(a);
    }
  }

  lemma InAnyCons(ds: seq<Descriptor>, a: nat)
    requires ds != []
    ensures InAny(ds, a) <==> ds[0].Contains(a) || InAny(ds[1..], a)
  {
    if InAny(ds[1..], a) {
      var i :| 0 <= i < |ds[1..]| && ds[1..][i].Contains(a);
      assert ds[i + 1].Contains(a);
    }
  }

  /** From the cursor on, a bank's entries cover the rest of the bank and the descriptors that
      touch it, and nothing else. */
  lemma {:induction false} BankCoverage(b: Bank, ds: seq<Descriptor>, cursor: nat, a: nat)
    requires b.base <= cursor
    ensures Covers(BankMap(b, ds, cursor), a) <==>
      cursor <= a < b.End() || (exists i :: 0 <= i < |ds| && Overlaps(ds[i], b) && ds[i].Contains(a))
  {
    if ds != [] {
      var d, c := ds[0], Max(cursor, ds[0].End());
      if Overlaps(d, b) {
        BankCoverage(b, ds[1..], c, a);
        CoversConcat(Gap(cursor, d.address) + [Dev(d)], BankMap(b, ds[1..], c), a);
        CoversConcat(Gap(cursor, d.address), [Dev(d)], a);
        assert Covers([Dev(d)], a) <==> d.Contains(a) by { assert [Dev(d)][0].Contains(a) <==> d.Contains(a); }
        GapCovers(cursor, d.address, a);
      } else {
        BankCoverage(b, ds[1..], cursor, a);
      }
      TouchingCons(b, ds, a);
    } else {
      GapCovers(cursor, b.End(), a);
    }
  }

  lemma TouchingCons(b: Bank, ds: seq<Descriptor>, a: nat)
    requires ds != []
    ensures (exists i :: 0 <= i < |ds| && Overlaps(ds[i], b) && ds[i].Contains(a)) <==>
      (Overlaps(ds[0], b) && ds[0].Contains(a)) ||
      (exists i :: 0 <= i < |ds[1..]| && Overlaps(ds[1..][i], b) && ds[1..][i].Contains(a))
  {
    if i :| 0 <= i < |ds[1..]| && Overlaps(ds[1..][i], b) && ds[1..][i].Contains(a) {
      assert Overlaps(ds[i + 1], b) && ds[i + 1].Contains(a);
    }
    if i :| 0 < i < |ds| && Overlaps(ds[i], b) && ds[i].Contains(a) {
      assert ds[1..][i - 1] == ds[i];
    }
  }

  lemma GapCovers(from: nat, to: nat, a: nat)
    ensures Covers(Gap(from, to), a) <==> from <= a < to
  {
    if from < to {
      assert Gap(from, to)[0].Contains(a) <==> from <= a < to;
    }
  }

  lemma {:induction false} BanksCoverage(banks: seq<Bank>, ds: seq<Descriptor>, a: nat)
    ensures Covers(AllBanks(banks, ds), a) <==>
      InAnyBank(banks, a) || (exists i :: 0 <= i < |ds| && InSomeBank(banks, ds[i]) && ds[i].Contains(a))
  {
    if banks != [] {
      var b, rest := banks[0], banks[1..];
      BankCoverage(b, ds, b.base, a);
      BanksCoverage(rest, ds, a);
      CoversConcat(BankMap(b, ds, b.base), AllBanks(rest, ds), a);
      assert InAnyBank(banks, a) <==> b.Contains(a) || InAnyBank(rest, a) by {
        if i :| 0 <= i < |rest| && rest[i].Contains(a) {
          assert banks[i + 1].Contains(a);
        }
      }
      forall d: Descriptor
        ensures InSomeBank(banks, d) <==> Overlaps(d, b) || InSomeBank(rest, d)
      {
        InSomeBankCons(banks, d);
      }
    }
  }

  lemma InSomeBankCons(banks: seq<Bank>, d: Descriptor)
    requires banks != []
    ensures InSomeBank(banks, d) <==> Overlaps(d, banks[0]) || InSomeBank(banks[1..], d)
  {
    if i :| 0 <= i < |banks[1..]| && Overlaps(d, banks[1..][i]) {
      assert Overlaps(d, banks[i + 1]);
    }
  }

  lemma {:induction false} OutsideCoverage(banks: seq<Bank>, ds: seq<Descriptor>, a: nat)
    ensures Covers(Outside(banks, ds), a) <==>
      exists i :: 0 <= i < |ds| && !InSomeBank(banks, ds[i]) && ds[i].Contains(a)
  {
    if ds != [] {
      OutsideCoverage(banks, ds[1..], a);
      var first: seq<Entry> := if InSomeBank(banks, ds[0]) then [] else [Dev(ds[0])];
      CoversConcat(first, Outside(banks, ds[1..]), a);
      assert Covers(first, a) <==> !InSomeBank(banks, ds[0]) && ds[0].Contains(a) by {
        if first != [] {
          assert first[0].Contains(a) <==> ds[0].Contains(a);
        }
      }
      if i :| 0 <= i < |ds[1..]| && !InSomeBank(banks, ds[1..][i]) && ds[1..][i].Contains(a) {
        assert !InSomeBank(banks, ds[i + 1]) && ds[i + 1].Contains(a);
      }
    }
  }

  /** For any descriptors in any order, overlapping or not: an address is in the merged map exactly
      when it is in a bank or in a descriptor. */
  lemma MergedCoverage(banks: seq<Bank>, ds: seq<Descriptor>, a: nat)
    ensures Covers(Merged(banks, ds), a) <==> InAnyBank(banks, a) || InAny(ds, a)
  {
    BanksCoverage(banks, ds, a);
    OutsideCoverage(banks, ds, a);
    CoversConcat(AllBanks(banks, ds), Outside(banks, ds), a);
  }

  // ----- exact shape, for sorted descriptors and separate banks

  /** Descriptors as the configuration lists them: non-empty, in order and apart from each other. */
  ghost predicate Sorted(ds: seq<Descriptor>) {
    && (forall i :: 0 <= i < |ds| ==> ds[i].length > 0)
    && (forall i, j :: 0 <= i < j < |ds| ==> ds[i].End() <= ds[j].address)
  }

  ghost predicate BanksApart(banks: seq<Bank>) {
    && (forall i :: 0 <= i < |banks| ==> banks[i].length > 0)
    && (forall i, j :: 0 <= i < j < |banks| ==> banks[i].End() <= banks[j].base || banks[j].End() <= banks[i].base)
  }

  /** A descriptor and a bank have an address in common. */
  ghost predicate Shares(d: Descriptor, b: Bank) {
    exists a: nat :: d.Contains(a) && b.Contains(a)
  }

  /** They share an address, or one of them is empty and lies strictly inside the other. */
  ghost predicate Touches(d: Descriptor, b: Bank) {
    || Shares(d, b)
    || (d.length == 0 && b.Contains(d.address) && b.base != d.address)
    || (b.length == 0 && d.Contains(b.base) && d.address != b.base)
  }

  lemma OverlapsIs(d: Descriptor, b: Bank)
    ensures Overlaps(d, b) <==> Touches(d, b)
    ensures d.length > 0 && b.length > 0 ==> (Overlaps(d, b) <==> Shares(d, b))
  {
    if Overlaps(d, b) && d.length > 0 && b.length > 0 {
      assert d.Contains(Max(d.address, b.base)) && b.Contains(Max(d.address, b.base));
    }
  }

  /** No descriptor touches two banks. */
  ghost predicate InOneBank(banks: seq<Bank>, ds: seq<Descriptor>) {
    forall k, i, j :: 0 <= k < |ds| && 0 <= i < j < |banks| ==> !(Touches(ds[k], banks[i]) && Touches(ds[k], banks[j]))
  }

  ghost predicate OverlapsOne(banks: seq<Bank>, ds: seq<Descriptor>) {
    forall k, i, j :: 0 <= k < |ds| && 0 <= i < j < |banks| ==> !(Overlaps(ds[k], banks[i]) && Overlaps(ds[k], banks[j]))
  }

  lemma OneBankIs(banks: seq<Bank>, ds: seq<Descriptor>)
    ensures InOneBank(banks, ds) <==> OverlapsOne(banks, ds)
  {
    hide Overlaps, Touches;
    forall d: Descriptor, b: Bank
      ensures Overlaps(d, b) <==> Touches(d, b)
    {
      OverlapsIs(d, b);
    }
  }

  /** The cursor is at the start of the bank, or no descriptor still to come begins before it. */
  ghost predicate CursorOk(b: Bank, ds: seq<Descriptor>, cursor: nat) {
    b.base <= cursor && (cursor == b.base || forall i :: 0 <= i < |ds| ==> cursor <= ds[i].address)
  }

  /** A maximal non-empty stretch of [lo, hi) without a descriptor. */
  ghost predicate IsGap(lo: nat, hi: nat, ds: seq<Descriptor>, base: nat, length: nat) {
    && length > 0 && lo <= base && base + length <= hi
    && (forall a :: base <= a < base + length ==> !InAny(ds, a))
    && (base == lo || InAny(ds, base - 1))
    && (base + length == hi || InAny(ds, base + length))
  }

  lemma SortedTail(b: Bank, ds: seq<Descriptor>, cursor: nat)
    requires Sorted(ds) && ds != [] && CursorOk(b, ds, cursor)
    ensures Sorted(ds[1..]) && CursorOk(b, ds[1..], cursor)
    ensures Overlaps(ds[0], b) ==> ds[0].End() > cursor && CursorOk(b, ds[1..], ds[0].End())
  {
  }

  lemma NotInLater(ds: seq<Descriptor>, a: nat)
    requires Sorted(ds) && ds != [] && a < ds[0].End()
    ensures !InAny(ds[1..], a)
  {
  }

  /** The RAM entries of a bank are exactly its maximal gaps. */
  lemma {:induction false} BankGaps(b: Bank, ds: seq<Descriptor>, cursor: nat, base: nat, length: nat)
    requires Sorted(ds) && CursorOk(b, ds, cursor)
    ensures Ram(base, length) in BankMap(b, ds, cursor) <==> IsGap(cursor, b.End(), ds, base, length)
  {
    if ds == [] {
      GapOfNothing(cursor, b.End(), base, length);
    } else {
      var d := ds[0];
      SortedTail(b, ds, cursor);
      if Overlaps(d, b) {
        BankGaps(b, ds[1..], d.End(), base, length);
        GapStep(b, ds, cursor, base, length);
      } else {
        BankGaps(b, ds[1..], cursor, base, length);
        GapSkip(b, ds, cursor, base, length);
      }
    }
  }

  lemma GapOfNothing(lo: nat, hi: nat, base: nat, length: nat)
    ensures Ram(base, length) in Gap(lo, hi) <==> IsGap(lo, hi, [], base, length)
  {
  }

  /** A descriptor that does not touch the bank makes no difference to its gaps. */
  lemma GapSkip(b: Bank, ds: seq<Descriptor>, cursor: nat, base: nat, length: nat)
    requires Sorted(ds) && ds != [] && b.base <= cursor && !Overlaps(ds[0], b)
    ensures IsGap(cursor, b.End(), ds, base, length) <==> IsGap(cursor, b.End(), ds[1..], base, length)
  {
    forall a | cursor <= a < b.End()
      ensures InAny(ds, a) <==> InAny(ds[1..], a)
    {
      InAnyCons(ds, a);
    }
  }

  /** A descriptor in the bank ends one gap, if there is room for it, and the next one starts behind it. */
  lemma GapStep(b: Bank, ds: seq<Descriptor>, cursor: nat, base: nat, length: nat)
    requires Sorted(ds) && ds != [] && CursorOk(b, ds, cursor) && Overlaps(ds[0], b)
    ensures IsGap(cursor, b.End(), ds, base, length) <==>
      Ram(base, length) in Gap(cursor, ds[0].address) || IsGap(ds[0].End(), b.End(), ds[1..], base, length)
  {
    var d, hi := ds[0], b.End();
    forall a: nat
      ensures InAny(ds, a) <==> d.Contains(a) || InAny(ds[1..], a)
      ensures a < d.End() ==> !InAny(ds[1..], a)
    {
      InAnyCons(ds, a);
      if a < d.End() {
        NotInLater(ds, a);
      }
    }
    if IsGap(cursor, hi, ds, base, length) {
      assert base + length <= d.address || d.End() <= base by {
        assert d.address < base + length && base < d.End() ==> d.Contains(Max(base, d.address));
      }
    }
    if Ram(base, length) in Gap(cursor, d.address) {
      assert d.Contains(d.address);
    }
    if IsGap(d.End(), hi, ds[1..], base, length) {
      assert d.Contains(d.End() - 1);
    }
  }

  /** Entries in address order, none reaching into the next. */
  ghost predicate InOrder(es: seq<Entry>) {
    forall i, j :: 0 <= i < j < |es| ==> es[i].End() <= es[j].Start()
  }

  /** Where the entries of a bank come from. */
  ghost predicate OfBank(b: Bank, ds: seq<Descriptor>, cursor: nat, e: Entry) {
    || (e.Ram? && e.length > 0 && cursor <= e.base && e.End() <= b.End())
    || (e.Dev? && e.d in ds && Overlaps(e.d, b))
  }

  lemma {:induction false} BankInOrder(b: Bank, ds: seq<Descriptor>, cursor: nat)
    requires Sorted(ds) && CursorOk(b, ds, cursor)
    ensures InOrder(BankMap(b, ds, cursor))
    ensures forall e :: e in BankMap(b, ds, cursor) ==> OfBank(b, ds, cursor, e)
  {
    if ds != [] {
      var d := ds[0];
      SortedTail(b, ds, cursor);
      if Overlaps(d, b) {
        BankInOrder(b, ds[1..], d.End());
        BankFront(b, ds, cursor, BankMap(b, ds[1..], d.End()));
      } else {
        BankInOrder(b, ds[1..], cursor);
      }
    }
  }

  lemma BankFront(b: Bank, ds: seq<Descriptor>, cursor: nat, tail: seq<Entry>)
    requires Sorted(ds) && ds != [] && CursorOk(b, ds, cursor) && Overlaps(ds[0], b) && ds[0].End() > cursor
    requires InOrder(tail) && forall e :: e in tail ==> OfBank(b, ds[1..], ds[0].End(), e)
    ensures var es := Gap(cursor, ds[0].address) + [Dev(ds[0])] + tail;
      InOrder(es) && forall e :: e in es ==> OfBank(b, ds, cursor, e)
  {
    var d := ds[0];
    forall i | 0 <= i < |tail|
      ensures d.End() <= tail[i].Start() && OfBank(b, ds, cursor, tail[i])
    {
      assert tail[i] in tail;
    }
  }

  ghost predicate Apart(x: Entry, y: Entry) {
    x.End() <= y.Start() || y.End() <= x.Start()
  }

  ghost predicate PairwiseApart(es: seq<Entry>) {
    forall i, j :: 0 <= i < j < |es| ==> Apart(es[i], es[j])
  }

  /** What an entry of the merged map comes from. */
  ghost predicate From(banks: seq<Bank>, ds: seq<Descriptor>, e: Entry) {
    match e
    case Ram(base, length) => exists i :: 0 <= i < |banks| && IsGap(banks[i].base, banks[i].End(), ds, base, length)
    case Dev(d) => d in ds && InSomeBank(banks, d)
  }

  lemma {:induction false} BanksFrom(banks: seq<Bank>, ds: seq<Descriptor>, e: Entry)
    requires Sorted(ds)
    ensures e in AllBanks(banks, ds) ==> From(banks, ds, e)
    ensures e.Ram? && From(banks, ds, e) ==> e in AllBanks(banks, ds)
  {
    if banks != [] {
      var b, rest := banks[0], banks[1..];
      BanksFrom(rest, ds, e);
      BankInOrder(b, ds, b.base);
      match e
      case Ram(base, length) =>
        BankGaps(b, ds, b.base, base, length);
        if i :| 0 <= i < |rest| && IsGap(rest[i].base, rest[i].End(), ds, base, length) {
          assert IsGap(banks[i + 1].base, banks[i + 1].End(), ds, base, length);
        }
        if i :| 0 < i < |banks| && IsGap(banks[i].base, banks[i].End(), ds, base, length) {
          assert rest[i - 1] == banks[i];
        }
      case Dev(d) =>
        InSomeBankCons(banks, d);
    }
  }

  /** Entries of different banks are apart. */
  lemma CrossBanks(banks: seq<Bank>, ds: seq<Descriptor>, x: Entry, y: Entry)
    requires Sorted(ds) && BanksApart(banks) && OverlapsOne(banks, ds) && banks != []
    requires x in BankMap(banks[0], ds, banks[0].base) && y in AllBanks(banks[1..], ds)
    ensures Apart(x, y)
  {
    var b, rest := banks[0], banks[1..];
    BankInOrder(b, ds, b.base);
    BanksFrom(rest, ds, y);
    if y.Dev? {
      var k :| 0 <= k < |ds| && ds[k] == y.d;
      var i :| 0 <= i < |rest| && Overlaps(y.d, rest[i]);
      assert rest[i] == banks[i + 1];
      assert !Overlaps(y.d, b);
    } else {
      var i :| 0 <= i < |rest| && IsGap(rest[i].base, rest[i].End(), ds, y.base, y.length);
      assert rest[i] == banks[i + 1];
      if x.Dev? {
        var k :| 0 <= k < |ds| && ds[k] == x.d;
        assert !Overlaps(x.d, rest[i]);
      }
    }
  }

  lemma {:induction false} BanksApartEntries(banks: seq<Bank>, ds: seq<Descriptor>)
    requires Sorted(ds) && BanksApart(banks) && OverlapsOne(banks, ds)
    ensures PairwiseApart(AllBanks(banks, ds))
  {
    if banks != [] {
      var b, rest := banks[0], banks[1..];
      BanksApartEntries(rest, ds);
      BankInOrder(b, ds, b.base);
      var x, y := BankMap(b, ds, b.base), AllBanks(rest, ds);
      forall i, j | 0 <= i < |x| && 0 <= j < |y|
        ensures Apart(x[i], y[j])
      {
        CrossBanks(banks, ds, x[i], y[j]);
      }
      PairwiseConcat(x, y);
    }
  }

  lemma PairwiseConcat(x: seq<Entry>, y: seq<Entry>)
    requires PairwiseApart(x) && PairwiseApart(y)
    requires forall i, j :: 0 <= i < |x| && 0 <= j < |y| ==> Apart(x[i], y[j])
    ensures PairwiseApart(x + y)
  {
  }

  lemma {:induction false} OutsideFrom(banks: seq<Bank>, ds: seq<Descriptor>)
    requires Sorted(ds)
    ensures PairwiseApart(Outside(banks, ds))
    ensures forall e :: e in Outside(banks, ds) <==> e.Dev? && e.d in ds && !InSomeBank(banks, e.d)
  {
    if ds != [] {
      OutsideFrom(banks, ds[1..]);
      var x: seq<Entry> := if InSomeBank(banks, ds[0]) then [] else [Dev(ds[0])];
      assert forall e: Entry :: e.Dev? && e.d in ds <==> e.Dev? && (e.d == ds[0] || e.d in ds[1..]);
      var y := Outside(banks, ds[1..]);
      forall i, j | 0 <= i < |x| && 0 <= j < |y|
        ensures Apart(x[i], y[j])
      {
        assert y[j] in y;
      }
      PairwiseConcat(x, y);
    }
  }

  /** The merged map is pairwise disjoint. */
  lemma MergedApart(banks: seq<Bank>, ds: seq<Descriptor>)
    requires Sorted(ds) && BanksApart(banks) && InOneBank(banks, ds)
    ensures PairwiseApart(Merged(banks, ds))
  {
    OneBankIs(banks, ds);
    BanksApartEntries(banks, ds);
    OutsideFrom(banks, ds);
    var x, y := AllBanks(banks, ds), Outside(banks, ds);
    forall i, j | 0 <= i < |x| && 0 <= j < |y|
      ensures Apart(x[i], y[j])
    {
      assert x[i] in x && y[j] in y;
      BanksFrom(banks, ds, x[i]);
      OutsideVersusBank(banks, ds, x[i], y[j].d);
    }
    PairwiseConcat(x, y);
  }

  lemma OutsideVersusBank(banks: seq<Bank>, ds: seq<Descriptor>, x: Entry, d: Descriptor)
    requires Sorted(ds) && From(banks, ds, x) && d in ds && !InSomeBank(banks, d)
    ensures Apart(x, Dev(d))
  {
    var k :| 0 <= k < |ds| && ds[k] == d;
    match x
    case Ram(base, length) =>
      var i :| 0 <= i < |banks| && IsGap(banks[i].base, banks[i].End(), ds, base, length);
      assert !Overlaps(d, banks[i]);
    case Dev(c) =>
      var l :| 0 <= l < |ds| && ds[l] == c;
  }

  // ----- the order of the map

  ghost predicate BanksInOrder(banks: seq<Bank>) {
    && (forall i :: 0 <= i < |banks| ==> banks[i].length > 0)
    && (forall i, j :: 0 <= i < j < |banks| ==> banks[i].End() <= banks[j].base)
  }

  /** Entries of a bank lie in front of those of the banks behind it. */
  lemma BankInFront(banks: seq<Bank>, ds: seq<Descriptor>, x: Entry, y: Entry)
    requires Sorted(ds) && BanksInOrder(banks) && OverlapsOne(banks, ds) && banks != []
    requires x in BankMap(banks[0], ds, banks[0].base) && y in AllBanks(banks[1..], ds)
    ensures x.End() <= y.Start()
  {
    hide IsGap, InAny;
    var b, rest := banks[0], banks[1..];
    BankInOrder(b, ds, b.base);
    BanksFrom(rest, ds, y);
    GapInside();
    var i: nat :| i < |rest| && if y.Dev? then Overlaps(y.d, rest[i]) else IsGap(rest[i].base, rest[i].End(), ds, y.base, y.length);
    assert rest[i] == banks[i + 1];
    if y.Dev? {
      var k :| 0 <= k < |ds| && ds[k] == y.d;
      assert !Overlaps(y.d, b);
    }
    if x.Dev? {
      var k :| 0 <= k < |ds| && ds[k] == x.d;
      assert !Overlaps(x.d, rest[i]);
    }
  }

  lemma GapInside()
    ensures forall lo, hi, ds, base, length :: IsGap(lo, hi, ds, base, length) ==> lo <= base && base + length <= hi
  {
  }

  lemma {:induction false} BanksOrder(banks: seq<Bank>, ds: seq<Descriptor>)
    requires Sorted(ds) && BanksInOrder(banks) && OverlapsOne(banks, ds)
    ensures InOrder(AllBanks(banks, ds))
  {
    if banks != [] {
      var b, rest := banks[0], banks[1..];
      BanksOrder(rest, ds);
      BankInOrder(b, ds, b.base);
      var x, y := BankMap(b, ds, b.base), AllBanks(rest, ds);
      forall i, j | 0 <= i < |x| && 0 <= j < |y|
        ensures x[i].End() <= y[j].Start()
      {
        BankInFront(banks, ds, x[i], y[j]);
      }
    }
  }

  lemma {:induction false} OutsideOrder(banks: seq<Bank>, ds: seq<Descriptor>)
    requires Sorted(ds)
    ensures InOrder(Outside(banks, ds))
  {
    hide InSomeBank;
    if ds != [] {
      OutsideOrder(banks, ds[1..]);
      OutsideFrom(banks, ds[1..]);
      var y := Outside(banks, ds[1..]);
      forall j | 0 <= j < |y|
        ensures y[j].Dev? && y[j].d in ds[1..] && ds[0].End() <= y[j].Start()
      {
        assert y[j] in y;
      }
    }
  }

  ghost predicate TouchesSome(banks: seq<Bank>, d: Descriptor) {
    exists i :: 0 <= i < |banks| && Touches(d, banks[i])
  }

  /** With the banks in order too, the map is in order twice: first the RAM and the descriptors that touch
      a bank, behind them the descriptors that touch none. */
  lemma MergedOrder(banks: seq<Bank>, ds: seq<Descriptor>)
    requires Sorted(ds) && BanksInOrder(banks) && InOneBank(banks, ds)
    ensures var es, n := Merged(banks, ds), |AllBanks(banks, ds)|;
      && n <= |es| && InOrder(es[..n]) && InOrder(es[n..])
      && forall i :: 0 <= i < |es| ==> (i < n <==> es[i].Ram? || TouchesSome(banks, es[i].d))
  {
    OneBankIs(banks, ds);
    BanksOrder(banks, ds);
    OutsideOrder(banks, ds);
    OutsideFrom(banks, ds);
    var es, x, y := Merged(banks, ds), AllBanks(banks, ds), Outside(banks, ds);
    assert es[..|x|] == x && es[|x|..] == y;
    forall i | 0 <= i < |es|
      ensures i < |x| <==> es[i].Ram? || TouchesSome(banks, es[i].d)
    {
      if es[i].Dev? {
        SomeBankIs(banks, es[i].d);
      }
      if i < |x| {
        assert es[i] in x;
        BanksFrom(banks, ds, es[i]);
      } else {
        assert es[i] in y;
      }
    }
  }

  lemma SomeBankIs(banks: seq<Bank>, d: Descriptor)
    ensures InSomeBank(banks, d) <==> TouchesSome(banks, d)
  {
    hide Overlaps, Touches;
    forall b: Bank
      ensures Overlaps(d, b) <==> Touches(d, b)
    {
      OverlapsIs(d, b);
    }
  }

  /** The RAM partitions are exactly the maximal gaps of the banks. */
  lemma RamIsGaps(banks: seq<Bank>, ds: seq<Descriptor>, base: nat, length: nat)
    requires Sorted(ds)
    ensures Ram(base, length) in Merged(banks, ds) <==>
      exists i :: 0 <= i < |banks| && IsGap(banks[i].base, banks[i].End(), ds, base, length)
  {
    BanksFrom(banks, ds, Ram(base, length));
    OutsideFrom(banks, ds);
  }

  // ----- every descriptor once

  function Devices(es: seq<Entry>): multiset<Descriptor> {
    if es == [] then multiset{} else (if es[0].Dev? then multiset{es[0].d} else multiset{}) + Devices(es[1..])
  }

  lemma {:induction false} DevicesConcat(x: seq<Entry>, y: seq<Entry>)
    ensures Devices(x + y) == Devices(x) + Devices(y)
  {
    if x == [] {
      assert x + y == y;
    } else {
      assert (x + y)[1..] == x[1..] + y;
      DevicesConcat(x[1..], y);
    }
  }

  function Touching(b: Bank, ds: seq<Descriptor>): multiset<Descriptor> {
    if ds == [] then multiset{} else (if Overlaps(ds[0], b) then multiset{ds[0]} else multiset{}) + Touching(b, ds[1..])
  }

  lemma {:induction false} BankDevices(b: Bank, ds: seq<Descriptor>, cursor: nat)
    ensures Devices(BankMap(b, ds, cursor)) == Touching(b, ds)
  {
    if ds != [] {
      var c := Max(cursor, ds[0].End());
      if Overlaps(ds[0], b) {
        BankDevices(b, ds[1..], c);
        DevicesConcat(Gap(cursor, ds[0].address) + [Dev(ds[0])], BankMap(b, ds[1..], c));
        DevicesConcat(Gap(cursor, ds[0].address), [Dev(ds[0])]);
        assert Devices([Dev(ds[0])]) == multiset{ds[0]} + Devices([Dev(ds[0])][1..]);
      } else {
        BankDevices(b, ds[1..], cursor);
      }
    }
  }

  /** The descriptors of all banks, one descriptor at a time. */
  lemma {:induction false} BanksDevices(banks: seq<Bank>, ds: seq<Descriptor>)
    requires ds != [] && OverlapsOne(banks, ds)
    ensures Devices(AllBanks(banks, ds)) ==
      (if InSomeBank(banks, ds[0]) then multiset{ds[0]} else multiset{}) + Devices(AllBanks(banks, ds[1..]))
  {
    if banks != [] {
      var b, rest := banks[0], banks[1..];
      BanksDevices(rest, ds);
      DevicesConcat(BankMap(b, ds, b.base), AllBanks(rest, ds));
      DevicesConcat(BankMap(b, ds[1..], b.base), AllBanks(rest, ds[1..]));
      BankDevices(b, ds, b.base);
      BankDevices(b, ds[1..], b.base);
      InSomeBankCons(banks, ds[0]);
      if i :| 0 <= i < |rest| && Overlaps(ds[0], rest[i]) {
        assert rest[i] == banks[i + 1];
        assert !Overlaps(ds[0], b);
      }
    }
  }

  lemma OutsideDevices(banks: seq<Bank>, ds: seq<Descriptor>)
    requires ds != []
    ensures Devices(Outside(banks, ds)) ==
      (if InSomeBank(banks, ds[0]) then multiset{} else multiset{ds[0]}) + Devices(Outside(banks, ds[1..]))
  {
    hide InSomeBank;
    if !InSomeBank(banks, ds[0]) {
      assert Outside(banks, ds)[1..] == Outside(banks, ds[1..]);
    } else {
      assert Outside(banks, ds) == Outside(banks, ds[1..]);
    }
  }

  /** Every descriptor is in the merged map, unchanged and as often as it is given. */
  lemma {:induction false} EveryDescriptorOnce(banks: seq<Bank>, ds: seq<Descriptor>)
    requires InOneBank(banks, ds)
    ensures Devices(Merged(banks, ds)) == multiset(ds)
  {
    hide AllBanks, Devices, InSomeBank;
    DevicesConcat(AllBanks(banks, ds), Outside(banks, ds));
    if ds == [] {
      NoDevices(banks);
    } else {
      var t := ds[1..];
      EveryDescriptorOnce(banks, t);
      OneBankIs(banks, ds);
      DevicesConcat(AllBanks(banks, t), Outside(banks, t));
      BanksDevices(banks, ds);
      OutsideDevices(banks, ds);
      assert ds == [ds[0]] + t;
    }
  }

  lemma {:induction false} NoDevices(banks: seq<Bank>)
    ensures Devices(AllBanks(banks, [])) == multiset{} && Devices(Outside(banks, [])) == multiset{}
  {
    if banks != [] {
      NoDevices(banks[1..]);
      BankDevices(banks[0], [], banks[0].base);
      DevicesConcat(BankMap(banks[0], [], banks[0].base), AllBanks(banks[1..], []));
    }
  }

  // ----- conservation

  function RamBytes(es: seq<Entry>): nat {
    if es == [] then 0 else (if es[0].Ram? then es[0].length else 0) + RamBytes(es[1..])
  }

  function Common(d: Descriptor, lo: nat, hi: nat): nat {
    var from, to := Max(lo, d.address), if d.End() < hi then d.End() else hi;
    if from < to then to - from else 0
  }

  /** The bytes of [lo, hi) that descriptors take. */
  function Taken(ds: seq<Descriptor>, lo: nat, hi: nat): nat {
    if ds == [] then 0 else Common(ds[0], lo, hi) + Taken(ds[1..], lo, hi)
  }

  function BankBytes(banks: seq<Bank>): nat {
    if banks == [] then 0 else banks[0].length + BankBytes(banks[1..])
  }

  function TakenInBanks(banks: seq<Bank>, ds: seq<Descriptor>): nat {
    if banks == [] then 0 else Taken(ds, banks[0].base, banks[0].End()) + TakenInBanks(banks[1..], ds)
  }

  lemma {:induction false} RamBytesConcat(x: seq<Entry>, y: seq<Entry>)
    ensures RamBytes(x + y) == RamBytes(x) + RamBytes(y)
  {
    if x == [] {
      assert x + y == y;
    } else {
      assert (x + y)[1..] == x[1..] + y;
      RamBytesConcat(x[1..], y);
    }
  }

  /** Moving the lower bound up to where all descriptors start changes nothing. */
  lemma {:induction false} TakenFrom(ds: seq<Descriptor>, lo: nat, mid: nat, hi: nat)
    requires lo <= mid && forall i :: 0 <= i < |ds| ==> mid <= ds[i].address
    ensures Taken(ds, lo, hi) == Taken(ds, mid, hi)
    ensures hi <= mid ==> Taken(ds, mid, hi) == 0
  {
    if ds != [] {
      TakenFrom(ds[1..], lo, mid, hi);
    }
  }

  lemma {:induction false} BankConservation(b: Bank, ds: seq<Descriptor>, cursor: nat)
    requires Sorted(ds) && CursorOk(b, ds, cursor)
    ensures RamBytes(BankMap(b, ds, cursor)) + Taken(ds, cursor, b.End()) == if cursor < b.End() then b.End() - cursor else 0
  {
    if ds != [] {
      var d := ds[0];
      SortedTail(b, ds, cursor);
      if Overlaps(d, b) {
        BankConservation(b, ds[1..], d.End());
        RamBytesConcat(Gap(cursor, d.address) + [Dev(d)], BankMap(b, ds[1..], d.End()));
        RamBytesConcat(Gap(cursor, d.address), [Dev(d)]);
        assert RamBytes([Dev(d)]) == RamBytes([Dev(d)][1..]) == 0;
        TakenFrom(ds[1..], cursor, d.End(), b.End());
      } else {
        BankConservation(b, ds[1..], cursor);
      }
    }
  }

  lemma {:induction false} BanksConservation(banks: seq<Bank>, ds: seq<Descriptor>)
    requires Sorted(ds)
    ensures RamBytes(AllBanks(banks, ds)) + TakenInBanks(banks, ds) == BankBytes(banks)
  {
    if banks != [] {
      BanksConservation(banks[1..], ds);
      BankConservation(banks[0], ds, banks[0].base);
      RamBytesConcat(BankMap(banks[0], ds, banks[0].base), AllBanks(banks[1..], ds));
    }
  }

  lemma {:induction false} OutsideHasNoRam(banks: seq<Bank>, ds: seq<Descriptor>)
    ensures RamBytes(Outside(banks, ds)) == 0
  {
    if ds != [] {
      OutsideHasNoRam(banks, ds[1..]);
      var first: seq<Entry> := if InSomeBank(banks, ds[0]) then [] else [Dev(ds[0])];
      RamBytesConcat(first, Outside(banks, ds[1..]));
      assert first != [] ==> RamBytes(first) == RamBytes(first[1..]) == 0;
    }
  }

  /** RAM partition bytes and descriptor bytes inside the banks add up to the banks. */
  lemma MergedConservation(banks: seq<Bank>, ds: seq<Descriptor>)
    requires Sorted(ds)
    ensures RamBytes(Merged(banks, ds)) + TakenInBanks(banks, ds) == BankBytes(banks)
  {
    BanksConservation(banks, ds);
    OutsideHasNoRam(banks, ds);
    RamBytesConcat(AllBanks(banks, ds), Outside(banks, ds));
  }

  // ----- the code

  const U64 := 0x1_0000_0000_0000_0000

  /** Unsigned 64-bit addition. */
  function Add64(a: nat, b: nat): nat { (a + b) % U64 }

  ghost predicate NoWrap(banks: seq<Bank>, ds: seq<Descriptor>) {
    && (forall i :: 0 <= i < |banks| ==> banks[i].End() < U64)
    && (forall i :: 0 <= i < |ds| ==> ds[i].End() < U64)
  }

  /** The descriptors in front of the first one of length zero. */
  function Listed(s: seq<Descriptor>): (r: seq<Descriptor>)
    ensures |r| <= |s| && r == s[..|r|]
    ensures forall i :: 0 <= i < |r| ==> r[i].length != 0
    ensures |r| < |s| ==> s[|r|].length == 0
  {
    if s == [] || s[0].length == 0 then [] else [s[0]] + Listed(s[1..])
  }

  lemma DescribeAppend(a: seq<Entry>, e: Entry)
    ensures Describe(a + [e]) == Describe(a) + [e.Describe()]
  {
  }

  class MemoryMapLib {
    const device: array<Descriptor>
    const merged: array<Descriptor>

    constructor (device: array<Descriptor>)
      requires device.Length == MAX_DESCRIPTOR_COUNT
      ensures this.device == device && fresh(merged) && merged.Length == MAX_DESCRIPTOR_COUNT
    {
      this.device := device;
      merged := new Descriptor[MAX_DESCRIPTOR_COUNT](_ => TERMINATOR);
    }

    ghost predicate Valid()
      reads this, device
    {
      && device.Length == MAX_DESCRIPTOR_COUNT && merged.Length == MAX_DESCRIPTOR_COUNT && device != merged
      && |Listed(device[..])| < MAX_DESCRIPTOR_COUNT
    }

    static predicate DescriptorOverlapsRegion(d: Descriptor, region: Bank) {
      d.address < Add64(region.base, region.length) && region.base < Add64(d.address, d.length)
    }

    /** AppendRamPartition and AppendDescriptor keep one slot free for the terminator. */
    method Append(count: nat, d: Descriptor) returns (status: Status, newCount: nat)
      requires merged.Length == MAX_DESCRIPTOR_COUNT && count < MAX_DESCRIPTOR_COUNT
      modifies merged
      ensures status == (if count >= MAX_DESCRIPTOR_COUNT - 1 then OutOfResources else Success)
      ensures status == Success ==> newCount == count + 1 && merged[..newCount] == old(merged[..count]) + [d]
    {
      if count >= MAX_DESCRIPTOR_COUNT - 1 {
        return OutOfResources, count;
      }
      merged[count] := d;
      return Success, count + 1;
    }

    method AppendRamPartition(count: nat, base: nat, length: nat) returns (status: Status, newCount: nat)
      requires merged.Length == MAX_DESCRIPTOR_COUNT && count < MAX_DESCRIPTOR_COUNT
      modifies merged
      ensures status == (if count >= MAX_DESCRIPTOR_COUNT - 1 then OutOfResources else Success)
      ensures status == Success ==>
        newCount == count + 1 && merged[..newCount] == old(merged[..count]) + [Ram(base, length).Describe()]
    {
      status, newCount := Append(count, Ram(base, length).Describe());
    }

    /** A descriptor that touches the bank, and the free stretch in front of it. */
    method MergeDescriptor(start: nat, cursor: nat, d: Descriptor, ghost acc: seq<Entry>) returns (status: Status, count: nat)
      requires merged.Length == MAX_DESCRIPTOR_COUNT && start == |acc| < MAX_DESCRIPTOR_COUNT
      requires merged[..start] == Describe(acc)
      modifies merged
      ensures var es := acc + Gap(cursor, d.address) + [Dev(d)];
        && (status == Success <==> |es| < MAX_DESCRIPTOR_COUNT)
        && (status == Success ==> count == |es| && merged[..count] == Describe(es))
    {
      hide Describe;
      count := start;
      if d.address > cursor {
        status, count := AppendRamPartition(count, cursor, d.address - cursor);
        if status != Success {
          return;
        }
        DescribeAppend(acc, Ram(cursor, d.address - cursor));
      }
      assert acc + Gap(cursor, d.address) == if d.address > cursor then acc + [Ram(cursor, d.address - cursor)] else acc;
      status, count := Append(count, d);
      DescribeAppend(acc + Gap(cursor, d.address), Dev(d));
    }

    /** What is left of a bank behind the last descriptor. */
    method MergeRest(start: nat, cursor: nat, end: nat, ghost acc: seq<Entry>) returns (status: Status, count: nat)
      requires merged.Length == MAX_DESCRIPTOR_COUNT && start == |acc| < MAX_DESCRIPTOR_COUNT
      requires merged[..start] == Describe(acc)
      modifies merged
      ensures var es := acc + Gap(cursor, end);
        && (status == Success <==> |es| < MAX_DESCRIPTOR_COUNT)
        && (status == Success ==> count == |es| && merged[..count] == Describe(es))
    {
      hide Describe;
      status, count := Success, start;
      if cursor < end {
        status, count := AppendRamPartition(count, cursor, end - cursor);
        DescribeAppend(acc, Ram(cursor, end - cursor));
      } else {
        assert acc + Gap(cursor, end) == acc;
      }
    }

    /** One bank: move the cursor over the descriptors that touch it. */
    method MergeRegion(region: Bank, ghost before: seq<Entry>, start: nat) returns (status: Status, count: nat)
      requires Valid() && start == |before| < MAX_DESCRIPTOR_COUNT && merged[..start] == Describe(before)
      requires NoWrap([region], Listed(device[..]))
      modifies merged
      ensures var es := before + BankMap(region, Listed(device[..]), region.base);
        && (status == Success <==> |es| < MAX_DESCRIPTOR_COUNT)
        && (status == Success ==> count == |es| && merged[..count] == Describe(es))
    {
      hide BankMap, Describe, Gap, Listed, Overlaps, DescriptorOverlapsRegion, Add64;
      ghost var ds, whole := Listed(device[..]), before + BankMap(region, Listed(device[..]), region.base);
      ghost var acc := before;
      var cursor: nat := region.base;
      count := start;
      var index := 0;
      assert [region][0] == region;
      while device[index].length != 0
        invariant index <= |ds| < MAX_DESCRIPTOR_COUNT && ds == Listed(device[..])
        invariant acc + BankMap(region, ds[index..], cursor) == whole
        invariant count == |acc| < MAX_DESCRIPTOR_COUNT && merged[..count] == Describe(acc)
        decreases |ds| - index
      {
        var d := device[index];
        assert d == ds[index] && ds[index..][1..] == ds[index + 1..];
        var descriptorEnd := Add64(d.address, d.length);
        NoWrapTest(d, region);
        BankMapStep(region, ds[index..], cursor, acc);
        index := index + 1;
        if !DescriptorOverlapsRegion(d, region) {
          continue;
        }
        status, count := MergeDescriptor(count, cursor, d, acc);
        acc := acc + Gap(cursor, d.address) + [Dev(d)];
        assert acc + BankMap(region, ds[index..], Max(cursor, d.End())) == whole;
        if status != Success {
          assert |whole| >= |acc| >= MAX_DESCRIPTOR_COUNT;
          assert device[..] == old(device[..]);
          assert whole == before + BankMap(region, Listed(device[..]), region.base);
          return;
        }
        if descriptorEnd > cursor {
          cursor := descriptorEnd;
        }
      }
      assert ds[index..] == [];
      BankMapEnd(region, ds[index..], cursor, acc);
      NoWrapTest(TERMINATOR, region);
      status, count := MergeRest(count, cursor, Add64(region.base, region.length), acc);
      assert status == Success <==> |whole| < MAX_DESCRIPTOR_COUNT;
      assert device[..] == old(device[..]);
      assert whole == before + BankMap(region, Listed(device[..]), region.base);
    }

    /** MergeDdrBankRegions: it fails only when the entries do not fit beside the terminator. */
    method MergeDdrBankRegions(banks: seq<Bank>) returns (status: Status)
      requires Valid() && NoWrap(banks, Listed(device[..]))
      modifies merged
      ensures var es := Merged(banks, Listed(device[..]));
        && (status == Success <==> |es| < MAX_DESCRIPTOR_COUNT)
        && (status == Success ==> merged[..|es|] == Describe(es) && merged[|es|] == TERMINATOR)
      ensures status == Success || status == OutOfResources
    {
      hide BankMap, Describe, InSomeBank;
      ghost var ds, acc := Listed(device[..]), [];
      var count := 0;
      assert merged[..0] == Describe(acc);
      for regionIndex := 0 to |banks|
        invariant ds == Listed(device[..]) && acc + AllBanks(banks[regionIndex..], ds) == AllBanks(banks, ds)
        invariant count == |acc| < MAX_DESCRIPTOR_COUNT && merged[..count] == Describe(acc)
      {
        assert banks[regionIndex..][1..] == banks[regionIndex + 1..];
        BanksStep(banks[regionIndex..], ds, acc);
        status, count := MergeRegion(banks[regionIndex], acc, count);
        if status != Success {
          return OutOfResources;
        }
        acc := acc + BankMap(banks[regionIndex], ds, banks[regionIndex].base);
      }
      assert acc == AllBanks(banks, ds);
      var index := 0;
      while device[index].length != 0
        invariant index <= |ds| < MAX_DESCRIPTOR_COUNT && ds == Listed(device[..])
        invariant acc + Outside(banks, ds[index..]) == Merged(banks, ds)
        invariant count == |acc| < MAX_DESCRIPTOR_COUNT && merged[..count] == Describe(acc)
        decreases |ds| - index
      {
        var d := device[index];
        assert d == ds[index] && ds[index..][1..] == ds[index + 1..];
        OutsideStep(banks, ds[index..], acc);
        index := index + 1;
        var overlapsDdrBank := TouchesSomeBank(banks, d);
        if !overlapsDdrBank {
          status, count := Append(count, d);
          if status != Success {
            return;
          }
          DescribeAppend(acc, Dev(d));
          acc := acc + [Dev(d)];
        }
      }
      merged[count] := TERMINATOR;
      assert acc == Merged(banks, ds);
      status := Success;
    }

    /** Does a descriptor touch any bank? */
    static method TouchesSomeBank(banks: seq<Bank>, d: Descriptor) returns (overlaps: bool)
      requires NoWrap(banks, [d])
      ensures overlaps == InSomeBank(banks, d)
    {
      assert [d][0] == d;
      for regionIndex := 0 to |banks|
        invariant !InSomeBank(banks[..regionIndex], d)
      {
        if DescriptorOverlapsRegion(d, banks[regionIndex]) {
          return true;
        }
        assert banks[..regionIndex + 1] == banks[..regionIndex] + [banks[regionIndex]];
      }
      assert banks[..|banks|] == banks;
      overlaps := false;
    }
  }

  lemma NoWrapTest(d: Descriptor, b: Bank)
    requires d.End() < U64 && b.End() < U64
    ensures MemoryMapLib.DescriptorOverlapsRegion(d, b) == Overlaps(d, b)
    ensures Add64(d.address, d.length) == d.End() && Add64(b.base, b.length) == b.End()
  {
  }

  /** What one round of the sweep adds, in the order it is appended. */
  lemma BankMapStep(b: Bank, ds: seq<Descriptor>, cursor: nat, acc: seq<Entry>)
    requires ds != []
    ensures var d := ds[0];
      acc + BankMap(b, ds, cursor) ==
        if Overlaps(d, b) then acc + Gap(cursor, d.address) + [Dev(d)] + BankMap(b, ds[1..], Max(cursor, d.End()))
        else acc + BankMap(b, ds[1..], cursor)
  {
  }

  lemma BankMapEnd(b: Bank, ds: seq<Descriptor>, cursor: nat, acc: seq<Entry>)
    requires ds == []
    ensures acc + BankMap(b, ds, cursor) == acc + Gap(cursor, b.End())
  {
  }

  lemma BanksStep(banks: seq<Bank>, ds: seq<Descriptor>, acc: seq<Entry>)
    requires banks != []
    ensures acc + AllBanks(banks, ds) == acc + BankMap(banks[0], ds, banks[0].base) + AllBanks(banks[1..], ds)
  {
    hide BankMap;
  }

  lemma OutsideStep(banks: seq<Bank>, ds: seq<Descriptor>, acc: seq<Entry>)
    requires ds != []
    ensures acc + Outside(banks, ds) ==
      (if InSomeBank(banks, ds[0]) then acc else acc + [Dev(ds[0])]) + Outside(banks, ds[1..])
  {
    hide InSomeBank;
    assert acc + [] == acc;
  }
}
