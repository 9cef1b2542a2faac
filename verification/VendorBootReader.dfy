/** Reading a vendor boot image back: header, page rounding and table recover every ramdisk. */
module VendorBootReader {
  import opened Bits
  import opened BootImage
  import opened BootImageReader
  import opened Bytes
  import opened Paging
  import opened Struct
  import opened VendorBoot

  const VENDOR_VERSION_AT: nat := 8
  const VENDOR_REST_KINDS: seq<Kind> := [KI, KI, KI, KI, KS(VENDOR_ARGS_SIZE), KI, KS(NAME_SIZE), KI, KI, KQ]
  const ENTRY_HEAD_KINDS: seq<Kind> := [KI, KI, KI, KS(RAMDISK_NAME_SIZE)]

  function VendorTailKinds(version: int): seq<Kind> {
    if version > 3 then [KI, KI, KI, KI] else []
  }

  function VendorKinds(version: int): seq<Kind> {
    [KS(8)] + [KI] + (VENDOR_REST_KINDS + VendorTailKinds(version))
  }

  function EntryKinds(): seq<Kind> {
    ENTRY_HEAD_KINDS + seq(BOARD_ID_SIZE, _ => KI)
  }

  function FragmentOf(fs: seq<Field>, ramdisk: seq<byte>): Fragment {
    Fragment(ramdisk, Num(fs, 2), UpToNul(Text(fs, 3)), seq(BOARD_ID_SIZE, j requires 0 <= j < BOARD_ID_SIZE => Num(fs, 4 + j)))
  }

  /** Entry i of the table cuts its ramdisk out of the region of ramdisks. */
  function ReadEntry(table: seq<byte>, region: seq<byte>, i: nat, entrySize: nat): Option<Fragment> {
    match UnpackAll(table, i * entrySize, EntryKinds())
    case None => None
    case Some(fs) =>
      var size, offset := Size(fs, 0), Size(fs, 1);
      if offset + size > |region| then None else Some(FragmentOf(fs, region[offset..offset + size]))
  }

  function ReadTable(table: seq<byte>, region: seq<byte>, n: nat, entrySize: nat): Option<seq<Fragment>> {
    if n == 0 then Some([])
    else
      match (ReadTable(table, region, n - 1, entrySize), ReadEntry(table, region, n - 1, entrySize))
      case (Some(fs), Some(f)) => Some(fs + [f])
      case _ => None
  }

  datatype Ramdisk = Single(ramdisk: seq<byte>) | Several(fragments: seq<Fragment>, bootconfig: seq<byte>)

  datatype Vendor = Vendor(version: int, pagesize: int, kernelAt: int, ramdiskAt: int, tagsAt: int, dtbAt: int,
                           cmdline: seq<byte>, name: seq<byte>, dtb: seq<byte>, ramdisk: Ramdisk)

  function VendorOf(version: int, fs: seq<Field>, dtb: seq<byte>, ramdisk: Ramdisk): Vendor {
    Vendor(version, Num(fs, 2), Num(fs, 3), Num(fs, 4), Num(fs, 7), Num(fs, 11), UpToNul(Text(fs, 6)), UpToNul(Text(fs, 8)), dtb, ramdisk)
  }

  function VendorSizes(version: int, fs: seq<Field>): seq<nat> {
    if version > 3 then [Size(fs, 5), Size(fs, 10), Size(fs, 12), Size(fs, 15)] else [Size(fs, 5), Size(fs, 10)]
  }

  /** The cut sections of a whole image, made sense of. */
  function VendorWith(version: int, fs: seq<Field>, files: seq<seq<byte>>): Option<Vendor> {
    if |files| == 2 then Some(VendorOf(version, fs, files[1], Single(files[0])))
    else if |files| == 4 then
      match ReadTable(files[2], files[0], Size(fs, 13), Size(fs, 14))
      case None => None
      case Some(fragments) => Some(VendorOf(version, fs, files[1], Several(fragments, files[3])))
    else None
  }

  function ReadVendor(img: seq<byte>): Option<Vendor> {
    if |img| < VENDOR_VERSION_AT + 4 then None
    else
      var version := ReadLe32(img, VENDOR_VERSION_AT);
      if version != 3 && version != 4 then None
      else
        match UnpackAll(img, 0, VendorKinds(version))
        case None => None
        case Some(fs) =>
          var page := Size(fs, 2);
          if Text(fs, 0) != VENDOR_MAGIC || page == 0 then None
          else
            match Cut(img, RoundUp(WidthOf(VendorKinds(version)), page), VendorSizes(version, fs), page)
            case None => None
            case Some(files) => VendorWith(version, fs, files)
  }

  // ----- the table

  /** A fragment as the reader shows it: the name without its NUL. */
  function Shown(f: Fragment): Fragment {
    f.(name := Stripped(f.name))
  }

  function ShownAll(fs: seq<Fragment>): (r: seq<Fragment>)
    ensures |r| == |fs| && forall i :: 0 <= i < |r| ==> r[i] == Shown(fs[i])
  {
    seq(|fs|, i requires 0 <= i < |fs| => Shown(fs[i]))
  }

  /** A name from the command line, or no name. */
  ghost predicate NameWritten(name: seq<byte>) {
    name == [] || exists text: seq<byte> :: 0 !in text && |text| < RAMDISK_NAME_SIZE && name == text + [0]
  }

  lemma NameRead(name: seq<byte>)
    requires NameWritten(name)
    ensures UpToNul(FitText(RAMDISK_NAME_SIZE, name)) == Stripped(name)
  {
    hide UpToNul;
    if name == [] {
      assert [] + FitText(RAMDISK_NAME_SIZE, name) == FitText(RAMDISK_NAME_SIZE, name);
      UpToNulOfText([], FitText(RAMDISK_NAME_SIZE, name));
    } else {
      var text: seq<byte> :| 0 !in text && |text| < RAMDISK_NAME_SIZE && name == text + [0];
      TextRoundTrip(RAMDISK_NAME_SIZE, text);
      assert name[..|text|] == text;
      assert text != [] ==> text[|text| - 1] != 0;
    }
  }

  lemma EntryKindsOf(e: Entry)
    requires |e.fragment.boardId| == BOARD_ID_SIZE
    ensures KindsOf(EntryFields(e)) == EntryKinds()
  {
  }

  lemma EntryWidth()
    ensures WidthOf(EntryKinds()) == TABLE_ENTRY_SIZE
  {
    hide WidthOf;
    WidthOfConcat(ENTRY_HEAD_KINDS, seq(BOARD_ID_SIZE, _ => KI));
    WidthOfNumbers(BOARD_ID_SIZE);
    EntryHeadWidth();
  }

  lemma EntryHeadWidth()
    ensures WidthOf(ENTRY_HEAD_KINDS) == 44
  {
    var r := ENTRY_HEAD_KINDS;
    assert r[3..][1..] == [] && r[2..][1..] == r[3..] && r[1..][1..] == r[2..];
    assert WidthOf(r[3..]) == 32;
    assert WidthOf(r[2..]) == 36;
  }

  lemma {:induction false} WidthOfNumbers(n: nat)
    ensures WidthOf(seq(n, _ => KI)) == 4 * n
  {
    if n > 0 {
      assert seq(n, _ => KI)[1..] == seq(n - 1, _ => KI);
      WidthOfNumbers(n - 1);
    }
  }

  lemma {:induction false} TableWidth(es: seq<Entry>)
    requires AllFit(TableFields(es)) && forall i :: 0 <= i < |es| ==> |es[i].fragment.boardId| == BOARD_ID_SIZE
    ensures |PackAll(TableFields(es))| == |es| * TABLE_ENTRY_SIZE
    decreases |es|
  {
    hide AllFit, EntryFields, PackAll, EntryKinds, KindsOf;
    if es == [] {
      TableOfNothing();
    } else {
      var last := |es| - 1;
      var before, fields := TableFields(es[..last]), EntryFields(es[last]);
      AllFitConcat(before, fields);
      PackAllConcat(before, fields);
      TableWidth(es[..last]);
      EntryKindsOf(es[last]);
      EntryWidth();
      PackAllWidth(fields);
    }
  }

  /** What stands in an entry of the table. */
  lemma EntryRead(e: Entry, table: seq<byte>, region: seq<byte>, i: nat)
    requires AllFit(EntryFields(e)) && |e.fragment.boardId| == BOARD_ID_SIZE && NameWritten(e.fragment.name)
    requires (i + 1) * TABLE_ENTRY_SIZE <= |table|
    requires table[i * TABLE_ENTRY_SIZE..(i + 1) * TABLE_ENTRY_SIZE] == PackAll(EntryFields(e))
    requires e.offset + e.size <= |region| && region[e.offset..e.offset + e.size] == e.fragment.ramdisk
    ensures ReadEntry(table, region, i, TABLE_ENTRY_SIZE) == Some(Shown(e.fragment))
  {
    hide AllFit, EntryFields, PackAll, EntryKinds, KindsOf, UnpackAll, FragmentOf, NameWritten, Size;
    EntryKindsOf(e);
    RoundTrip(EntryFields(e), table, i * TABLE_ENTRY_SIZE);
    EntryValues(e, StoredAll(EntryFields(e)));
  }

  lemma EntryValues(e: Entry, fs: seq<Field>)
    requires fs == StoredAll(EntryFields(e)) && |e.fragment.boardId| == BOARD_ID_SIZE && NameWritten(e.fragment.name)
    ensures Size(fs, 0) == e.size && Size(fs, 1) == e.offset && FragmentOf(fs, e.fragment.ramdisk) == Shown(e.fragment)
  {
    hide UpToNul, Stripped, FitText, NameWritten;
    NameRead(e.fragment.name);
    var id := e.fragment.boardId;
    assert forall j :: 0 <= j < BOARD_ID_SIZE ==> EntryFields(e)[4 + j] == I(id[j]);
    assert FragmentOf(fs, e.fragment.ramdisk).boardId == id;
  }

  /** The ramdisks of the first entries are a prefix of all. */
  lemma {:induction false} RamdisksPrefix(fs: seq<Fragment>, k: nat)
    requires k <= |fs|
    ensures Ramdisks(fs[..k]) <= Ramdisks(fs)
    decreases |fs| - k
  {
    if k < |fs| {
      RamdisksPrefix(fs, k + 1);
      RamdisksOneMore(fs, k);
    } else {
      assert fs[..k] == fs;
    }
  }

  /** Offset and size of every entry cut exactly its ramdisk out. */
  lemma EntryCutsItsRamdisk(fs: seq<Fragment>, k: nat)
    requires k < |fs|
    ensures var e, region := Placed(fs)[k], Ramdisks(fs);
      e.offset + e.size <= |region| && region[e.offset..e.offset + e.size] == fs[k].ramdisk
  {
    hide Ramdisks;
    RamdisksPrefix(fs, k + 1);
    RamdisksOneMore(fs, k);
  }

  /** A table of the first entries is a prefix of the whole table, and entry k stands where it should. */
  lemma {:induction false} TablePrefix(es: seq<Entry>, k: nat)
    requires k < |es| && AllFit(TableFields(es)) && forall i :: 0 <= i < |es| ==> |es[i].fragment.boardId| == BOARD_ID_SIZE
    ensures AllFit(TableFields(es[..k + 1])) && PackAll(TableFields(es[..k + 1])) <= PackAll(TableFields(es))
    decreases |es| - k
  {
    hide AllFit, EntryFields, PackAll, TableFields;
    if k + 1 == |es| {
      assert es[..k + 1] == es;
    } else {
      TablePrefix(es, k + 1);
      TableFieldsOneMore(es, k + 1);
      AllFitConcat(TableFields(es[..k + 1]), EntryFields(es[k + 1]));
      PackAllConcat(TableFields(es[..k + 1]), EntryFields(es[k + 1]));
    }
  }

  lemma EntryStands(es: seq<Entry>, k: nat)
    requires k < |es| && AllFit(TableFields(es)) && forall i :: 0 <= i < |es| ==> |es[i].fragment.boardId| == BOARD_ID_SIZE
    ensures AllFit(EntryFields(es[k]))
    ensures var table := PackAll(TableFields(es));
      (k + 1) * TABLE_ENTRY_SIZE <= |table|
      && table[k * TABLE_ENTRY_SIZE..(k + 1) * TABLE_ENTRY_SIZE] == PackAll(EntryFields(es[k]))
  {
    hide AllFit, EntryFields, PackAll, TableFields;
    TablePrefix(es, k);
    TableFieldsOneMore(es, k);
    var before := TableFields(es[..k]);
    AllFitConcat(before, EntryFields(es[k]));
    PackAllConcat(before, EntryFields(es[k]));
    TableWidth(es[..k]);
    TableWidth(es[..k + 1]);
    var table, part := PackAll(TableFields(es)), PackAll(TableFields(es[..k + 1]));
    assert table[..|part|] == part;
    assert table[k * TABLE_ENTRY_SIZE..(k + 1) * TABLE_ENTRY_SIZE] == part[k * TABLE_ENTRY_SIZE..];
  }

  ghost predicate TableReadable(fs: seq<Fragment>) {
    forall i :: 0 <= i < |fs| ==> BoardIdFits(fs[i].boardId) && NameWritten(fs[i].name)
  }

  lemma {:induction false} TableRoundTrip(fs: seq<Fragment>, n: nat)
    requires n <= |fs| && TableReadable(fs) && AllFit(TableFields(Placed(fs)))
    ensures ReadTable(PackAll(TableFields(Placed(fs))), Ramdisks(fs), n, TABLE_ENTRY_SIZE) == Some(ShownAll(fs[..n]))
  {
    hide AllFit, EntryFields, PackAll, TableFields, Ramdisks, NameWritten, Shown, ReadEntry;
    if n > 0 {
      var k := n - 1;
      TableRoundTrip(fs, k);
      EntryStands(Placed(fs), k);
      EntryCutsItsRamdisk(fs, k);
      EntryRead(Placed(fs)[k], PackAll(TableFields(Placed(fs))), Ramdisks(fs), k);
      assert ShownAll(fs[..n]) == ShownAll(fs[..k]) + [Shown(fs[k])];
    }
  }

  // ----- the header

  lemma VendorKindsOf(a: VendorArgs)
    ensures KindsOf(VendorFields(a)) == VendorKinds(a.version)
  {
    hide TotalSize, AllFragments;
    assert KindsOf(VendorRest(a)) == VENDOR_REST_KINDS;
    assert KindsOf(VendorTail(a)) == VendorTailKinds(a.version);
  }

  lemma VendorVersion(a: VendorArgs, img: seq<byte>)
    requires AllFit(VendorFields(a)) && PackAll(VendorFields(a)) <= img
    ensures |img| >= VENDOR_VERSION_AT + 4 && ReadLe32(img, VENDOR_VERSION_AT) == a.version
  {
    hide AllFit, PackAll, VendorRest, VendorTail, ReadLe32;
    NumberAt([S(8, VENDOR_MAGIC)], a.version, VendorRest(a) + VendorTail(a), img);
    MagicWidth();
  }

  lemma MagicWidth()
    ensures WidthOf(KindsOf([S(8, VENDOR_MAGIC)])) == VENDOR_VERSION_AT
  {
    var ks := KindsOf([S(8, VENDOR_MAGIC)]);
    assert ks == [KS(8)] && ks[1..] == [];
  }

  /** Texts without a NUL inside. */
  predicate VendorReadable(a: VendorArgs) {
    VendorWritable(a) && 0 !in a.board && 0 !in a.vendorCmdline && forall i :: 0 <= i < |a.groups| ==> 0 !in a.groups[i].name
  }

  function VendorExpected(a: VendorArgs): Vendor {
    Vendor(a.version, a.pagesize, a.base + a.kernelOffset, a.base + a.ramdiskOffset, a.base + a.tagsOffset, a.base + a.dtbOffset,
           a.vendorCmdline, a.board, Content(a.dtb),
           if a.version == 4 then Several(ShownAll(AllFragments(a)), Content(a.bootconfig)) else Single(Content(a.vendorRamdisk)))
  }

  lemma VendorFieldAt(a: VendorArgs)
    ensures var f, r, t := VendorFields(a), VendorRest(a), VendorTail(a);
      && |f| == 12 + |t| && |r| == 10 && f[0] == S(8, VENDOR_MAGIC)
      && f[2] == r[0] && f[3] == r[1] && f[4] == r[2] && f[5] == r[3] && f[6] == r[4] && f[7] == r[5] && f[8] == r[6]
      && f[10] == r[8] && f[11] == r[9]
      && (a.version > 3 ==> |t| == 4 && f[12] == t[0] && f[13] == t[1] && f[14] == t[2] && f[15] == t[3])
  {
    hide TotalSize, AllFragments;
  }

  lemma VendorTableSize(a: VendorArgs)
    requires VendorWritable(a) && a.version == 4
    ensures |PackAll(Table(a))| == |AllFragments(a)| * TABLE_ENTRY_SIZE
  {
    hide AllFit, PackAll, TableFields, AllFragments, NamesAllowed;
    TableWidth(Placed(AllFragments(a)));
  }

  lemma VendorValues(a: VendorArgs, fs: seq<Field>)
    requires VendorWritable(a) && fs == StoredAll(VendorFields(a))
    ensures VendorSizes(a.version, fs) == Sizes(VendorFiles(a))
    ensures Size(fs, 2) == a.pagesize && Text(fs, 0) == VENDOR_MAGIC
    ensures a.version == 4 ==> Size(fs, 13) == |AllFragments(a)| && Size(fs, 14) == TABLE_ENTRY_SIZE
  {
    hide AllFit, PackAll, Table, Ramdisks, AllFragments, FragmentsAllowed, VendorFields;
    VendorFieldAt(a);
    assert FitText(8, VENDOR_MAGIC) == VENDOR_MAGIC;
    if a.version == 4 {
      VendorTableSize(a);
    }
  }

  lemma VendorTexts(a: VendorArgs, fs: seq<Field>, ramdisk: Ramdisk)
    requires VendorReadable(a) && fs == StoredAll(VendorFields(a)) && ramdisk == VendorExpected(a).ramdisk
    ensures VendorOf(a.version, fs, Content(a.dtb), ramdisk) == VendorExpected(a)
  {
    hide AllFit, PackAll, Table, Ramdisks, AllFragments, FragmentsAllowed, VendorFields, UpToNul, TotalSize, ShownAll;
    VendorFieldAt(a);
    TextRoundTrip(NAME_SIZE, a.board);
    TextRoundTrip(VENDOR_ARGS_SIZE, a.vendorCmdline);
  }

  lemma FragmentsReadable(a: VendorArgs)
    requires VendorReadable(a) && a.version == 4
    ensures TableReadable(AllFragments(a))
  {
    hide AllFit, PackAll, Table, Ramdisks, NamesAllowed, BoardIdFits;
    var fs := AllFragments(a);
    forall i | 0 <= i < |fs|
      ensures BoardIdFits(fs[i].boardId) && NameWritten(fs[i].name)
    {
      var first := |FirstFragment(a)|;
      if i >= first {
        var text := a.groups[i - first].name;
        assert fs[i].name == text + [0];
      }
    }
  }

  lemma VendorWithFiles(a: VendorArgs, fs: seq<Field>)
    requires VendorReadable(a) && fs == StoredAll(VendorFields(a))
    ensures VendorWith(a.version, fs, VendorFiles(a)) == Some(VendorExpected(a))
  {
    hide AllFit, PackAll, Ramdisks, AllFragments, FragmentsAllowed, VendorFields, VendorOf, ShownAll, TableFields, TableReadable,
      Size, ReadTable;
    VendorTexts(a, fs, VendorExpected(a).ramdisk);
    VendorValues(a, fs);
    if a.version == 4 {
      FragmentsReadable(a);
      var all := AllFragments(a);
      TableRoundTrip(all, |all|);
      assert all[..|all|] == all;
    }
  }

  /** Every vendor image that is written is read back, with every ramdisk of its table. */
  lemma VendorRoundTrip(a: VendorArgs)
    requires VendorReadable(a)
    ensures ReadVendor(VendorImage(a)) == Some(VendorExpected(a))
  {
    hide AllFit, VendorFields, PackAll, KindsOf, Sections, VendorFiles, UnpackAll, Cut, Padded, RoundUp, WidthOf, VendorKinds,
      VendorSizes, VendorWith, VendorExpected, Text, Size, ReadLe32, StoredAll, Table, FragmentsAllowed;
    var img, fields, page := VendorImage(a), VendorFields(a), a.pagesize;
    var packed := PackAll(fields);
    assert packed <= img;
    VendorVersion(a, img);
    VendorKindsOf(a);
    assert img[0..|packed|] == packed;
    RoundTrip(fields, img, 0);
    PackAllWidth(fields);
    var at := |Padded(packed, page)|;
    assert img[at..at + |Sections(VendorFiles(a), page)|] == Sections(VendorFiles(a), page);
    CutSections(VendorFiles(a), img, at, page);
    VendorValues(a, StoredAll(fields));
    VendorWithFiles(a, StoredAll(fields));
  }

  /** No two ramdisks of an image have the same name, and none the banned one. */
  lemma NamesDiffer(a: VendorArgs, v: Vendor, i: nat, j: nat)
    requires VendorReadable(a) && ReadVendor(VendorImage(a)) == Some(v)
    requires v.ramdisk.Several? && i < j < |v.ramdisk.fragments|
    ensures var r := v.ramdisk.fragments;
      r[i].name != r[j].name && r[i].name != BANNED_NAME && r[j].name != BANNED_NAME
  {
    hide AllFit, Stripped, ReadVendor, VendorImage, VendorFields, Table, AllFragments;
    VendorRoundTrip(a);
  }
}
