/** The vendor boot image: the table of vendor ramdisks and the writer. */
module VendorBoot {
  import opened Bits
  import opened BootImage
  import opened Bytes
  import opened OsVersion
  import opened Paging
  import opened Struct

  const VENDOR_MAGIC: seq<byte> := [0x56, 0x4E, 0x44, 0x52, 0x42, 0x4F, 0x4F, 0x54]
  const VENDOR_ARGS_SIZE: nat := 2048
  const VENDOR_HEADER_V3_SIZE: nat := 2112
  const VENDOR_HEADER_V4_SIZE: nat := 2128
  const RAMDISK_TYPE_PLATFORM: int := 1
  const RAMDISK_NAME_SIZE: nat := 32
  const BOARD_ID_SIZE: nat := 16
  const TABLE_ENTRY_SIZE: nat := 108
  /** "default", a name nobody may use. */
  const BANNED_NAME: seq<byte> := [0x64, 0x65, 0x66, 0x61, 0x75, 0x6C, 0x74]

  // ----- the table of ramdisks

  datatype Fragment = Fragment(ramdisk: seq<byte>, kind: int, name: seq<byte>, boardId: seq<int>)
  datatype Entry = Entry(fragment: Fragment, size: nat, offset: nat)

  /** A name without its trailing NULs. */
  function Stripped(name: seq<byte>): seq<byte> {
    if name != [] && name[|name| - 1] == 0 then Stripped(name[..|name| - 1]) else name
  }

  predicate BoardIdFits(boardId: seq<int>) {
    |boardId| == BOARD_ID_SIZE && forall i :: 0 <= i < |boardId| ==> 0 <= boardId[i] < TWO_32
  }

  /** All ramdisks, one directly behind the other. */
  function Ramdisks(fs: seq<Fragment>): seq<byte> {
    if fs == [] then [] else Ramdisks(fs[..|fs| - 1]) + fs[|fs| - 1].ramdisk
  }

  /** Every offset is the size of all ramdisks before. */
  function Placed(fs: seq<Fragment>): (es: seq<Entry>)
    ensures |es| == |fs|
    ensures forall i :: 0 <= i < |es| ==> es[i] == Entry(fs[i], |fs[i].ramdisk|, |Ramdisks(fs[..i])|)
  {
    seq(|fs|, i requires 0 <= i < |fs| => Entry(fs[i], |fs[i].ramdisk|, |Ramdisks(fs[..i])|))
  }

  lemma PlacedOneMore(fs: seq<Fragment>, k: nat)
    requires k < |fs|
    ensures Ramdisks(fs[..k + 1]) == Ramdisks(fs[..k]) + fs[k].ramdisk
    ensures Placed(fs[..k + 1]) == Placed(fs[..k]) + [Entry(fs[k], |fs[k].ramdisk|, |Ramdisks(fs[..k])|)]
  {
    hide Ramdisks;
    RamdisksOneMore(fs, k);
    var more := fs[..k + 1];
    assert forall i :: 0 <= i <= k ==> more[..i] == fs[..i];
    assert forall i :: 0 <= i < k ==> fs[..k][..i] == fs[..i];
  }

  lemma RamdisksOneMore(fs: seq<Fragment>, k: nat)
    requires k < |fs|
    ensures Ramdisks(fs[..k + 1]) == Ramdisks(fs[..k]) + fs[k].ramdisk
  {
    assert fs[..k + 1][..k] == fs[..k];
  }

  /** The names a table may have: none banned, no two the same. */
  predicate NamesAllowed(fs: seq<Fragment>) {
    && (forall i :: 0 <= i < |fs| ==> Stripped(fs[i].name) != BANNED_NAME)
    && forall i, j :: 0 <= i < j < |fs| ==> Stripped(fs[i].name) != Stripped(fs[j].name)
  }

  predicate FragmentsAllowed(fs: seq<Fragment>) {
    NamesAllowed(fs) && forall i :: 0 <= i < |fs| ==> BoardIdFits(fs[i].boardId)
  }

  function EntryFields(e: Entry): seq<Field> {
    [I(e.size), I(e.offset), I(e.fragment.kind), S(RAMDISK_NAME_SIZE, e.fragment.name)]
    + seq(|e.fragment.boardId|, i requires 0 <= i < |e.fragment.boardId| => I(e.fragment.boardId[i]))
  }

  function TableFields(es: seq<Entry>): seq<Field> {
    if es == [] then [] else TableFields(es[..|es| - 1]) + EntryFields(es[|es| - 1])
  }

  lemma TableFieldsOneMore(es: seq<Entry>, k: nat)
    requires k < |es|
    ensures TableFields(es[..k + 1]) == TableFields(es[..k]) + EntryFields(es[k])
  {
    hide EntryFields;
    assert es[..k + 1][..k] == es[..k];
  }

  function FragmentsIn(es: seq<Entry>): (fs: seq<Fragment>)
    ensures |fs| == |es| && forall i :: 0 <= i < |fs| ==> fs[i] == es[i].fragment
  {
    seq(|es|, i requires 0 <= i < |es| => es[i].fragment)
  }

  /** Offsets are prefix sums, the total is the size of all ramdisks, and every name is allowed and taken. */
  ghost predicate ValidTable(es: seq<Entry>, total: nat, names: set<seq<byte>>) {
    var fs := FragmentsIn(es);
    && es == Placed(fs) && total == |Ramdisks(fs)| && FragmentsAllowed(fs)
    && forall i :: 0 <= i < |fs| ==> Stripped(fs[i].name) in names
  }

  lemma MoreNames(es: seq<Entry>, total: nat, names: set<seq<byte>>, name: seq<byte>)
    requires ValidTable(es, total, names)
    ensures ValidTable(es, total, names + {name})
  {
    hide Placed, Ramdisks, FragmentsAllowed, Stripped;
  }

  lemma OneMoreEntry(es: seq<Entry>, total: nat, names: set<seq<byte>>, f: Fragment)
    requires ValidTable(es, total, names) && Stripped(f.name) !in names && Stripped(f.name) != BANNED_NAME
    requires BoardIdFits(f.boardId)
    ensures ValidTable(es + [Entry(f, |f.ramdisk|, total)], total + |f.ramdisk|, names + {Stripped(f.name)})
    ensures FragmentsIn(es + [Entry(f, |f.ramdisk|, total)]) == FragmentsIn(es) + [f]
  {
    hide Placed, Ramdisks, Stripped, BoardIdFits;
    var fs := FragmentsIn(es);
    var more := fs + [f];
    assert more[..|fs|] == fs && more[..|fs| + 1] == more;
    PlacedOneMore(more, |fs|);
    assert FragmentsIn(es + [Entry(f, |f.ramdisk|, total)]) == more;
  }

  class VendorRamdiskTableBuilder {
    var entries: seq<Entry>
    var ramdiskTotalSize: nat
    var ramdiskNames: set<seq<byte>>

    ghost function Fragments(): seq<Fragment>
      reads this
    {
      FragmentsIn(entries)
    }

    ghost predicate Valid()
      reads this
    {
      ValidTable(entries, ramdiskTotalSize, ramdiskNames)
    }

    constructor ()
      ensures Valid() && entries == [] && ramdiskNames == {} && Fragments() == []
    {
      entries, ramdiskTotalSize, ramdiskNames := [], 0, {};
    }

    /** A refusal for its board id still uses the name up. */
    method AddEntry(ramdisk: seq<byte>, kind: int, name: seq<byte>, boardId: Option<seq<int>>) returns (ok: bool)
      requires Valid()
      modifies this
      ensures Valid()
      ensures ok <==> Stripped(name) != BANNED_NAME && Stripped(name) !in old(ramdiskNames)
                      && (boardId.Some? ==> BoardIdFits(boardId.value))
      ensures Fragments() == old(Fragments()) + if ok then [Fragment(ramdisk, kind, name, BoardId(boardId))] else []
      ensures ramdiskNames == old(ramdiskNames) + if Stripped(name) == BANNED_NAME then {} else {Stripped(name)}
      ensures !ok ==> entries == old(entries) && ramdiskTotalSize == old(ramdiskTotalSize)
      // a refusal leaves no trace exactly if it was for the name
      ensures !ok ==>
        (ramdiskNames == old(ramdiskNames) <==> Stripped(name) == BANNED_NAME || Stripped(name) in old(ramdiskNames))
    {
      hide Stripped, ValidTable, FragmentsIn, BoardIdFits;
      assert Fragments() + [] == Fragments();
      var stripped := Stripped(name);
      if stripped == BANNED_NAME {
        return false;
      }
      if stripped in ramdiskNames {
        assert ramdiskNames == ramdiskNames + {stripped};
        return false;
      }
      ghost var names := ramdiskNames;
      ramdiskNames := ramdiskNames + {stripped};
      MoreNames(entries, ramdiskTotalSize, names, stripped);
      if boardId.Some? && !BoardIdFits(boardId.value) {
        return false;
      }
      BoardIdOk(boardId);
      var fragment := Fragment(ramdisk, kind, name, BoardId(boardId));
      OneMoreEntry(entries, ramdiskTotalSize, names, fragment);
      entries := entries + [Entry(fragment, |ramdisk|, ramdiskTotalSize)];
      ramdiskTotalSize := ramdiskTotalSize + |ramdisk|;
      ok := true;
    }

    method WriteRamdisksPadded(out: OutputFile, alignment: nat, ghost k: nat)
      requires alignment == Pow2(k) && Paged(out.data, alignment) && out != this as object
      modifies out
      ensures out.data == old(out.data) + Padded(Ramdisks(Fragments()), alignment)
      ensures Paged(out.data, alignment)
    {
      hide Ramdisks, Padded, RoundUp, Pow2;
      ghost var before, fs := out.data, Fragments();
      RamdisksOfNothing();
      assert fs[..0] == [];
      for i := 0 to |entries|
        invariant Fragments() == fs
        invariant out.data == before + Ramdisks(fs[..i])
      {
        RamdisksOneMore(fs, i);
        out.Write(entries[i].fragment.ramdisk);
      }
      assert fs[..|fs|] == fs;
      PaddedBehind(before, Ramdisks(fs), alignment);
      PadFile(out, alignment, k);
    }

    /** Stops at the first number that does not fit its field. */
    method WriteEntries(out: OutputFile) returns (ok: bool)
      requires out != this as object
      modifies out
      ensures ok <==> AllFit(TableFields(entries))
      ensures ok ==> out.data == old(out.data) + PackAll(TableFields(entries))
    {
      hide PackAll, EntryFields, TableFields, AllFit;
      ghost var before, es := out.data, entries;
      TableOfNothing();
      assert es[..0] == [];
      for i := 0 to |entries|
        invariant entries == es
        invariant AllFit(TableFields(es[..i])) && out.data == before + PackAll(TableFields(es[..i]))
      {
        TableFieldsOneMore(es, i);
        AllFitConcat(TableFields(es[..i]), EntryFields(es[i]));
        ok := out.WriteFields(EntryFields(entries[i]));
        if !ok {
          FirstFieldsFit(es, i + 1);
          return;
        }
        PackAllConcat(TableFields(es[..i]), EntryFields(es[i]));
      }
      assert es[..|es|] == es;
      ok := true;
    }

    method WriteEntriesPadded(out: OutputFile, alignment: nat, ghost k: nat) returns (ok: bool)
      requires alignment == Pow2(k) && Paged(out.data, alignment) && out != this as object
      modifies out
      ensures ok <==> AllFit(TableFields(entries))
      ensures ok ==> out.data == old(out.data) + Padded(PackAll(TableFields(entries)), alignment) && Paged(out.data, alignment)
    {
      hide PackAll, Padded, RoundUp, Pow2, TableFields, AllFit;
      ghost var before := out.data;
      ok := WriteEntries(out);
      if ok {
        PaddedBehind(before, PackAll(TableFields(entries)), alignment);
        PadFile(out, alignment, k);
      }
    }
  }

  /** A name that was refused for its board id is refused again with a good one. */
  method NameIsUsedUp(builder: VendorRamdiskTableBuilder, ramdisk: seq<byte>, kind: int, name: seq<byte>, boardId: seq<int>)
    returns (first: bool, second: bool)
    requires builder.Valid() && Stripped(name) != BANNED_NAME && Stripped(name) !in builder.ramdiskNames && !BoardIdFits(boardId)
    modifies builder
    ensures !first && !second && builder.entries == old(builder.entries)
  {
    first := builder.AddEntry(ramdisk, kind, name, Some(boardId));
    second := builder.AddEntry(ramdisk, kind, name, None);
  }

  function BoardId(boardId: Option<seq<int>>): seq<int> {
    if boardId.Some? then boardId.value else seq(BOARD_ID_SIZE, _ => 0)
  }

  lemma BoardIdOk(boardId: Option<seq<int>>)
    requires boardId.Some? ==> BoardIdFits(boardId.value)
    ensures BoardIdFits(BoardId(boardId))
  {
  }

  lemma RamdisksOfNothing()
    ensures Ramdisks([]) == []
  {
  }

  lemma TableOfNothing()
    ensures TableFields([]) == [] && AllFit(TableFields([])) && PackAll(TableFields([])) == []
  {
  }

  lemma {:induction false} FirstFieldsFit(es: seq<Entry>, k: nat)
    requires k <= |es|
    ensures AllFit(TableFields(es)) ==> AllFit(TableFields(es[..k]))
    decreases |es|
  {
    hide EntryFields, AllFit;
    if k == |es| {
      assert es[..k] == es;
    } else {
      var last := |es| - 1;
      assert es[..last][..k] == es[..k];
      FirstFieldsFit(es[..last], k);
      AllFitConcat(TableFields(es[..last]), EntryFields(es[last]));
    }
  }

  // ----- the arguments

  datatype Group = Group(ramdisk: seq<byte>, kind: int, name: seq<byte>, boardId: seq<int>)

  datatype VendorArgs = VendorArgs(
    version: int, pagesize: nat, base: int, kernelOffset: int, ramdiskOffset: int, tagsOffset: int, dtbOffset: int,
    vendorCmdline: seq<byte>, board: seq<byte>,
    vendorRamdisk: Option<seq<byte>>, dtb: Option<seq<byte>>, bootconfig: Option<seq<byte>>, groups: seq<Group>)

  function OfGroup(g: Group): Fragment {
    Fragment(g.ramdisk, g.kind, g.name + [0], g.boardId)
  }

  function FirstFragment(a: VendorArgs): seq<Fragment> {
    if a.vendorRamdisk.Some? then [Fragment(a.vendorRamdisk.value, RAMDISK_TYPE_PLATFORM, [], BoardId(None))] else []
  }

  /** The vendor ramdisk first, then the groups in order. */
  function FragmentsOf(a: VendorArgs, n: nat): (fs: seq<Fragment>)
    requires n <= |a.groups|
    ensures |fs| == |FirstFragment(a)| + n
  {
    FirstFragment(a) + seq(n, i requires 0 <= i < n => OfGroup(a.groups[i]))
  }

  function AllFragments(a: VendorArgs): seq<Fragment> {
    FragmentsOf(a, |a.groups|)
  }

  predicate GroupsParsed(a: VendorArgs) {
    forall i :: 0 <= i < |a.groups| ==> |a.groups[i].name| + 1 <= RAMDISK_NAME_SIZE
  }

  /** A set holds exactly the names of a list. */
  ghost predicate NamesOf(fs: seq<Fragment>, names: set<seq<byte>>) {
    forall x :: x in names <==> exists i :: 0 <= i < |fs| && Stripped(fs[i].name) == x
  }

  lemma OneMoreAllowed(fs: seq<Fragment>, f: Fragment, names: set<seq<byte>>)
    requires FragmentsAllowed(fs) && NamesOf(fs, names)
    ensures FragmentsAllowed(fs + [f]) <==> Stripped(f.name) != BANNED_NAME && Stripped(f.name) !in names && BoardIdFits(f.boardId)
  {
    hide Stripped, BoardIdFits;
    var more := fs + [f];
    assert more[|fs|] == f && forall i :: 0 <= i < |fs| ==> more[i] == fs[i];
    if Stripped(f.name) in names {
      var i :| 0 <= i < |fs| && Stripped(fs[i].name) == Stripped(f.name);
      assert Stripped(more[i].name) == Stripped(more[|fs|].name);
    }
  }

  lemma {:induction false} FewerAllowed(a: VendorArgs, n: nat)
    requires n <= |a.groups| && FragmentsAllowed(AllFragments(a))
    ensures FragmentsAllowed(FragmentsOf(a, n))
  {
    hide Stripped, BoardIdFits;
    var fs, all := FragmentsOf(a, n), AllFragments(a);
    assert forall i :: 0 <= i < |fs| ==> fs[i] == all[i];
  }

  /** One more option group; a refusal means that the whole table is refused. */
  method AddGroup(builder: VendorRamdiskTableBuilder, a: VendorArgs, i: nat) returns (ok: bool)
    requires i < |a.groups| && builder.Valid() && builder.Fragments() == FragmentsOf(a, i)
    requires NamesOf(FragmentsOf(a, i), builder.ramdiskNames)
    modifies builder
    ensures ok ==> builder.Valid() && builder.Fragments() == FragmentsOf(a, i + 1)
    ensures ok ==> NamesOf(FragmentsOf(a, i + 1), builder.ramdiskNames)
    ensures !ok ==> !FragmentsAllowed(AllFragments(a))
  {
    hide Stripped, BoardIdFits, ValidTable, FragmentsAllowed, FragmentsOf, FragmentsIn, NamesOf;
    var g := a.groups[i];
    ghost var fs, names := FragmentsOf(a, i), builder.ramdiskNames;
    ValidIsAllowed(builder.entries, builder.ramdiskTotalSize, names);
    GroupBehind(a, i);
    OneMoreAllowed(fs, OfGroup(g), names);
    ok := builder.AddEntry(g.ramdisk, g.kind, g.name + [0], Some(g.boardId));
    if ok {
      NamesOneMore(fs, OfGroup(g), names, builder.ramdiskNames);
    } else if FragmentsAllowed(AllFragments(a)) {
      FewerAllowed(a, i + 1);
    }
  }

  lemma ValidIsAllowed(es: seq<Entry>, total: nat, names: set<seq<byte>>)
    requires ValidTable(es, total, names)
    ensures FragmentsAllowed(FragmentsIn(es))
  {
    hide FragmentsAllowed, Placed, Ramdisks;
  }

  lemma GroupBehind(a: VendorArgs, i: nat)
    requires i < |a.groups|
    ensures FragmentsOf(a, i + 1) == FragmentsOf(a, i) + [OfGroup(a.groups[i])]
  {
  }

  /** The first entry, for the vendor ramdisk, is never refused. */
  method AddFirst(builder: VendorRamdiskTableBuilder, a: VendorArgs)
    requires builder.Valid() && builder.entries == [] && builder.ramdiskNames == {} && builder.Fragments() == []
    modifies builder
    ensures builder.Valid() && builder.Fragments() == FragmentsOf(a, 0)
    ensures NamesOf(FragmentsOf(a, 0), builder.ramdiskNames)
  {
    hide BoardIdFits, ValidTable, FragmentsIn;
    NothingAllowed();
    assert FragmentsOf(a, 0) == FirstFragment(a);
    if a.vendorRamdisk.Some? {
      var ok := builder.AddEntry(a.vendorRamdisk.value, RAMDISK_TYPE_PLATFORM, [], None);
      ghost var first := FirstFragment(a)[0];
      assert [] + [first] == FirstFragment(a);
      NamesOneMore([], first, {}, builder.ramdiskNames);
    }
  }

  /** The table of the arguments, or a refusal exactly where a name or a board id is not allowed. */
  method BuildTable(a: VendorArgs) returns (ok: bool, builder: VendorRamdiskTableBuilder)
    ensures fresh(builder)
    ensures ok <==> FragmentsAllowed(AllFragments(a))
    ensures ok ==> builder.Valid() && builder.Fragments() == AllFragments(a)
  {
    hide ValidTable, FragmentsIn, FragmentsAllowed, FragmentsOf, NamesOf;
    builder := new VendorRamdiskTableBuilder();
    AddFirst(builder, a);
    for i := 0 to |a.groups|
      invariant fresh(builder) && builder.Valid() && builder.Fragments() == FragmentsOf(a, i)
      invariant NamesOf(FragmentsOf(a, i), builder.ramdiskNames)
    {
      ok := AddGroup(builder, a, i);
      if !ok {
        return;
      }
    }
    ValidIsAllowed(builder.entries, builder.ramdiskTotalSize, builder.ramdiskNames);
    ok := true;
  }

  lemma NothingAllowed()
    ensures FragmentsAllowed([]) && NamesOf([], {})
  {
  }

  lemma NamesOneMore(fs: seq<Fragment>, f: Fragment, names: set<seq<byte>>, more: set<seq<byte>>)
    requires NamesOf(fs, names) && more == names + {Stripped(f.name)}
    ensures NamesOf(fs + [f], more)
  {
    hide Stripped;
    var all := fs + [f];
    assert all[|fs|] == f && forall i :: 0 <= i < |fs| ==> all[i] == fs[i];
    forall x | x in more
      ensures exists i :: 0 <= i < |all| && Stripped(all[i].name) == x
    {
      if x in names {
        var i :| 0 <= i < |fs| && Stripped(fs[i].name) == x;
        assert Stripped(all[i].name) == x;
      } else {
        assert Stripped(all[|fs|].name) == x;
      }
    }
  }

  // ----- the image

  function TotalSize(a: VendorArgs): nat {
    if a.version > 3 then |Ramdisks(AllFragments(a))| else FileSize(a.vendorRamdisk)
  }

  function VendorRest(a: VendorArgs): seq<Field> {
    [I(a.pagesize), I(a.base + a.kernelOffset), I(a.base + a.ramdiskOffset), I(TotalSize(a)),
     S(VENDOR_ARGS_SIZE, a.vendorCmdline + [0]), I(a.base + a.tagsOffset), S(NAME_SIZE, a.board + [0]),
     I(if a.version > 3 then VENDOR_HEADER_V4_SIZE else VENDOR_HEADER_V3_SIZE), I(FileSize(a.dtb)), Q(a.base + a.dtbOffset)]
  }

  function VendorTail(a: VendorArgs): seq<Field> {
    if a.version > 3 then
      [I(|AllFragments(a)| * TABLE_ENTRY_SIZE), I(|AllFragments(a)|), I(TABLE_ENTRY_SIZE), I(FileSize(a.bootconfig))]
    else []
  }

  function VendorFields(a: VendorArgs): seq<Field> {
    [S(8, VENDOR_MAGIC)] + [I(a.version)] + (VendorRest(a) + VendorTail(a))
  }

  /** What the command line parser checks; only version 4 knows option groups. */
  predicate VendorParsed(a: VendorArgs) {
    && PageSizeOffered(a.pagesize) && |a.board| + 1 <= NAME_SIZE && |a.vendorCmdline| + 1 <= VENDOR_ARGS_SIZE
    && (if a.version > 3 then GroupsParsed(a) else a.groups == [])
  }

  function Table(a: VendorArgs): seq<Field> {
    TableFields(Placed(AllFragments(a)))
  }

  predicate VendorWritable(a: VendorArgs) {
    && VendorParsed(a)
    && (a.version == 4 || (a.version == 3 && a.vendorRamdisk.Some?))
    && (a.version == 4 ==> FragmentsAllowed(AllFragments(a)) && AllFit(Table(a)))
    && FileSize(a.dtb) > 0
    && AllFit(VendorFields(a))
  }

  function VendorFiles(a: VendorArgs): seq<seq<byte>>
    requires VendorWritable(a)
  {
    if a.version == 4 then [Ramdisks(AllFragments(a)), Content(a.dtb), PackAll(Table(a)), Content(a.bootconfig)]
    else [Content(a.vendorRamdisk), Content(a.dtb)]
  }

  function VendorImage(a: VendorArgs): seq<byte>
    requires VendorWritable(a)
  {
    Padded(PackAll(VendorFields(a)), a.pagesize) + Sections(VendorFiles(a), a.pagesize)
  }

  method WriteVendorBootHeader(out: OutputFile, a: VendorArgs) returns (ok: bool)
    requires PageSizeOffered(a.pagesize) && out.data == []
    modifies out
    ensures ok <==> FileSize(a.dtb) > 0 && AllFit(VendorFields(a))
    ensures ok ==> out.data == Padded(PackAll(VendorFields(a)), a.pagesize) && Paged(out.data, a.pagesize)
  {
    hide AllFit, VendorFields, PackAll, Padded, Pow2, RoundUp;
    if FileSize(a.dtb) == 0 {
      return false;
    }
    ok := out.WriteFields(VendorFields(a));
    if ok {
      assert [] + PackAll(VendorFields(a)) == PackAll(VendorFields(a));
      PadFile(out, a.pagesize, Exponent(a.pagesize));
      PaddedIsPaged(PackAll(VendorFields(a)), a.pagesize);
    }
  }

  /** The data of version 4: all ramdisks, the device tree, the table, the boot configuration. */
  method WriteTableData(out: OutputFile, a: VendorArgs, builder: VendorRamdiskTableBuilder) returns (ok: bool)
    requires PageSizeOffered(a.pagesize) && Paged(out.data, a.pagesize) && out != builder as object
    requires builder.Valid() && builder.Fragments() == AllFragments(a)
    modifies out
    ensures ok <==> AllFit(Table(a))
    ensures ok ==> out.data == old(out.data)
                               + Sections([Ramdisks(AllFragments(a)), Content(a.dtb), PackAll(Table(a)), Content(a.bootconfig)], a.pagesize)
  {
    hide AllFit, PackAll, Padded, Pow2, RoundUp, Sections, Paged, Ramdisks, TableFields, FragmentsAllowed, Placed, AllFragments, FragmentsIn;
    var page := a.pagesize;
    ghost var k := Exponent(page);
    ghost var before := out.data;
    ghost var ramdisks, dtb := Ramdisks(AllFragments(a)), Content(a.dtb);
    builder.WriteRamdisksPadded(out, page, k);
    SectionsOfOne(ramdisks, page);
    WritePaddedFile(out, a.dtb, page, k);
    OneMoreSection(before, [ramdisks], dtb, [ramdisks, dtb], page);
    ok := builder.WriteEntriesPadded(out, page, k);
    if ok {
      ghost var table := PackAll(Table(a));
      OneMoreSection(before, [ramdisks, dtb], table, [ramdisks, dtb, table], page);
      WritePaddedFile(out, a.bootconfig, page, k);
      OneMoreSection(before, [ramdisks, dtb, table], Content(a.bootconfig), [ramdisks, dtb, table, Content(a.bootconfig)], page);
    }
  }

  /** The whole image, or a refusal exactly where the arguments allow none. */
  method MakeVendorBoot(out: OutputFile, a: VendorArgs) returns (ok: bool)
    requires out.data == []
    modifies out
    ensures ok <==> VendorWritable(a)
    ensures ok ==> out.data == VendorImage(a)
  {
    hide AllFit, VendorFields, PackAll, Padded, Pow2, RoundUp, Sections, Paged, Ramdisks, TableFields, FragmentsAllowed, Placed,
      AllFragments, FragmentsIn, ValidTable;
    if !VendorParsed(a) {
      return false;
    }
    if a.version > 3 {
      var built, builder := BuildTable(a);
      if !built || a.version > 4 {
        return false;
      }
      ok := WriteVendorBootHeader(out, a);
      if ok {
        ok := WriteTableData(out, a, builder);
      }
    } else {
      if a.version != 3 || a.vendorRamdisk.None? {
        return false;
      }
      ok := WriteVendorBootHeader(out, a);
      if ok {
        ghost var before := out.data;
        WritePaddedFile(out, a.vendorRamdisk, a.pagesize, Exponent(a.pagesize));
        SectionsOfOne(Content(a.vendorRamdisk), a.pagesize);
        WritePaddedFile(out, a.dtb, a.pagesize, Exponent(a.pagesize));
        OneMoreSection(before, [Content(a.vendorRamdisk)], Content(a.dtb), VendorFiles(a), a.pagesize);
      }
    }
  }
}
