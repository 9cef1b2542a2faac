/** Which arguments an image is made of, number by number. */
module ImageArguments {
  import opened BootImage
  import opened Bytes
  import opened OsVersion
  import opened Paging
  import opened Struct
  import opened VendorBoot

  predicate Word(n: int) {
    0 <= n < 0x1_0000_0000
  }

  predicate LongWord(n: int) {
    0 <= n < 0x1_0000_0000_0000_0000
  }

  predicate OfferedPage(n: nat) {
    n in [2048, 4096, 8192, 16384]
  }

  /** The numbers that go into a header of version 0 to 2; the address of a file that is not there is not one. */
  predicate OldNumbersFit(a: BootArgs)
    requires a.pagesize > 0
  {
    && Word(FileSize(a.kernel)) && Word(FileSize(a.ramdisk)) && Word(FileSize(a.second))
    && Word(a.base + a.kernelOffset) && Word(a.base + a.tagsOffset) && Word(OsWord(a.osVersion, a.osPatchLevel))
    && (FileSize(a.ramdisk) > 0 ==> Word(a.base + a.ramdiskOffset))
    && (FileSize(a.second) > 0 ==> Word(a.base + a.secondOffset))
    && (a.version >= 1 && a.recoveryDtbo.Some? ==> Word(|a.recoveryDtbo.value|) && LongWord(RecoveryDtboOffset(a)))
    && (a.version == 2 ==> Word(FileSize(a.dtb)) && LongWord(a.base + a.dtbOffset))
  }

  /** Exactly these arguments give an image. */
  lemma WritableIs(a: BootArgs)
    ensures Writable(a) <==>
              && OfferedPage(a.pagesize) && |a.board| <= 15 && 0 <= a.version <= 4
              && |a.cmdline| <= (if a.version < 3 then 1534 else 1535)
              && (a.version >= 3 ==> a.second.None?)
              && (a.version == 2 ==> FileSize(a.dtb) > 0)
              && (a.version == 4 ==> FileSize(a.signature) <= 4096)
              && if a.version <= 2 then OldNumbersFit(a)
                 else Word(FileSize(a.kernel)) && Word(FileSize(a.ramdisk)) && Word(OsWord(a.osVersion, a.osPatchLevel))
  {
    hide OldFields, NewFields, OldNumbersFit, FileSize, OsWord;
    if a.pagesize > 0 && a.version <= 4 {
      if IsNew(a.version) {
        NewFit(a);
      } else if a.version <= 2 && OfferedPage(a.pagesize) {
        OldFit(a);
      }
    }
  }

  lemma NewFit(a: BootArgs)
    requires IsNew(a.version)
    ensures AllFit(NewFields(a)) <==> Word(FileSize(a.kernel)) && Word(FileSize(a.ramdisk)) && Word(OsWord(a.osVersion, a.osPatchLevel))
  {
    hide FileSize, OsWord;
    AllFitConcat(NewStart(a) + [I(a.version)], NewRest(a));
    AllFitConcat(NewStart(a), [I(a.version)]);
    var s := NewStart(a);
    assert AllFit(s) <==> Fits(s[1]) && Fits(s[2]) && Fits(s[3]);
    assert Fits([I(a.version)][0]) && AllFit(NewRest(a));
  }

  lemma OldFit(a: BootArgs)
    requires a.version <= 2 && a.pagesize in [2048, 4096, 8192, 16384]
    ensures AllFit(OldFields(a)) <==> a.version >= 0 && OldNumbersFit(a)
  {
    hide FileSize, OsWord, RecoveryDtboOffset, AllFit, OldStart, OldRest, RecoveryFields, HeaderSizeField, DtbFields, SplitCommandLine;
    AllFitConcat(OldStart(a) + [I(a.version)], OldRest(a) + (RecoveryFields(a) + HeaderSizeField(a) + DtbFields(a)));
    AllFitConcat(OldStart(a), [I(a.version)]);
    AllFitConcat(OldRest(a), RecoveryFields(a) + HeaderSizeField(a) + DtbFields(a));
    AllFitConcat(RecoveryFields(a) + HeaderSizeField(a), DtbFields(a));
    AllFitConcat(RecoveryFields(a), HeaderSizeField(a));
    OneFits(a.version);
    StartFits(a);
    RestFits(a);
    TailFits(a);
  }

  lemma OneFits(v: int)
    ensures AllFit([I(v)]) <==> Word(v)
  {
    assert Fits([I(v)][0]) <==> Word(v);
  }

  lemma StartFits(a: BootArgs)
    requires a.pagesize in [2048, 4096, 8192, 16384]
    ensures AllFit(OldStart(a)) <==>
              && Word(FileSize(a.kernel)) && Word(FileSize(a.ramdisk)) && Word(FileSize(a.second))
              && Word(a.base + a.kernelOffset) && Word(a.base + a.tagsOffset)
              && (FileSize(a.ramdisk) > 0 ==> Word(a.base + a.ramdiskOffset))
              && (FileSize(a.second) > 0 ==> Word(a.base + a.secondOffset))
  {
    hide FileSize;
    var s := OldStart(a);
    assert AllFit(s) <==> Fits(s[0]) && Fits(s[1]) && Fits(s[2]) && Fits(s[3]) && Fits(s[4]) && Fits(s[5]) && Fits(s[6]) && Fits(s[7])
                          && Fits(s[8]);
  }

  lemma RestFits(a: BootArgs)
    ensures AllFit(OldRest(a)) <==> Word(OsWord(a.osVersion, a.osPatchLevel))
  {
    hide OsWord;
    var r := OldRest(a);
    assert AllFit(r) <==> Fits(r[0]);
  }

  lemma TailFits(a: BootArgs)
    requires a.version <= 2 && a.pagesize > 0
    ensures AllFit(RecoveryFields(a)) <==>
              (a.version >= 1 && a.recoveryDtbo.Some? ==> Word(|a.recoveryDtbo.value|) && LongWord(RecoveryDtboOffset(a)))
    ensures AllFit(HeaderSizeField(a))
    ensures AllFit(DtbFields(a)) <==> (a.version == 2 ==> Word(FileSize(a.dtb)) && LongWord(a.base + a.dtbOffset))
  {
    hide RecoveryDtboOffset;
    var r, d := RecoveryFields(a), DtbFields(a);
    if a.version >= 1 {
      assert AllFit(r) <==> Fits(r[0]) && Fits(r[1]);
    }
    if a.version == 2 {
      assert AllFit(d) <==> Fits(d[0]) && Fits(d[1]);
    }
  }

  // ----- vendor images

  /** The numbers that go into the header of a vendor image. */
  predicate VendorNumbersFit(a: VendorArgs) {
    && Word(a.base + a.kernelOffset) && Word(a.base + a.ramdiskOffset) && Word(a.base + a.tagsOffset)
    && Word(FileSize(a.dtb)) && LongWord(a.base + a.dtbOffset)
    && if a.version == 4 then
         && Word(|Ramdisks(AllFragments(a))|) && Word(|AllFragments(a)| * 108) && Word(FileSize(a.bootconfig))
       else Word(FileSize(a.vendorRamdisk))
  }

  /** A table can be packed exactly if every type fits, as sizes and offsets are parts of the region. */
  predicate TypesFit(fs: seq<Fragment>) {
    forall i :: 0 <= i < |fs| ==> Word(fs[i].kind)
  }

  lemma VendorFit(a: VendorArgs)
    requires IsNew(a.version) && PageSizeOffered(a.pagesize)
    ensures AllFit(VendorFields(a)) <==> VendorNumbersFit(a)
  {
    hide FileSize, AllFragments, Ramdisks, AllFit, VendorRest, VendorTail;
    AllFitConcat([S(8, VENDOR_MAGIC)] + [I(a.version)], VendorRest(a) + VendorTail(a));
    assert VendorFields(a) == [S(8, VENDOR_MAGIC)] + [I(a.version)] + (VendorRest(a) + VendorTail(a));
    AllFitConcat([S(8, VENDOR_MAGIC)], [I(a.version)]);
    AllFitConcat(VendorRest(a), VendorTail(a));
    OneFits(a.version);
    MagicFits();
    VendorRestFits(a);
    VendorTailFits(a);
  }

  lemma MagicFits()
    ensures AllFit([S(8, VENDOR_MAGIC)])
  {
  }

  lemma VendorRestFits(a: VendorArgs)
    requires PageSizeOffered(a.pagesize)
    ensures AllFit(VendorRest(a)) <==>
              && Word(a.base + a.kernelOffset) && Word(a.base + a.ramdiskOffset) && Word(a.base + a.tagsOffset)
              && Word(TotalSize(a)) && Word(FileSize(a.dtb)) && LongWord(a.base + a.dtbOffset)
  {
    hide FileSize, TotalSize;
    var r := VendorRest(a);
    assert AllFit(r) <==> Fits(r[0]) && Fits(r[1]) && Fits(r[2]) && Fits(r[3]) && Fits(r[4]) && Fits(r[5]) && Fits(r[6]) && Fits(r[7])
                          && Fits(r[8]) && Fits(r[9]);
  }

  lemma VendorTailFits(a: VendorArgs)
    requires IsNew(a.version)
    ensures AllFit(VendorTail(a)) <==>
              (a.version == 4 ==> Word(|AllFragments(a)| * 108) && Word(FileSize(a.bootconfig)))
  {
    hide FileSize, AllFragments;
    var t := VendorTail(a);
    if a.version == 4 {
      assert AllFit(t) <==> Fits(t[0]) && Fits(t[1]) && Fits(t[2]) && Fits(t[3]);
    }
  }

  /** Exactly these arguments give a vendor image; option groups are for version 4 only. */
  lemma VendorWritableIs(a: VendorArgs)
    ensures VendorWritable(a) <==>
              && OfferedPage(a.pagesize) && |a.board| <= 15 && |a.vendorCmdline| <= 2047
              && (a.version == 3 || a.version == 4) && FileSize(a.dtb) > 0 && VendorNumbersFit(a)
              && (a.version == 3 ==> a.vendorRamdisk.Some? && a.groups == [])
              && (a.version == 4 ==>
                    && FragmentsAllowed(AllFragments(a)) && TypesFit(AllFragments(a))
                    && forall i :: 0 <= i < |a.groups| ==> |a.groups[i].name| <= 31)
  {
    hide VendorFields, VendorNumbersFit, FileSize, AllFragments, FragmentsAllowed, Table, TypesFit;
    if OfferedPage(a.pagesize) && IsNew(a.version) {
      VendorFit(a);
      if a.version == 4 && VendorNumbersFit(a) && FragmentsAllowed(AllFragments(a)) {
        TableFits(a);
      }
    }
  }

  lemma TableFits(a: VendorArgs)
    requires a.version == 4 && VendorNumbersFit(a) && FragmentsAllowed(AllFragments(a))
    ensures AllFit(Table(a)) <==> TypesFit(AllFragments(a))
  {
    hide FileSize, AllFragments, Ramdisks, AllFit, TypesFit, NamesAllowed, TableFields;
    var fs := AllFragments(a);
    assert fs[..|fs|] == fs;
    FirstEntriesFit(fs, |fs|);
    assert Placed(fs)[..|fs|] == Placed(fs);
  }

  lemma {:induction false} FirstEntriesFit(fs: seq<Fragment>, k: nat)
    requires k <= |fs| && Word(|Ramdisks(fs)|) && forall i :: 0 <= i < |fs| ==> BoardIdFits(fs[i].boardId)
    ensures AllFit(TableFields(Placed(fs)[..k])) <==> TypesFit(fs[..k])
  {
    hide AllFit, EntryFields, Ramdisks, BoardIdFits;
    if k == 0 {
      TableOfNothing();
    } else {
      var e := Placed(fs)[k - 1];
      FirstEntriesFit(fs, k - 1);
      TableFieldsOneMore(Placed(fs), k - 1);
      AllFitConcat(TableFields(Placed(fs)[..k - 1]), EntryFields(e));
      PartOfRegion(fs, k - 1);
      EntryFits(e);
      TypesOneMore(fs, k - 1);
    }
  }

  lemma TypesOneMore(fs: seq<Fragment>, k: nat)
    requires k < |fs|
    ensures TypesFit(fs[..k + 1]) <==> TypesFit(fs[..k]) && Word(fs[k].kind)
  {
    assert fs[..k + 1][k] == fs[k] && forall i :: 0 <= i < k ==> fs[..k + 1][i] == fs[..k][i];
  }

  lemma {:induction false} PartOfRegion(fs: seq<Fragment>, k: nat)
    requires k < |fs|
    ensures |Ramdisks(fs[..k])| + |fs[k].ramdisk| <= |Ramdisks(fs)|
    decreases |fs| - k
  {
    hide Ramdisks;
    RamdisksOneMore(fs, k);
    if k + 1 < |fs| {
      PartOfRegion(fs, k + 1);
    } else {
      assert fs[..k + 1] == fs;
    }
  }

  lemma EntryFits(e: Entry)
    requires Word(e.size) && Word(e.offset) && BoardIdFits(e.fragment.boardId)
    ensures AllFit(EntryFields(e)) <==> Word(e.fragment.kind)
  {
    var f, id := EntryFields(e), e.fragment.boardId;
    assert forall j :: 4 <= j < |f| ==> f[j] == I(id[j - 4]);
    assert f[2] == I(e.fragment.kind);
  }
}
