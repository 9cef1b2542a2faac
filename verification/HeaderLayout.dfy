/** The bytes of the images: every field of a header at its offset, and every file behind it. */
module HeaderLayout {
  import opened BootImage
  import opened BootImageReader
  import opened ByteLayout
  import opened Bytes
  import opened OsVersion
  import opened Paging
  import opened Struct
  import opened VendorBoot
  import opened VendorBootReader

  /** Bytes from an offset on, cut to a size or filled with zeros up to it. */
  predicate Filled(b: seq<byte>, at: nat, n: nat, text: seq<byte>) {
    at + n <= |b| && forall i :: at <= i < at + n ==> b[i] == if i < at + |text| then text[i - at] else 0
  }

  predicate FieldIn(b: seq<byte>, at: nat, f: Field) {
    match f
    case I(v) => Number(b, at) == v
    case Q(v) => LongNumber(b, at) == v
    case S(n, t) => Filled(b, at, n, t)
  }

  lemma PackedIn(b: seq<byte>, at: nat, f: Field)
    requires Fits(f) && Holds(b, at, Pack(f))
    ensures FieldIn(b, at, f)
  {
    hide Number, Le32;
    match f
    case I(v) => WordIn(b, at, v);
    case Q(v) =>
      var low, high := Le32(v % TWO_32), Le32(v / TWO_32);
      var x := b[at..at + 8];
      assert x == low + high;
      assert b[at..at + 4] == x[..4] == low && b[at + 4..at + 8] == x[4..] == high;
      WordIn(b, at, v % TWO_32);
      WordIn(b, at + 4, v / TWO_32);
    case S(n, t) => FittedIn(b, at, n, t);
  }

  lemma FittedIn(b: seq<byte>, at: nat, n: nat, text: seq<byte>)
    requires Holds(b, at, FitText(n, text))
    ensures Filled(b, at, n, text)
  {
    var x := FitText(n, text);
    forall i | at <= i < at + n
      ensures b[i] == if i < at + |text| then text[i - at] else 0
    {
      assert b[i] == x[i - at];
    }
  }

  predicate OffsetsOf(ks: seq<Kind>, offsets: seq<nat>) {
    |offsets| == |ks| + 1 && forall i :: 0 <= i < |ks| ==> offsets[i + 1] == offsets[i] + Width(ks[i])
  }

  /** Fields that were packed stand where the widths of those before say, and end where the last one does. */
  lemma {:induction false} FieldsIn(fs: seq<Field>, offsets: seq<nat>, b: seq<byte>)
    requires OffsetsOf(KindsOf(fs), offsets) && AllFit(fs) && Holds(b, offsets[0], PackAll(fs))
    ensures |offsets| == |fs| + 1 && offsets[|fs|] == offsets[0] + |PackAll(fs)|
    ensures forall i :: 0 <= i < |fs| ==> FieldIn(b, offsets[i], fs[i])
  {
    hide Pack, Fits, FieldIn, Width, KindOf;
    if fs != [] {
      var at, first, whole := offsets[0], Pack(fs[0]), PackAll(fs);
      assert b[at..at + |first|] == b[at..at + |whole|][..|first|] == first;
      assert b[at + |first|..at + |whole|] == b[at..at + |whole|][|first|..] == PackAll(fs[1..]);
      PackedIn(b, at, fs[0]);
      assert KindsOf(fs)[1..] == KindsOf(fs[1..]);
      FieldsIn(fs[1..], offsets[1..], b);
      forall i | 0 <= i < |fs|
        ensures FieldIn(b, offsets[i], fs[i])
      {
        if i > 0 {
          assert FieldIn(b, offsets[1..][i - 1], fs[1..][i - 1]);
        }
      }
    }
  }

  // ----- boot images up to version 2

  const START_OFFSETS: seq<nat> := [0, 8, 12, 16, 20, 24, 28, 32, 36, 40, 44]
  const REST_OFFSETS: seq<nat> := [48, 64, 576, 608, 1632]

  function TailOffsets(version: int): seq<nat> {
    if version == 2 then [1636, 1644, 1648, 1652, 1660] else if version == 1 then [1636, 1644, 1648] else []
  }

  /** Where the fields start, and behind them where the header ends. */
  function OldOffsets(version: int): seq<nat> {
    START_OFFSETS + REST_OFFSETS + TailOffsets(version)
  }

  lemma OldFieldsIn(a: BootArgs)
    requires Writable(a) && a.version <= 2
    ensures var f, at := OldFields(a), OldOffsets(a.version);
      && |at| == |f| + 1 && at[|f|] == |PackAll(f)|
      && forall i :: 0 <= i < |f| ==> FieldIn(Image(a), at[i], f[i])
  {
    hide AllFit, FieldIn, Padded, Sections, OldFields, PackAll, HeaderKinds, KindsOf, OldOffsets, OffsetsOf;
    KindsOfHeader(a);
    OldVersions(a);
    OldOffsetsAre(a.version);
    var packed := PackAll(OldFields(a));
    assert packed <= Image(a);
    assert Image(a)[0..|packed|] == packed;
    FieldsIn(OldFields(a), OldOffsets(a.version), Image(a));
  }

  lemma OldVersions(a: BootArgs)
    requires Writable(a) && a.version <= 2
    ensures 0 <= a.version
  {
    hide OldFields, OldStart, OldRest;
    OldFieldAt(a);
    assert Fits(OldFields(a)[9]);
  }

  lemma OldOffsetsAre(version: int)
    requires 0 <= version <= 2
    ensures OffsetsOf(HeaderKinds(version), OldOffsets(version)) && OldOffsets(version)[0] == 0
    ensures OldOffsets(version)[|OldOffsets(version)| - 1] == if version == 0 then 1632 else if version == 1 then 1648 else 1660
  {
    hide OffsetsOf, OldTailKinds, TailOffsets;
    LastOffset(version);
    StartOffsetsAre();
    RestOffsetsAre();
    TailOffsetsAre(version);
    OffsetsBehind(OLD_REST_KINDS, [44] + REST_OFFSETS, OldTailKinds(version), [1632] + TailOffsets(version));
    OffsetsBehind(START_KINDS + [KI], START_OFFSETS, OLD_REST_KINDS + OldTailKinds(version),
                  [44] + REST_OFFSETS + TailOffsets(version));
    assert START_KINDS + [KI] + (OLD_REST_KINDS + OldTailKinds(version)) == HeaderKinds(version);
    assert START_OFFSETS + ([44] + REST_OFFSETS + TailOffsets(version))[1..] == OldOffsets(version);
  }

  /** The offsets of some fields with others behind them. */
  lemma OffsetsBehind(a: seq<Kind>, x: seq<nat>, b: seq<Kind>, y: seq<nat>)
    requires OffsetsOf(a, x) && OffsetsOf(b, y) && x[|a|] == y[0]
    ensures OffsetsOf(a + b, x + y[1..])
  {
    hide Width;
    var z := x + y[1..];
    forall i | 0 <= i < |a + b|
      ensures z[i + 1] == z[i] + Width((a + b)[i])
    {
      if i > |a| {
        assert z[i] == y[i - |a|] && z[i + 1] == y[i - |a| + 1];
      }
    }
  }

  lemma LastOffset(version: int)
    requires 0 <= version <= 2
    ensures OldOffsets(version)[|OldOffsets(version)| - 1] == if version == 0 then 1632 else if version == 1 then 1648 else 1660
  {
  }

  lemma StartOffsetsAre()
    ensures OffsetsOf(START_KINDS + [KI], START_OFFSETS)
  {
  }

  lemma RestOffsetsAre()
    ensures OffsetsOf(OLD_REST_KINDS, [44] + REST_OFFSETS)
  {
  }

  lemma TailOffsetsAre(version: int)
    requires 0 <= version <= 2
    ensures OffsetsOf(OldTailKinds(version), [1632] + TailOffsets(version))
  {
  }

  /** The header of versions 0 to 2: what stands at every offset. The header size it announces is that of
      the header before it is padded. */
  lemma OldHeaderLayout(a: BootArgs)
    requires Writable(a) && a.version <= 2
    ensures var b := Image(a);
      && Holds(b, 0, [0x41, 0x4E, 0x44, 0x52, 0x4F, 0x49, 0x44, 0x21])
      && Number(b, 8) == FileSize(a.kernel) && Number(b, 12) == a.base + a.kernelOffset
      && Number(b, 16) == FileSize(a.ramdisk)
      && Number(b, 20) == (if FileSize(a.ramdisk) > 0 then a.base + a.ramdiskOffset else 0)
      && Number(b, 24) == FileSize(a.second)
      && Number(b, 28) == (if FileSize(a.second) > 0 then a.base + a.secondOffset else 0)
      && Number(b, 32) == a.base + a.tagsOffset && Number(b, 36) == a.pagesize && Number(b, 40) == a.version
      && Number(b, 44) == OsWord(a.osVersion, a.osPatchLevel)
      && Filled(b, 48, 16, a.board) && Filled(b, 576, 32, a.digest)
      && Filled(b, 64, 512, if |a.cmdline| < 511 then a.cmdline else a.cmdline[..511])
      && Filled(b, 608, 1024, if |a.cmdline| < 511 then [] else a.cmdline[511..])
    ensures var b := Image(a);
      && (a.version >= 1 ==>
            && Number(b, 1632) == FileSize(a.recoveryDtbo)
            && LongNumber(b, 1636) == (if a.recoveryDtbo.Some? then RecoveryDtboOffset(a) else 0)
            && Number(b, 1644) == |PackAll(HeaderFields(a))|)
      && (a.version == 2 ==> Number(b, 1648) == FileSize(a.dtb) && LongNumber(b, 1652) == a.base + a.dtbOffset)
  {
    hide OsWord, AllFit, SplitCommandLine, FileSize, RecoveryDtboOffset, Number, LongNumber, Filled, OldFields, PackAll, Image;
    OldFieldsIn(a);
    OldFieldAt(a);
    if a.version >= 1 {
      HeaderSizeAt(a);
    }
    var b, f, at := Image(a), OldFields(a), OldOffsets(a.version);
    assert FieldIn(b, at[0], f[0]) && FieldIn(b, at[1], f[1]) && FieldIn(b, at[2], f[2]) && FieldIn(b, at[3], f[3]);
    assert FieldIn(b, at[4], f[4]) && FieldIn(b, at[5], f[5]) && FieldIn(b, at[6], f[6]) && FieldIn(b, at[7], f[7]);
    assert FieldIn(b, at[8], f[8]) && FieldIn(b, at[9], f[9]) && FieldIn(b, at[10], f[10]) && FieldIn(b, at[13], f[13]);
    assert Filled(b, 0, 8, MAGIC);
    MagicIn(b, 0, MAGIC);
    assert FieldIn(b, at[11], f[11]) && FieldIn(b, at[12], f[12]) && FieldIn(b, at[14], f[14]);
    BoardIn(b, 48, 16, a.board);
    CommandLineIn(b, a.cmdline);
    if a.version >= 1 {
      assert FieldIn(b, at[15], f[15]) && FieldIn(b, at[16], f[16]) && FieldIn(b, at[17], f[17]);
    }
    if a.version == 2 {
      assert FieldIn(b, at[18], f[18]) && FieldIn(b, at[19], f[19]);
    }
  }

  lemma HeaderSizeAt(a: BootArgs)
    requires Writable(a) && 1 <= a.version <= 2
    ensures |OldFields(a)| > 17 && OldFields(a)[17] == I(if a.version == 1 then 1648 else 1660)
  {
    hide OsWord, AllFit, SplitCommandLine, FileSize, RecoveryDtboOffset;
  }

  lemma MagicIn(b: seq<byte>, at: nat, magic: seq<byte>)
    requires Filled(b, at, |magic|, magic)
    ensures Holds(b, at, magic)
  {
    var x := b[at..at + |magic|];
    assert forall i :: 0 <= i < |magic| ==> x[i] == b[at + i];
  }

  /** A NUL behind a text makes no difference to zeros behind it. */
  lemma BoardIn(b: seq<byte>, at: nat, n: nat, text: seq<byte>)
    requires Filled(b, at, n, text + [0])
    ensures Filled(b, at, n, text)
  {
    var x := text + [0];
    forall i | at <= i < at + n
      ensures b[i] == if i < at + |text| then text[i - at] else 0
    {
      assert b[i] == if i < at + |x| then x[i - at] else 0;
    }
  }

  lemma CommandLineIn(b: seq<byte>, text: seq<byte>)
    requires var (cmdline, extra) := SplitCommandLine(text + [0]); Filled(b, 64, 512, cmdline) && Filled(b, 608, 1024, extra)
    ensures Filled(b, 64, 512, if |text| < 511 then text else text[..511])
    ensures Filled(b, 608, 1024, if |text| < 511 then [] else text[511..])
  {
    hide Filled;
    var (cmdline, extra) := SplitCommandLine(text + [0]);
    if |text| < 511 {
      assert cmdline == (text + [0]) + [0] && extra == [];
      BoardIn(b, 64, 512, text + [0]);
      BoardIn(b, 64, 512, text);
    } else {
      assert cmdline == text[..511] + [0] && extra == text[511..] + [0];
      BoardIn(b, 64, 512, text[..511]);
      BoardIn(b, 608, 1024, text[511..]);
    }
  }

  // ----- boot images of versions 3 and 4

  function NewOffsets(version: int): seq<nat> {
    START_OFFSETS + if version == 4 then [1580, 1584] else [1580]
  }

  lemma NewOffsetsAre(version: int)
    requires IsNew(version)
    ensures OffsetsOf(HeaderKinds(version), NewOffsets(version)) && NewOffsets(version)[0] == 0
    ensures NewOffsets(version)[|NewOffsets(version)| - 1] == if version == 4 then 1584 else 1580
  {
    hide OffsetsOf, NewRestKinds;
    StartOffsetsAre();
    NewRestOffsets(version);
    var rest := if version == 4 then [44, 1580, 1584] else [44, 1580];
    OffsetsBehind(START_KINDS + [KI], START_OFFSETS, NewRestKinds(version), rest);
    assert START_OFFSETS + rest[1..] == NewOffsets(version);
  }

  lemma NewRestOffsets(version: int)
    requires IsNew(version)
    ensures OffsetsOf(NewRestKinds(version), if version == 4 then [44, 1580, 1584] else [44, 1580])
  {
  }

  lemma NewFieldsIn(a: BootArgs)
    requires Writable(a) && IsNew(a.version)
    ensures var f, at := NewFields(a), NewOffsets(a.version);
      && |at| == |f| + 1 && at[|f|] == |PackAll(f)|
      && forall i :: 0 <= i < |f| ==> FieldIn(Image(a), at[i], f[i])
  {
    hide AllFit, FieldIn, Padded, Sections, NewFields, PackAll, HeaderKinds, KindsOf, NewOffsets, OffsetsOf;
    KindsOfHeader(a);
    NewOffsetsAre(a.version);
    var packed := PackAll(NewFields(a));
    assert packed <= Image(a);
    assert Image(a)[0..|packed|] == packed;
    FieldsIn(NewFields(a), NewOffsets(a.version), Image(a));
  }

  /** The header of versions 3 and 4, with the size it announces. */
  lemma NewHeaderLayout(a: BootArgs)
    requires Writable(a) && IsNew(a.version)
    ensures var b := Image(a);
      && Holds(b, 0, [0x41, 0x4E, 0x44, 0x52, 0x4F, 0x49, 0x44, 0x21])
      && Number(b, 8) == FileSize(a.kernel) && Number(b, 12) == FileSize(a.ramdisk)
      && Number(b, 16) == OsWord(a.osVersion, a.osPatchLevel) && Number(b, 20) == |PackAll(HeaderFields(a))|
      && (forall i :: 24 <= i < 40 ==> i < |b| && b[i] == 0)
      && Number(b, 40) == a.version && Filled(b, 44, 1536, a.cmdline) && (a.version == 4 ==> Number(b, 1580) == 4096)
  {
    hide OsWord, AllFit, FileSize, Number, Filled, NewFields, PackAll, Image;
    NewFieldsIn(a);
    NewFieldAt(a);
    NewOffsetsAre(a.version);
    var b, f, at := Image(a), NewFields(a), NewOffsets(a.version);
    assert FieldIn(b, at[0], f[0]) && FieldIn(b, at[1], f[1]) && FieldIn(b, at[2], f[2]) && FieldIn(b, at[3], f[3]);
    assert FieldIn(b, at[4], f[4]) && FieldIn(b, at[5], f[5]) && FieldIn(b, at[6], f[6]) && FieldIn(b, at[7], f[7]);
    assert FieldIn(b, at[8], f[8]) && FieldIn(b, at[9], f[9]) && FieldIn(b, at[10], f[10]);
    MagicIn(b, 0, MAGIC);
    BoardIn(b, 44, 1536, a.cmdline);
    ZeroIn(b, 24);
    ZeroIn(b, 28);
    ZeroIn(b, 32);
    ZeroIn(b, 36);
    if a.version == 4 {
      assert FieldIn(b, at[11], f[11]);
    }
  }

  lemma NewFieldAt(a: BootArgs)
    requires IsNew(a.version)
    ensures var f := NewFields(a);
      && |f| == (if a.version == 4 then 12 else 11)
      && f[0] == S(8, MAGIC) && f[1] == I(FileSize(a.kernel)) && f[2] == I(FileSize(a.ramdisk))
      && f[3] == I(OsWord(a.osVersion, a.osPatchLevel)) && f[4] == I(if a.version == 4 then 1584 else 1580)
      && f[5] == f[6] == f[7] == f[8] == I(0) && f[9] == I(a.version) && f[10] == S(1536, a.cmdline + [0])
      && (a.version == 4 ==> f[11] == I(4096))
  {
    hide OsWord, FileSize;
  }

  lemma ZeroIn(b: seq<byte>, at: nat)
    requires Number(b, at) == 0
    ensures at + 4 <= |b| && b[at] == b[at + 1] == b[at + 2] == b[at + 3] == 0
  {
  }

  // ----- the files behind the header

  /** Sections start where the rounded sizes of those before say, with zeros behind every file. */
  lemma {:induction false} SectionsIn(files: seq<seq<byte>>, starts: seq<nat>, b: seq<byte>, page: nat)
    requires page > 0 && |starts| == |files| + 1 && Holds(b, starts[0], Sections(files, page))
    requires forall i :: 0 <= i < |files| ==> starts[i + 1] == starts[i] + RoundUp(|files[i]|, page)
    ensures starts[|files|] == starts[0] + |Sections(files, page)|
    ensures forall i :: 0 <= i < |files| ==> Filled(b, starts[i], RoundUp(|files[i]|, page), files[i])
  {
    hide Filled, RoundUp, Padded;
    if files != [] {
      var at, first, whole := starts[0], Padded(files[0], page), Sections(files, page);
      assert b[at..at + |first|] == b[at..at + |whole|][..|first|] == first;
      assert b[at + |first|..at + |whole|] == b[at..at + |whole|][|first|..] == Sections(files[1..], page);
      PaddedIn(b, at, files[0], page);
      SectionsIn(files[1..], starts[1..], b, page);
      forall i | 0 <= i < |files|
        ensures Filled(b, starts[i], RoundUp(|files[i]|, page), files[i])
      {
        if i > 0 {
          assert Filled(b, starts[1..][i - 1], RoundUp(|files[1..][i - 1]|, page), files[1..][i - 1]);
        }
      }
    }
  }

  lemma PaddedIn(b: seq<byte>, at: nat, x: seq<byte>, page: nat)
    requires page > 0 && Holds(b, at, Padded(x, page))
    ensures Filled(b, at, RoundUp(|x|, page), x)
  {
    hide RoundUp;
    var y := Padded(x, page);
    forall i | at <= i < at + |y|
      ensures b[i] == if i < at + |x| then x[i - at] else 0
    {
      assert b[i] == y[i - at];
    }
  }

  lemma HeaderPage(a: BootArgs)
    requires Writable(a)
    ensures |Padded(PackAll(HeaderFields(a)), PageOf(a))| == PageOf(a)
  {
    hide AllFit, OldFields, NewFields, PackAll, FieldIn, Padded, OldOffsets, NewOffsets, RoundUp;
    if a.version > 2 {
      NewFieldsIn(a);
      NewOffsetsAre(a.version);
      NewHeaderRounded();
    } else {
      OldVersions(a);
      HeaderTakesOnePage(a);
    }
  }

  lemma NewHeaderRounded()
    ensures RoundUp(1580, 4096) == 4096 && RoundUp(1584, 4096) == 4096
  {
  }

  lemma FilesIn(a: BootArgs, starts: seq<nat>)
    requires Writable(a) && |starts| == |Files(a)| + 1 && starts[0] == PageOf(a)
    requires forall i :: 0 <= i < |Files(a)| ==> starts[i + 1] == starts[i] + RoundUp(|Files(a)[i]|, PageOf(a))
    ensures starts[|Files(a)|] == |Image(a)|
    ensures forall i :: 0 <= i < |Files(a)| ==> Filled(Image(a), starts[i], RoundUp(|Files(a)[i]|, PageOf(a)), Files(a)[i])
  {
    hide AllFit, HeaderFields, PackAll, Padded, RoundUp, Files, Filled, Sections;
    HeaderPage(a);
    var b, sections := Image(a), Sections(Files(a), PageOf(a));
    assert b[starts[0]..starts[0] + |sections|] == sections;
    SectionsIn(Files(a), starts, b, PageOf(a));
  }

  /** The files of an image of the first versions, each from a page boundary on; the header takes one page. */
  lemma OldFilesLayout(a: BootArgs)
    requires Writable(a) && a.version <= 2
    ensures var b, p := Image(a), a.pagesize;
      var r := p + RoundUp(FileSize(a.kernel), p);
      var x := r + RoundUp(FileSize(a.ramdisk), p);
      var y := x + RoundUp(FileSize(a.second), p);
      var z := y + RoundUp(FileSize(a.recoveryDtbo), p);
      && Filled(b, p, r - p, Content(a.kernel)) && Filled(b, r, x - r, Content(a.ramdisk))
      && Filled(b, x, y - x, Content(a.second))
      && (a.version == 0 ==> |b| == y)
      && (a.version >= 1 ==> Filled(b, y, z - y, Content(a.recoveryDtbo)))
      && (a.version == 1 ==> |b| == z)
      && (a.version == 2 ==> |b| == z + RoundUp(FileSize(a.dtb), p) && Filled(b, z, |b| - z, Content(a.dtb)))
  {
    hide AllFit, HeaderFields, RoundUp, Content, Filled, Image;
    OldVersions(a);
    var p := a.pagesize;
    var r := p + RoundUp(FileSize(a.kernel), p);
    var x := r + RoundUp(FileSize(a.ramdisk), p);
    var y := x + RoundUp(FileSize(a.second), p);
    var z := y + RoundUp(FileSize(a.recoveryDtbo), p);
    var starts := [p, r, x, y];
    if a.version == 1 {
      starts := starts + [z];
    } else if a.version == 2 {
      starts := starts + [z, z + RoundUp(FileSize(a.dtb), p)];
    }
    FilesIn(a, starts);
    var fs, b := Files(a), Image(a);
    assert Filled(b, starts[0], RoundUp(|fs[0]|, p), fs[0]) && Filled(b, starts[1], RoundUp(|fs[1]|, p), fs[1]);
    assert Filled(b, starts[2], RoundUp(|fs[2]|, p), fs[2]);
    if a.version >= 1 {
      assert Filled(b, starts[3], RoundUp(|fs[3]|, p), fs[3]);
    }
    if a.version == 2 {
      assert Filled(b, starts[4], RoundUp(|fs[4]|, p), fs[4]);
    }
  }

  /** Those of versions 3 and 4; without a signing key a page of zeros stands in for the signature. */
  lemma NewFilesLayout(a: BootArgs)
    requires Writable(a) && IsNew(a.version)
    ensures var b := Image(a);
      var r := 4096 + RoundUp(FileSize(a.kernel), 4096);
      var x := r + RoundUp(FileSize(a.ramdisk), 4096);
      && Filled(b, 4096, r - 4096, Content(a.kernel)) && Filled(b, r, x - r, Content(a.ramdisk))
      && (a.version == 3 ==> |b| == x)
      && (a.version == 4 && a.signature.Some? ==>
            |b| == x + RoundUp(FileSize(a.signature), 4096) && Filled(b, x, |b| - x, a.signature.value))
      && (a.version == 4 && a.signature.None? ==> |b| == x + 4096 && Filled(b, x, 4096, []))
  {
    hide AllFit, HeaderFields, RoundUp, Filled, Image;
    var b, r := Image(a), 4096 + RoundUp(FileSize(a.kernel), 4096);
    var x := r + RoundUp(FileSize(a.ramdisk), 4096);
    var fs := Files(a);
    var starts := [4096, r, x];
    if a.version == 4 {
      starts := starts + [x + RoundUp(|fs[2]|, 4096)];
    }
    FilesIn(a, starts);
    assert Filled(b, starts[0], RoundUp(|fs[0]|, 4096), fs[0]) && Filled(b, starts[1], RoundUp(|fs[1]|, 4096), fs[1]);
    if a.version == 4 {
      assert Filled(b, starts[2], RoundUp(|fs[2]|, 4096), fs[2]);
      if a.signature.None? {
        PageOfZeros(b, x);
      }
    }
  }

  lemma PageOfZeros(b: seq<byte>, at: nat)
    requires Filled(b, at, RoundUp(4096, 4096), Zeros(4096))
    ensures RoundUp(4096, 4096) == 4096 && Filled(b, at, 4096, [])
  {
    hide Zeros;
  }

  // ----- vendor images

  const VENDOR_OFFSETS: seq<nat> := [0, 8, 12, 16, 20, 24, 28, 2076, 2080, 2096, 2100, 2104, 2112]

  function VendorOffsets(version: int): seq<nat> {
    VENDOR_OFFSETS + if version == 4 then [2116, 2120, 2124, 2128] else []
  }

  lemma VendorOffsetsAre(version: int)
    requires IsNew(version)
    ensures OffsetsOf(VendorKinds(version), VendorOffsets(version)) && VendorOffsets(version)[0] == 0
    ensures VendorOffsets(version)[|VendorOffsets(version)| - 1] == if version == 4 then 2128 else 2112
  {
    hide OffsetsOf, VendorTailKinds;
    VendorRestOffsets();
    VendorTailOffsets(version);
    var tail := if version == 4 then [2112, 2116, 2120, 2124, 2128] else [2112];
    OffsetsBehind([KS(8)] + [KI] + VENDOR_REST_KINDS, VENDOR_OFFSETS, VendorTailKinds(version), tail);
    assert [KS(8)] + [KI] + VENDOR_REST_KINDS + VendorTailKinds(version) == VendorKinds(version);
    assert VENDOR_OFFSETS + tail[1..] == VendorOffsets(version);
  }

  lemma VendorRestOffsets()
    ensures OffsetsOf([KS(8)] + [KI] + VENDOR_REST_KINDS, VENDOR_OFFSETS)
  {
  }

  lemma VendorTailOffsets(version: int)
    requires IsNew(version)
    ensures OffsetsOf(VendorTailKinds(version), if version == 4 then [2112, 2116, 2120, 2124, 2128] else [2112])
  {
  }

  lemma VendorFieldsIn(a: VendorArgs)
    requires VendorWritable(a)
    ensures var f, at := VendorFields(a), VendorOffsets(a.version);
      && |at| == |f| + 1 && at[|f|] == |PackAll(f)|
      && forall i :: 0 <= i < |f| ==> FieldIn(VendorImage(a), at[i], f[i])
  {
    hide AllFit, FieldIn, Padded, Sections, VendorFields, PackAll, VendorKinds, KindsOf, VendorOffsets, OffsetsOf, VendorFiles,
      FragmentsAllowed, Table;
    VendorKindsOf(a);
    VendorOffsetsAre(a.version);
    var packed, b := PackAll(VendorFields(a)), VendorImage(a);
    assert packed <= b;
    assert b[0..|packed|] == packed;
    FieldsIn(VendorFields(a), VendorOffsets(a.version), b);
  }

  /** The header of a vendor image, with the size it announces and, in version 4, what it says of the table. */
  lemma VendorHeaderLayout(a: VendorArgs)
    requires VendorWritable(a)
    ensures var b := VendorImage(a);
      && Holds(b, 0, [0x56, 0x4E, 0x44, 0x52, 0x42, 0x4F, 0x4F, 0x54])
      && Number(b, 8) == a.version && Number(b, 12) == a.pagesize
      && Number(b, 16) == a.base + a.kernelOffset && Number(b, 20) == a.base + a.ramdiskOffset
      && Number(b, 24) == (if a.version == 4 then |Ramdisks(AllFragments(a))| else FileSize(a.vendorRamdisk))
      && Filled(b, 28, 2048, a.vendorCmdline) && Number(b, 2076) == a.base + a.tagsOffset
      && Filled(b, 2080, 16, a.board) && Number(b, 2096) == |PackAll(VendorFields(a))|
      && Number(b, 2100) == FileSize(a.dtb) && LongNumber(b, 2104) == a.base + a.dtbOffset
      && (a.version == 4 ==>
            && Number(b, 2112) == |PackAll(Table(a))| && Number(b, 2116) == |AllFragments(a)| && Number(b, 2120) == 108
            && Number(b, 2124) == FileSize(a.bootconfig))
  {
    hide AllFit, FileSize, Number, LongNumber, Filled, VendorFields, PackAll, VendorImage, Ramdisks, AllFragments, Table,
      FragmentsAllowed;
    VendorFieldsIn(a);
    VendorFieldsAre(a);
    VendorOffsetsAre(a.version);
    var b, f, at := VendorImage(a), VendorFields(a), VendorOffsets(a.version);
    assert FieldIn(b, at[0], f[0]) && FieldIn(b, at[1], f[1]) && FieldIn(b, at[2], f[2]) && FieldIn(b, at[3], f[3]);
    assert FieldIn(b, at[4], f[4]) && FieldIn(b, at[5], f[5]) && FieldIn(b, at[6], f[6]) && FieldIn(b, at[7], f[7]);
    assert FieldIn(b, at[8], f[8]) && FieldIn(b, at[9], f[9]) && FieldIn(b, at[10], f[10]) && FieldIn(b, at[11], f[11]);
    MagicIn(b, 0, VENDOR_MAGIC);
    BoardIn(b, 28, 2048, a.vendorCmdline);
    BoardIn(b, 2080, 16, a.board);
    if a.version == 4 {
      VendorTableSize(a);
      assert FieldIn(b, at[12], f[12]) && FieldIn(b, at[13], f[13]) && FieldIn(b, at[14], f[14]) && FieldIn(b, at[15], f[15]);
    }
  }

  lemma VendorFieldsAre(a: VendorArgs)
    requires IsNew(a.version)
    ensures var f := VendorFields(a);
      && |f| == (if a.version == 4 then 16 else 12)
      && f[0] == S(8, VENDOR_MAGIC) && f[1] == I(a.version) && f[2] == I(a.pagesize) && f[3] == I(a.base + a.kernelOffset)
      && f[4] == I(a.base + a.ramdiskOffset) && f[5] == I(TotalSize(a)) && f[6] == S(2048, a.vendorCmdline + [0])
      && f[7] == I(a.base + a.tagsOffset) && f[8] == S(16, a.board + [0]) && f[9] == I(if a.version == 4 then 2128 else 2112)
      && f[10] == I(FileSize(a.dtb)) && f[11] == Q(a.base + a.dtbOffset)
      && (a.version == 4 ==>
            && f[12] == I(|AllFragments(a)| * 108) && f[13] == I(|AllFragments(a)|) && f[14] == I(108)
            && f[15] == I(FileSize(a.bootconfig)))
  {
    hide TotalSize, AllFragments, FileSize;
  }

  /** The sections of a vendor image; behind a header of RoundUp(2112) or RoundUp(2128) bytes. */
  lemma VendorFilesLayout(a: VendorArgs)
    requires VendorWritable(a)
    ensures var b, p := VendorImage(a), a.pagesize;
      var h := RoundUp(if a.version == 4 then 2128 else 2112, p);
      var ramdisks := if a.version == 4 then Ramdisks(AllFragments(a)) else Content(a.vendorRamdisk);
      var d := h + RoundUp(|ramdisks|, p);
      var t := d + RoundUp(FileSize(a.dtb), p);
      && Filled(b, h, d - h, ramdisks) && Filled(b, d, t - d, Content(a.dtb))
      && (a.version == 3 ==> |b| == t)
      && (a.version == 4 ==>
            var c := t + RoundUp(|PackAll(Table(a))|, p);
            && Filled(b, t, c - t, PackAll(Table(a)))
            && |b| == c + RoundUp(FileSize(a.bootconfig), p) && Filled(b, c, |b| - c, Content(a.bootconfig)))
  {
    hide AllFit, RoundUp, Filled, VendorImage, Ramdisks, AllFragments, Table, PackAll, FragmentsAllowed;
    var b, p, fs := VendorImage(a), a.pagesize, VendorFiles(a);
    var h := RoundUp(if a.version == 4 then 2128 else 2112, p);
    var d := h + RoundUp(|fs[0]|, p);
    var starts := [h, d, d + RoundUp(|fs[1]|, p)];
    if a.version == 4 {
      var c := starts[2] + RoundUp(|fs[2]|, p);
      starts := starts + [c, c + RoundUp(|fs[3]|, p)];
    }
    VendorFilesIn(a, starts);
    assert Filled(b, starts[0], RoundUp(|fs[0]|, p), fs[0]) && Filled(b, starts[1], RoundUp(|fs[1]|, p), fs[1]);
    if a.version == 4 {
      assert Filled(b, starts[2], RoundUp(|fs[2]|, p), fs[2]) && Filled(b, starts[3], RoundUp(|fs[3]|, p), fs[3]);
    }
  }

  lemma VendorFilesIn(a: VendorArgs, starts: seq<nat>)
    requires VendorWritable(a) && |starts| == |VendorFiles(a)| + 1
    requires starts[0] == RoundUp(if a.version == 4 then 2128 else 2112, a.pagesize)
    requires var fs := VendorFiles(a); forall i :: 0 <= i < |fs| ==> starts[i + 1] == starts[i] + RoundUp(|fs[i]|, a.pagesize)
    ensures starts[|VendorFiles(a)|] == |VendorImage(a)|
    ensures var fs := VendorFiles(a);
      forall i :: 0 <= i < |fs| ==> Filled(VendorImage(a), starts[i], RoundUp(|fs[i]|, a.pagesize), fs[i])
  {
    hide AllFit, VendorFields, PackAll, Padded, RoundUp, VendorFiles, Filled, Sections, FieldIn, VendorOffsets, Table,
      FragmentsAllowed;
    VendorFieldsIn(a);
    VendorOffsetsAre(a.version);
    var b, sections := VendorImage(a), Sections(VendorFiles(a), a.pagesize);
    assert b[starts[0]..starts[0] + |sections|] == sections;
    SectionsIn(VendorFiles(a), starts, b, a.pagesize);
  }

  /** An entry of the table: size and offset of its ramdisk, type, name, and sixteen numbers of the board. */
  predicate EntryIn(b: seq<byte>, at: nat, f: Fragment, offset: nat) {
    && Number(b, at) == |f.ramdisk| && Number(b, at + 4) == offset && Number(b, at + 8) == f.kind
    && Filled(b, at + 12, 32, f.name)
    && |f.boardId| == 16 && forall j :: 0 <= j < 16 ==> Number(b, at + 44 + 4 * j) == f.boardId[j]
  }

  lemma EntryFieldsIn(e: Entry, b: seq<byte>, at: nat)
    requires AllFit(EntryFields(e)) && |e.fragment.boardId| == 16 && Holds(b, at, PackAll(EntryFields(e)))
    requires e.size == |e.fragment.ramdisk|
    ensures EntryIn(b, at, e.fragment, e.offset)
  {
    hide AllFit, PackAll, Number, Filled, KindsOf, OffsetsOf, EntryKinds;
    EntryKindsOf(e);
    EntryOffsetsAre(at);
    var f, offsets := EntryFields(e), EntryOffsets(at);
    FieldsIn(f, offsets, b);
    assert FieldIn(b, offsets[0], f[0]) && FieldIn(b, offsets[1], f[1]);
    assert FieldIn(b, offsets[2], f[2]) && FieldIn(b, offsets[3], f[3]);
    forall j | 0 <= j < 16
      ensures Number(b, at + 44 + 4 * j) == e.fragment.boardId[j]
    {
      assert FieldIn(b, offsets[4 + j], f[4 + j]);
    }
  }

  /** Entry k of a table is that of ramdisk k, with the size of all ramdisks before as its offset. */
  lemma EntryLayout(fs: seq<Fragment>, k: nat)
    requires k < |fs| && AllFit(TableFields(Placed(fs))) && forall i :: 0 <= i < |fs| ==> |fs[i].boardId| == 16
    ensures EntryIn(PackAll(TableFields(Placed(fs))), k * 108, fs[k], |Ramdisks(fs[..k])|)
  {
    hide AllFit, TableFields, PackAll, EntryFields, EntryIn, Ramdisks;
    EntryStands(Placed(fs), k);
    EntryFieldsIn(Placed(fs)[k], PackAll(TableFields(Placed(fs))), k * 108);
  }

  function EntryOffsets(at: nat): seq<nat> {
    [at, at + 4, at + 8, at + 12] + seq(17, j requires 0 <= j < 17 => at + 44 + 4 * j)
  }

  lemma EntryOffsetsAre(at: nat)
    ensures OffsetsOf(EntryKinds(), EntryOffsets(at))
  {
  }
}
