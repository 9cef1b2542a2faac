/** Reading a boot image back: the header and page rounding are enough to recover every file. */
module BootImageReader {
  import opened Bits
  import opened BootImage
  import opened Bytes
  import opened OsVersion
  import opened Paging
  import opened Struct

  const START_KINDS: seq<Kind> := [KS(8), KI, KI, KI, KI, KI, KI, KI, KI]
  const OLD_REST_KINDS: seq<Kind> := [KI, KS(NAME_SIZE), KS(ARGS_SIZE), KS(32), KS(EXTRA_ARGS_SIZE)]
  const VERSION_AT: nat := 40

  function OldTailKinds(version: int): seq<Kind> {
    if version == 1 then [KI, KQ, KI] else if version == 2 then [KI, KQ, KI, KI, KQ] else []
  }

  function NewRestKinds(version: int): seq<Kind> {
    if version == 4 then [KS(ARGS_SIZE + EXTRA_ARGS_SIZE), KI] else [KS(ARGS_SIZE + EXTRA_ARGS_SIZE)]
  }

  function HeaderKinds(version: int): seq<Kind> {
    START_KINDS + [KI] + if version > 2 then NewRestKinds(version) else OLD_REST_KINDS + OldTailKinds(version)
  }

  function Num(fs: seq<Field>, i: nat): int {
    if i < |fs| && !fs[i].S? then fs[i].value else 0
  }

  function Size(fs: seq<Field>, i: nat): nat {
    if Num(fs, i) > 0 then Num(fs, i) else 0
  }

  function Text(fs: seq<Field>, i: nat): seq<byte> {
    if i < |fs| && fs[i].S? then fs[i].text else []
  }

  /** The sizes of the sections, in the order of the sections. */
  function SectionSizes(version: int, fs: seq<Field>): seq<nat> {
    if version == 4 then [Size(fs, 1), Size(fs, 2), Size(fs, 11)]
    else if version == 3 then [Size(fs, 1), Size(fs, 2)]
    else if version == 2 then [Size(fs, 1), Size(fs, 3), Size(fs, 5), Size(fs, 15), Size(fs, 18)]
    else if version == 1 then [Size(fs, 1), Size(fs, 3), Size(fs, 5), Size(fs, 15)]
    else [Size(fs, 1), Size(fs, 3), Size(fs, 5)]
  }

  datatype Details =
    | OldDetails(kernelAt: int, ramdiskAt: int, secondAt: int, tagsAt: int, dtbAt: int, recoveryAt: int,
                 name: seq<byte>, id: seq<byte>)
    | NewDetails

  datatype Boot = Boot(version: int, osWord: int, cmdline: seq<byte>, details: Details, files: seq<seq<byte>>)

  function BootOf(version: int, fs: seq<Field>, files: seq<seq<byte>>): Boot {
    if version > 2 then Boot(version, Num(fs, 3), UpToNul(Text(fs, 10)), NewDetails, files)
    else
      Boot(version, Num(fs, 10), JoinCommandLine(Text(fs, 12), Text(fs, 14)),
           OldDetails(Num(fs, 2), Num(fs, 4), Num(fs, 6), Num(fs, 7), Num(fs, 19), Num(fs, 16), UpToNul(Text(fs, 11)), Text(fs, 13)),
           files)
  }

  function ReadBoot(img: seq<byte>): Option<Boot> {
    if |img| < VERSION_AT + 4 then None
    else
      var version := ReadLe32(img, VERSION_AT);
      if version > 4 then None
      else
        match UnpackAll(img, 0, HeaderKinds(version))
        case None => None
        case Some(fs) =>
          var page := if version > 2 then V3_PAGESIZE else Size(fs, 8);
          if Text(fs, 0) != MAGIC || page == 0 then None
          else
            match Cut(img, RoundUp(WidthOf(HeaderKinds(version)), page), SectionSizes(version, fs), page)
            case None => None
            case Some(files) => Some(BootOf(version, fs, files))
  }

  // ----- what is read of an image that was written

  /** A signature is read with its filling. */
  function ReadFiles(a: BootArgs): seq<seq<byte>> {
    if a.version >= 4 then [Content(a.kernel), Content(a.ramdisk), FitText(V4_SIGNATURE_SIZE, Content(SignatureFile(a)))] else Files(a)
  }

  function Expected(a: BootArgs): Boot
    requires Writable(a)
  {
    if a.version > 2 then Boot(a.version, OsWord(a.osVersion, a.osPatchLevel), a.cmdline, NewDetails, ReadFiles(a))
    else
      Boot(a.version, OsWord(a.osVersion, a.osPatchLevel), a.cmdline,
           OldDetails(a.base + a.kernelOffset,
                      if FileSize(a.ramdisk) > 0 then a.base + a.ramdiskOffset else 0,
                      if FileSize(a.second) > 0 then a.base + a.secondOffset else 0,
                      a.base + a.tagsOffset,
                      if a.version == 2 then a.base + a.dtbOffset else 0,
                      if a.version > 0 && a.recoveryDtbo.Some? then RecoveryDtboOffset(a) else 0,
                      a.board, FitText(32, a.digest)),
           ReadFiles(a))
  }

  lemma KindsOfConcat(a: seq<Field>, b: seq<Field>)
    ensures KindsOf(a + b) == KindsOf(a) + KindsOf(b)
  {
    hide KindOf;
  }

  lemma KindsOfHeader(a: BootArgs)
    requires Writable(a)
    ensures KindsOf(HeaderFields(a)) == HeaderKinds(a.version)
  {
    hide KindsOf, AllFit, OldRest, RecoveryFields, HeaderSizeField, DtbFields, OldStart, NewStart, NewRest, OldTailKinds, NewRestKinds;
    KindsOfStart(a);
    if a.version > 2 {
      KindsOfConcat(NewStart(a), [I(a.version)]);
      KindsOfConcat(NewStart(a) + [I(a.version)], NewRest(a));
    } else {
      var tail := RecoveryFields(a) + HeaderSizeField(a) + DtbFields(a);
      KindsOfConcat(OldStart(a), [I(a.version)]);
      KindsOfConcat(OldRest(a), tail);
      KindsOfConcat(OldStart(a) + [I(a.version)], OldRest(a) + tail);
    }
  }

  lemma KindsOfStart(a: BootArgs)
    requires Writable(a)
    ensures KindsOf(OldStart(a)) == KindsOf(NewStart(a)) == START_KINDS && KindsOf([I(a.version)]) == [KI]
    ensures a.version > 2 ==> KindsOf(NewRest(a)) == NewRestKinds(a.version)
    ensures a.version <= 2 ==>
              KindsOf(OldRest(a)) == OLD_REST_KINDS
              && KindsOf(RecoveryFields(a) + HeaderSizeField(a) + DtbFields(a)) == OldTailKinds(a.version)
  {
    hide OsWord, AllFit, SplitCommandLine;
  }

  /** The version stands at the same place in every header. */
  lemma VersionAt(x: seq<Field>, v: int, y: seq<Field>, img: seq<byte>)
    requires AllFit(x + [I(v)] + y) && PackAll(x + [I(v)] + y) <= img && KindsOf(x) == START_KINDS
    ensures |img| >= VERSION_AT + 4 && ReadLe32(img, VERSION_AT) == v
  {
    hide AllFit, ReadLe32, PackAll, KindsOf, WidthOf;
    StartWidth();
    NumberAt(x, v, y, img);
  }

  lemma StartWidth()
    ensures WidthOf(START_KINDS) == VERSION_AT
  {
    assert START_KINDS == [KS(8)] + [KI, KI, KI, KI] + [KI, KI, KI, KI];
    assert WidthOf([KI]) == 4 + WidthOf([KI][1..]) == 4;
    assert [KI, KI][1..] == [KI] && [KI, KI, KI][1..] == [KI, KI];
    assert [KI, KI, KI, KI][1..] == [KI, KI, KI] && [KI, KI, KI, KI, KI][1..] == [KI, KI, KI, KI];
    assert WidthOf([KI, KI, KI, KI, KI]) == 20;
    assert [KI, KI, KI, KI, KI, KI][1..] == [KI, KI, KI, KI, KI];
    assert [KI, KI, KI, KI, KI, KI, KI][1..] == [KI, KI, KI, KI, KI, KI];
    assert WidthOf([KI, KI, KI, KI, KI, KI, KI]) == 28;
    assert START_KINDS[1..][1..] == [KI, KI, KI, KI, KI, KI, KI];
  }

  /** What can be packed and read back as texts: no NUL inside, and no signature of no bytes. */
  predicate Readable(a: BootArgs) {
    Writable(a) && 0 !in a.board && 0 !in a.cmdline && (a.version == 4 ==> a.signature != Some([]))
  }

  lemma OldFieldAt(a: BootArgs)
    requires Writable(a) && a.version <= 2
    ensures var f, s, r := OldFields(a), OldStart(a), OldRest(a);
      && |f| == 15 + |OldTailKinds(a.version)| && |s| == 9 && |r| == 5 && f[9] == I(a.version)
      && (forall i :: 0 <= i < 9 ==> f[i] == s[i])
      && f[10] == r[0] && f[11] == r[1] && f[12] == r[2] && f[13] == r[3] && f[14] == r[4]
      && (a.version > 0 ==> f[15] == I(FileSize(a.recoveryDtbo)))
      && (a.version > 0 ==> f[16] == Q(if a.recoveryDtbo.Some? then RecoveryDtboOffset(a) else 0))
      && (a.version == 2 ==> f[18] == I(FileSize(a.dtb)) && f[19] == Q(a.base + a.dtbOffset))
  {
    hide OsWord, AllFit, SplitCommandLine, FileSize, RecoveryDtboOffset;
    NoFileNoSize();
  }

  lemma NoFileNoSize()
    ensures FileSize(None) == 0
  {
  }

  lemma OldSizeAt(a: BootArgs, fs: seq<Field>)
    requires Writable(a) && a.version <= 2 && fs == StoredAll(OldFields(a))
    ensures Size(fs, 1) == |Content(a.kernel)| && Size(fs, 3) == |Content(a.ramdisk)| && Size(fs, 5) == |Content(a.second)|
    ensures Size(fs, 8) == a.pagesize && Text(fs, 0) == MAGIC
    ensures a.version > 0 ==> Size(fs, 15) == |Content(a.recoveryDtbo)|
    ensures a.version == 2 ==> Size(fs, 18) == |Content(a.dtb)|
  {
    hide OsWord, AllFit, SplitCommandLine, OldFields, OldRest, RecoveryDtboOffset, Content, FitText;
    OldFieldAt(a);
    MagicFits();
  }

  lemma MagicFits()
    ensures FitText(8, MAGIC) == MAGIC
  {
  }

  lemma OldSizes(a: BootArgs, fs: seq<Field>)
    requires Writable(a) && a.version <= 2 && fs == StoredAll(OldFields(a))
    ensures SectionSizes(a.version, fs) == Sizes(ReadFiles(a))
    ensures Size(fs, 8) == a.pagesize && Text(fs, 0) == MAGIC
  {
    hide AllFit, OldFields, Size, Content, Text, StoredAll;
    OldSizeAt(a, fs);
  }

  lemma OldTexts(a: BootArgs, fs: seq<Field>)
    requires Readable(a) && a.version <= 2 && fs == StoredAll(OldFields(a))
    ensures JoinCommandLine(Text(fs, 12), Text(fs, 14)) == a.cmdline
    ensures UpToNul(Text(fs, 11)) == a.board && Text(fs, 13) == FitText(32, a.digest)
  {
    hide OsWord, AllFit, SplitCommandLine, OldFields, OldStart, UpToNul, FitText, JoinCommandLine;
    OldFieldAt(a);
    CommandLineSurvives(a.cmdline);
    TextRoundTrip(NAME_SIZE, a.board);
  }

  lemma OldNumbers(a: BootArgs, fs: seq<Field>, files: seq<seq<byte>>)
    requires Readable(a) && a.version <= 2 && fs == StoredAll(OldFields(a)) && files == ReadFiles(a)
    ensures BootOf(a.version, fs, files) == Expected(a)
  {
    hide OsWord, AllFit, SplitCommandLine, OldFields, UpToNul, FitText, JoinCommandLine, ReadFiles, RecoveryDtboOffset;
    OldFieldAt(a);
    OldTexts(a, fs);
  }

  lemma NewValues(a: BootArgs, fs: seq<Field>, files: seq<seq<byte>>)
    requires Readable(a) && a.version > 2 && fs == StoredAll(NewFields(a)) && files == ReadFiles(a)
    ensures SectionSizes(a.version, fs) == Sizes(files) && Text(fs, 0) == MAGIC
    ensures BootOf(a.version, fs, files) == Expected(a)
  {
    hide OsWord, AllFit, UpToNul;
    assert FitText(8, MAGIC) == MAGIC;
    NewCommandLine(a);
    assert fs[10] == Stored(NewFields(a)[10]);
  }

  lemma NewCommandLine(a: BootArgs)
    requires Readable(a) && a.version > 2
    ensures UpToNul(FitText(ARGS_SIZE + EXTRA_ARGS_SIZE, a.cmdline + [0])) == a.cmdline
  {
    TextRoundTrip(ARGS_SIZE + EXTRA_ARGS_SIZE, a.cmdline);
  }

  /** Filled to its size, a signature takes the same page. */
  lemma SameSections(a: BootArgs)
    requires Readable(a)
    ensures Sections(ReadFiles(a), PageOf(a)) == Sections(Files(a), PageOf(a))
  {
    hide Padded, AllFit, FitText;
    if a.version == 4 {
      var s := Content(SignatureFile(a));
      SignaturePage(s);
      assert Files(a)[1..] == [Content(a.ramdisk), s] && ReadFiles(a)[1..] == [Content(a.ramdisk), FitText(V4_SIGNATURE_SIZE, s)];
      assert [Content(a.ramdisk), s][1..] == [s];
      assert [Content(a.ramdisk), FitText(V4_SIGNATURE_SIZE, s)][1..] == [FitText(V4_SIGNATURE_SIZE, s)];
      SectionsOfOne(s, V3_PAGESIZE);
      SectionsOfOne(FitText(V4_SIGNATURE_SIZE, s), V3_PAGESIZE);
    }
  }

  lemma SignaturePage(s: seq<byte>)
    requires 0 < |s| <= V4_SIGNATURE_SIZE
    ensures Padded(FitText(V4_SIGNATURE_SIZE, s), V3_PAGESIZE) == Padded(s, V3_PAGESIZE)
  {
    ModIs(|s| + V3_PAGESIZE - 1, V3_PAGESIZE, 1, |s| - 1);
  }

  /** Every image that is written is read back: all numbers, both texts, and every file. */
  lemma ImageRoundTrip(a: BootArgs)
    requires Readable(a)
    ensures ReadBoot(Image(a)) == Some(Expected(a))
  {
    hide AllFit, HeaderFields, PackAll, KindsOf, Sections, Files, ReadFiles, UnpackAll, Cut, Padded, RoundUp, WidthOf, HeaderKinds,
      SectionSizes, BootOf, Expected, Text, Size, ReadLe32, StoredAll;
    var img, fields, page := Image(a), HeaderFields(a), PageOf(a);
    var packed := PackAll(fields);
    assert packed <= img;
    HeaderVersion(a, img);
    KindsOfHeader(a);
    assert img[0..|packed|] == packed;
    RoundTrip(fields, img, 0);
    PackAllWidth(fields);
    var at := |Padded(packed, page)|;
    SameSections(a);
    assert img[at..at + |Sections(ReadFiles(a), page)|] == Sections(ReadFiles(a), page);
    CutSections(ReadFiles(a), img, at, page);
    HeaderValues(a, StoredAll(fields));
  }

  lemma HeaderVersion(a: BootArgs, img: seq<byte>)
    requires Writable(a) && PackAll(HeaderFields(a)) <= img
    ensures |img| >= VERSION_AT + 4 && ReadLe32(img, VERSION_AT) == a.version
  {
    hide AllFit, PackAll, OldStart, OldRest, NewStart, NewRest, RecoveryFields, HeaderSizeField, DtbFields, KindsOf, ReadLe32;
    KindsOfStart(a);
    if IsNew(a.version) {
      VersionAt(NewStart(a), a.version, NewRest(a), img);
    } else {
      VersionAt(OldStart(a), a.version, OldRest(a) + (RecoveryFields(a) + HeaderSizeField(a) + DtbFields(a)), img);
    }
  }

  lemma HeaderValues(a: BootArgs, fs: seq<Field>)
    requires Readable(a) && fs == StoredAll(HeaderFields(a))
    ensures SectionSizes(a.version, fs) == Sizes(ReadFiles(a)) && Text(fs, 0) == MAGIC
    ensures a.version <= 2 ==> Size(fs, 8) == a.pagesize
    ensures BootOf(a.version, fs, ReadFiles(a)) == Expected(a)
  {
    hide AllFit, OldFields, NewFields, SectionSizes, BootOf, Expected, ReadFiles, Text, Size;
    if IsNew(a.version) {
      NewValues(a, fs, ReadFiles(a));
    } else {
      OldSizes(a, fs);
      OldNumbers(a, fs, ReadFiles(a));
    }
  }

  /** The one exception: a signature of no bytes leaves its section out, and the reader does not find
      what the header announces. */
  lemma EmptySignatureIsNotFound(a: BootArgs)
    requires Writable(a) && a.version == 4 && a.signature == Some([])
    ensures ReadBoot(Image(a)) == None
  {
    hide AllFit, HeaderFields, PackAll, KindsOf, UnpackAll, Padded, RoundUp, WidthOf, HeaderKinds, BootOf, Text, Size, ReadLe32,
      StoredAll;
    var img, fields, page := Image(a), HeaderFields(a), PageOf(a);
    var packed := PackAll(fields);
    assert packed <= img;
    HeaderVersion(a, img);
    KindsOfHeader(a);
    assert img[0..|packed|] == packed;
    RoundTrip(fields, img, 0);
    PackAllWidth(fields);
    NewSizes(a, StoredAll(fields));
    var kernel, ramdisk := Content(a.kernel), Content(a.ramdisk);
    assert Files(a) == [kernel, ramdisk, []];
    ThreeSections(kernel, ramdisk, [], page);
    RoundUpOfNothing(page);
    CutBeyond(img, |Padded(packed, page)|, |kernel|, |ramdisk|, V4_SIGNATURE_SIZE, page);
  }

  lemma NewSizes(a: BootArgs, fs: seq<Field>)
    requires Writable(a) && a.version == 4 && fs == StoredAll(HeaderFields(a))
    ensures SectionSizes(4, fs) == [FileSize(a.kernel), FileSize(a.ramdisk), V4_SIGNATURE_SIZE]
  {
    hide AllFit, OsWord;
  }

  lemma CutBeyond(img: seq<byte>, at: nat, x: nat, y: nat, z: nat, page: nat)
    requires page > 0 && z > 0 && |img| == at + RoundUp(x, page) + RoundUp(y, page)
    ensures Cut(img, at, [x, y, z], page) == None
  {
    hide RoundUp;
    var there := at + RoundUp(x, page) + RoundUp(y, page);
    assert [x, y, z][1..] == [y, z] && [y, z][1..] == [z];
    assert Cut(img, there, [z], page) == None;
    assert Cut(img, at + RoundUp(x, page), [y, z], page) == None;
  }

  // ----- the recovery image

  /** The offset computed beforehand is where the recovery image is written; it relies on the header
      taking one page. */
  lemma RecoveryOffsetIsTrue(a: BootArgs)
    requires Writable(a) && (a.version == 1 || a.version == 2) && a.recoveryDtbo.Some?
    ensures var at := RecoveryDtboOffset(a);
      && at + |a.recoveryDtbo.value| <= |Image(a)|
      && Image(a)[at..at + |a.recoveryDtbo.value|] == a.recoveryDtbo.value
  {
    hide AllFit, HeaderFields, PackAll, Padded, Pages, RoundUp, FileSize;
    var p, kernel, ramdisk, second := a.pagesize, Content(a.kernel), Content(a.ramdisk), Content(a.second);
    var recovery := Content(a.recoveryDtbo);
    var before, after := [kernel, ramdisk, second], if a.version == 2 then [Content(a.dtb)] else [];
    HeaderTakesOnePage(a);
    ThreeSections(kernel, ramdisk, second, p);
    assert Files(a) == before + ([recovery] + after);
    SectionsConcat(before, [recovery] + after, p);
    SectionsConcat([recovery], after, p);
    SectionsOfOne(recovery, p);
    OffsetInPages(a);
    Behind(Padded(PackAll(HeaderFields(a)), p), Sections(before, p), Padded(recovery, p), Sections(after, p), recovery);
  }

  lemma Behind(header: seq<byte>, before: seq<byte>, padded: seq<byte>, after: seq<byte>, x: seq<byte>)
    requires x <= padded
    ensures var img, at := header + (before + (padded + after)), |header| + |before|;
      at + |x| <= |img| && img[at..at + |x|] == x
  {
    var img, at := header + (before + (padded + after)), |header| + |before|;
    assert forall i :: 0 <= i < |x| ==> img[at + i] == padded[i];
  }

  lemma ThreeSections(x: seq<byte>, y: seq<byte>, z: seq<byte>, page: nat)
    requires page > 0
    ensures |Sections([x, y, z], page)| == RoundUp(|x|, page) + RoundUp(|y|, page) + RoundUp(|z|, page)
  {
    hide RoundUp;
    assert [x, y, z][1..] == [y, z] && [y, z][1..] == [z];
    SectionsOfOne(z, page);
  }

  lemma OffsetInPages(a: BootArgs)
    requires a.pagesize > 0
    ensures RecoveryDtboOffset(a) == a.pagesize + RoundUp(|Content(a.kernel)|, a.pagesize)
                                     + RoundUp(|Content(a.ramdisk)|, a.pagesize) + RoundUp(|Content(a.second)|, a.pagesize)
  {
    hide Pages;
  }

  lemma HeaderTakesOnePage(a: BootArgs)
    requires Writable(a) && 0 <= a.version <= 2
    ensures |Padded(PackAll(HeaderFields(a)), a.pagesize)| == a.pagesize
  {
    hide AllFit, HeaderFields, PackAll, Padded, KindsOf, HeaderKinds;
    KindsOfHeader(a);
    PackAllWidth(HeaderFields(a));
    OldHeaderWidth(a.version);
    var n := |PackAll(HeaderFields(a))|;
    ModIs(n + a.pagesize - 1, a.pagesize, 1, n - 1);
  }

  lemma {:induction false} WidthOfConcat(a: seq<Kind>, b: seq<Kind>)
    ensures WidthOf(a + b) == WidthOf(a) + WidthOf(b)
  {
    hide Width;
    if a == [] {
      assert a + b == b;
    } else {
      assert (a + b)[1..] == a[1..] + b;
      WidthOfConcat(a[1..], b);
    }
  }

  /** The header sizes the format names. */
  lemma OldHeaderWidth(version: int)
    requires 0 <= version <= 2
    ensures WidthOf(HeaderKinds(version)) == if version == 2 then HEADER_V2_SIZE else if version == 1 then HEADER_V1_SIZE else 1632
  {
    hide HeaderKinds, WidthOf;
    StartWidth();
    RestWidth();
    TailWidth(version);
    HeaderKindsOld(version);
    WidthOfConcat(START_KINDS, [KI]);
    WidthOfConcat(OLD_REST_KINDS, OldTailKinds(version));
    WidthOfConcat(START_KINDS + [KI], OLD_REST_KINDS + OldTailKinds(version));
  }

  lemma HeaderKindsOld(version: int)
    requires version <= 2
    ensures HeaderKinds(version) == START_KINDS + [KI] + (OLD_REST_KINDS + OldTailKinds(version))
  {
  }

  lemma RestWidth()
    ensures WidthOf([KI]) == 4 && WidthOf(OLD_REST_KINDS) == 1588
  {
    var r := OLD_REST_KINDS;
    assert WidthOf(r[4..]) == EXTRA_ARGS_SIZE + WidthOf(r[4..][1..]);
    assert r[4..][1..] == [] && r[3..][1..] == r[4..] && r[2..][1..] == r[3..];
    assert WidthOf(r[2..]) == ARGS_SIZE + 32 + EXTRA_ARGS_SIZE;
    assert r[1..][1..] == r[2..];
  }

  lemma TailWidth(version: int)
    requires 0 <= version <= 2
    ensures WidthOf(OldTailKinds(version)) == if version == 2 then 28 else if version == 1 then 16 else 0
  {
    var v1, more := [KI, KQ, KI], [KI, KQ];
    assert v1[1..] == [KQ, KI] && [KQ, KI][1..] == [KI] && [KI][1..] == [];
    assert WidthOf(v1) == 16;
    assert more[1..] == [KQ] && [KQ][1..] == [];
    assert WidthOf(more) == 12;
    assert [KI, KQ, KI, KI, KQ] == v1 + more;
    WidthOfConcat(v1, more);
  }
}
