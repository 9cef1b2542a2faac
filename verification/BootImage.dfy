/** The Android boot image: the writer, and a reader that finds everything from the header alone. */
module BootImage {
  import opened Bits
  import opened Bytes
  import opened OsVersion
  import opened Paging
  import opened Struct

  const MAGIC: seq<byte> := [0x41, 0x4E, 0x44, 0x52, 0x4F, 0x49, 0x44, 0x21]
  const NAME_SIZE: nat := 16
  const ARGS_SIZE: nat := 512
  const EXTRA_ARGS_SIZE: nat := 1024
  const HEADER_V1_SIZE: nat := 1648
  const HEADER_V2_SIZE: nat := 1660
  const HEADER_V3_SIZE: nat := 1580
  const HEADER_V4_SIZE: nat := 1584
  const V3_PAGESIZE: nat := 4096
  const V4_SIGNATURE_SIZE: nat := 4096

  /** Board and command line are given without their NUL; the signature of version 4 is None where
      no signing key is given. */
  datatype BootArgs = BootArgs(
    version: int, pagesize: nat,
    kernel: Option<seq<byte>>, ramdisk: Option<seq<byte>>, second: Option<seq<byte>>,
    recoveryDtbo: Option<seq<byte>>, dtb: Option<seq<byte>>, signature: Option<seq<byte>>,
    base: int, kernelOffset: int, ramdiskOffset: int, secondOffset: int, dtbOffset: int, tagsOffset: int,
    osVersion: nat, osPatchLevel: nat, board: seq<byte>, cmdline: seq<byte>, digest: seq<byte>)

  function FileSize(file: Option<seq<byte>>): nat {
    |Content(file)|
  }

  predicate PageSizeOffered(pagesize: nat) {
    pagesize == 2048 || pagesize == 4096 || pagesize == 8192 || pagesize == 16384
  }

  /** The exponent of a page size that is offered. */
  function Exponent(pagesize: nat): (k: nat)
    requires PageSizeOffered(pagesize)
    ensures Pow2(k) == pagesize
  {
    SmallPowers();
    assert Pow2(14) == 16384;
    if pagesize == 2048 then 11 else if pagesize == 4096 then 12 else if pagesize == 8192 then 13 else 14
  }

  // ----- the command line

  /** Up to version 2 the command line takes two fields; each ends in a NUL. */
  function SplitCommandLine(full: seq<byte>): (r: (seq<byte>, seq<byte>))
  {
    var n := if |full| < ARGS_SIZE - 1 then |full| else ARGS_SIZE - 1;
    (full[..n] + [0], full[n..])
  }

  /** What a boot loader sees: both fields up to their NUL, one behind the other. */
  function JoinCommandLine(cmdline: seq<byte>, extra: seq<byte>): seq<byte> {
    UpToNul(cmdline) + UpToNul(extra)
  }

  /** Splitting and joining gives every command line back that is accepted. */
  lemma CommandLineSurvives(text: seq<byte>)
    requires 0 !in text && |text| + 1 <= ARGS_SIZE + EXTRA_ARGS_SIZE - 1
    ensures var (cmdline, extra) := SplitCommandLine(text + [0]);
      && |cmdline| <= ARGS_SIZE && |extra| <= EXTRA_ARGS_SIZE
      && JoinCommandLine(FitText(ARGS_SIZE, cmdline), FitText(EXTRA_ARGS_SIZE, extra)) == text
  {
    hide UpToNul, FitText;
    var (cmdline, extra) := SplitCommandLine(text + [0]);
    if |text| < ARGS_SIZE - 1 {
      CommandLineShort(text);
    } else {
      var head, tail := text[..ARGS_SIZE - 1], text[ARGS_SIZE - 1..];
      assert text == head + tail;
      assert cmdline == head + [0] && extra == tail + [0];
      TextRoundTrip(ARGS_SIZE, head);
      TextRoundTrip(EXTRA_ARGS_SIZE, tail);
    }
  }

  lemma CommandLineShort(text: seq<byte>)
    requires 0 !in text && |text| < ARGS_SIZE - 1
    ensures var (cmdline, extra) := SplitCommandLine(text + [0]);
      && |cmdline| <= ARGS_SIZE && extra == []
      && JoinCommandLine(FitText(ARGS_SIZE, cmdline), FitText(EXTRA_ARGS_SIZE, extra)) == text
  {
    hide UpToNul;
    var (cmdline, extra) := SplitCommandLine(text + [0]);
    assert cmdline == (text + [0]) + [0];
    assert FitText(ARGS_SIZE, cmdline) == text + ([0] + Zeros(ARGS_SIZE - |text| - 1));
    UpToNulOfText(text, [0] + Zeros(ARGS_SIZE - |text| - 1));
    UpToNulOfText([], FitText(EXTRA_ARGS_SIZE, extra));
    assert [] + FitText(EXTRA_ARGS_SIZE, extra) == FitText(EXTRA_ARGS_SIZE, extra);
    assert text + [] == text;
  }

  // ----- the header

  /** Where the recovery image will be, computed before anything is written. */
  function RecoveryDtboOffset(a: BootArgs): nat
    requires a.pagesize > 0
  {
    a.pagesize * (1 + Pages(FileSize(a.kernel), a.pagesize) + Pages(FileSize(a.ramdisk), a.pagesize) + Pages(FileSize(a.second), a.pagesize))
  }

  function OldStart(a: BootArgs): seq<Field> {
    [S(8, MAGIC), I(FileSize(a.kernel)), I(a.base + a.kernelOffset), I(FileSize(a.ramdisk)),
     I(if FileSize(a.ramdisk) > 0 then a.base + a.ramdiskOffset else 0), I(FileSize(a.second)),
     I(if FileSize(a.second) > 0 then a.base + a.secondOffset else 0), I(a.base + a.tagsOffset), I(a.pagesize)]
  }

  function OldRest(a: BootArgs): seq<Field> {
    var (cmdline, extra) := SplitCommandLine(a.cmdline + [0]);
    [I(OsWord(a.osVersion, a.osPatchLevel)), S(NAME_SIZE, a.board + [0]), S(ARGS_SIZE, cmdline), S(32, a.digest),
     S(EXTRA_ARGS_SIZE, extra)]
  }

  function RecoveryFields(a: BootArgs): seq<Field>
    requires a.pagesize > 0
  {
    if a.version <= 0 then []
    else if a.recoveryDtbo.Some? then [I(FileSize(a.recoveryDtbo)), Q(RecoveryDtboOffset(a))] else [I(0), Q(0)]
  }

  function HeaderSizeField(a: BootArgs): seq<Field> {
    if a.version == 1 then [I(HEADER_V1_SIZE)] else if a.version == 2 then [I(HEADER_V2_SIZE)] else []
  }

  function DtbFields(a: BootArgs): seq<Field> {
    if a.version > 1 then [I(FileSize(a.dtb)), Q(a.base + a.dtbOffset)] else []
  }

  function OldFields(a: BootArgs): seq<Field>
    requires a.pagesize > 0
  {
    OldStart(a) + [I(a.version)] + (OldRest(a) + (RecoveryFields(a) + HeaderSizeField(a) + DtbFields(a)))
  }

  function NewStart(a: BootArgs): seq<Field> {
    [S(8, MAGIC), I(FileSize(a.kernel)), I(FileSize(a.ramdisk)), I(OsWord(a.osVersion, a.osPatchLevel)),
     I(if a.version > 3 then HEADER_V4_SIZE else HEADER_V3_SIZE), I(0), I(0), I(0), I(0)]
  }

  function NewRest(a: BootArgs): seq<Field> {
    [S(ARGS_SIZE + EXTRA_ARGS_SIZE, a.cmdline + [0])] + if a.version >= 4 then [I(V4_SIGNATURE_SIZE)] else []
  }

  function NewFields(a: BootArgs): seq<Field> {
    NewStart(a) + [I(a.version)] + NewRest(a)
  }

  predicate IsNew(version: int) {
    version == 3 || version == 4
  }

  function HeaderFields(a: BootArgs): seq<Field>
    requires a.pagesize > 0
  {
    if IsNew(a.version) then NewFields(a) else OldFields(a)
  }

  function PageOf(a: BootArgs): nat {
    if a.version > 2 then V3_PAGESIZE else a.pagesize
  }

  // ----- what is accepted

  /** What the command line parser checks. */
  predicate Parsed(a: BootArgs) {
    && PageSizeOffered(a.pagesize)
    && |a.board| + 1 <= NAME_SIZE
    && |a.cmdline| + 1 <= (if a.version < 3 then ARGS_SIZE + EXTRA_ARGS_SIZE - 1 else ARGS_SIZE + EXTRA_ARGS_SIZE)
  }

  /** The arguments an image is made of: nothing that the chosen version has no place for, no number
      too large for its field, no missing device tree in version 2. */
  predicate Writable(a: BootArgs) {
    && Parsed(a) && a.version <= 4
    && (a.version > 2 ==> a.second.None?)
    && AllFit(HeaderFields(a))
    && (a.version == 2 ==> FileSize(a.dtb) > 0)
    && (a.version == 4 ==> FileSize(a.signature) <= V4_SIGNATURE_SIZE)
  }

  function SignatureFile(a: BootArgs): Option<seq<byte>> {
    if a.signature.None? then Some(Zeros(V4_SIGNATURE_SIZE)) else a.signature
  }

  function Files(a: BootArgs): seq<seq<byte>> {
    if a.version >= 4 then [Content(a.kernel), Content(a.ramdisk), Content(SignatureFile(a))]
    else if a.version >= 3 then [Content(a.kernel), Content(a.ramdisk)]
    else if a.version == 2 then [Content(a.kernel), Content(a.ramdisk), Content(a.second), Content(a.recoveryDtbo), Content(a.dtb)]
    else if a.version == 1 then [Content(a.kernel), Content(a.ramdisk), Content(a.second), Content(a.recoveryDtbo)]
    else [Content(a.kernel), Content(a.ramdisk), Content(a.second)]
  }

  /** The image: the header and every file, each from a page boundary on. */
  function Image(a: BootArgs): seq<byte>
    requires Writable(a)
  {
    Padded(PackAll(HeaderFields(a)), PageOf(a)) + Sections(Files(a), PageOf(a))
  }

  // ----- the writer

  method WriteHeaderV3AndAbove(out: OutputFile, a: BootArgs) returns (ok: bool)
    requires IsNew(a.version) && out.data == []
    modifies out
    ensures ok <==> AllFit(NewFields(a))
    ensures ok ==> out.data == Padded(PackAll(NewFields(a)), V3_PAGESIZE)
  {
    hide NewStart, NewRest, AllFit;
    ok := out.WriteFields(NewFields(a));
    if ok {
      SmallPowers();
      assert [] + PackAll(NewFields(a)) == PackAll(NewFields(a));
      PadFile(out, V3_PAGESIZE, 12);
    }
  }

  /** The fields of the first versions as they are written: the common ones, those of version 1 and
      above, those of version 2. */
  lemma OldFieldsInOrder(a: BootArgs)
    requires a.pagesize > 0
    ensures var x, y, z := OldStart(a) + [I(a.version)] + OldRest(a), RecoveryFields(a) + HeaderSizeField(a), DtbFields(a);
      && (AllFit(OldFields(a)) <==> AllFit(x) && AllFit(y) && AllFit(z))
      && (AllFit(OldFields(a)) ==> PackAll(OldFields(a)) == PackAll(x) + PackAll(y) + PackAll(z))
  {
    hide OldStart, OldRest, RecoveryFields, HeaderSizeField, DtbFields, AllFit;
    var x, y, z := OldStart(a) + [I(a.version)] + OldRest(a), RecoveryFields(a) + HeaderSizeField(a), DtbFields(a);
    assert OldFields(a) == x + y + z;
    AllFitConcat(x, y);
    AllFitConcat(x + y, z);
    if AllFit(OldFields(a)) {
      PackAllConcat(x, y);
      PackAllConcat(x + y, z);
    }
  }

  method WriteHeader(out: OutputFile, a: BootArgs) returns (ok: bool)
    requires PageSizeOffered(a.pagesize) && out.data == []
    modifies out
    ensures ok <==> a.version <= 4 && AllFit(HeaderFields(a)) && (a.version == 2 ==> FileSize(a.dtb) > 0)
    ensures ok ==> out.data == Padded(PackAll(HeaderFields(a)), PageOf(a))
  {
    hide OldStart, OldRest, RecoveryFields, HeaderSizeField, DtbFields, AllFit, NewFields, OldFields, PackAll, Padded, Pow2;
    if a.version > 4 {
      return false;
    }
    if a.version == 3 || a.version == 4 {
      ok := WriteHeaderV3AndAbove(out, a);
      return;
    }
    OldFieldsInOrder(a);
    ok := out.WriteFields(OldStart(a) + [I(a.version)] + OldRest(a));
    if !ok {
      return;
    }
    ok := out.WriteFields(RecoveryFields(a) + HeaderSizeField(a));
    if !ok {
      return;
    }
    if a.version > 1 {
      if FileSize(a.dtb) == 0 {
        return false;
      }
    }
    ok := out.WriteFields(DtbFields(a));
    if ok {
      assert out.data == PackAll(OldFields(a)) by {
        assert [] + PackAll(OldStart(a) + [I(a.version)] + OldRest(a)) == PackAll(OldStart(a) + [I(a.version)] + OldRest(a));
      }
      PadFile(out, a.pagesize, Exponent(a.pagesize));
    }
  }

  /** Zeros stand in for the signature where there is none. */
  method AddBootImageSignature(out: OutputFile, a: BootArgs) returns (ok: bool)
    requires Paged(out.data, V3_PAGESIZE)
    modifies out
    ensures ok <==> FileSize(a.signature) <= V4_SIGNATURE_SIZE
    ensures ok ==> out.data == old(out.data) + Padded(Content(SignatureFile(a)), V3_PAGESIZE)
  {
    hide Padded, RoundUp, Pow2;
    SmallPowers();
    if a.signature.None? {
      WritePaddedFile(out, Some(Zeros(V4_SIGNATURE_SIZE)), V3_PAGESIZE, 12);
      return true;
    }
    if FileSize(a.signature) > V4_SIGNATURE_SIZE {
      return false;
    }
    WritePaddedFile(out, a.signature, V3_PAGESIZE, 12);
    ok := true;
  }

  /** One more section behind those before. */
  lemma OneMoreSection(before: seq<byte>, files: seq<seq<byte>>, x: seq<byte>, more: seq<seq<byte>>, page: nat)
    requires page > 0 && more == files + [x]
    ensures before + Sections(files, page) + Padded(x, page) == before + Sections(more, page)
    ensures Padded([], page) == [] && before + Sections(files, page) + [] == before + Sections(files, page)
  {
    hide Padded, Sections;
    PaddedIsPaged([], page);
    SectionsConcat(files, [x], page);
    SectionsOfOne(x, page);
  }

  method WriteData(out: OutputFile, a: BootArgs) returns (ok: bool)
    requires PageSizeOffered(a.pagesize) && Paged(out.data, PageOf(a)) && a.version <= 4
    requires a.version > 2 ==> a.second.None?
    modifies out
    ensures ok <==> (a.version == 4 ==> FileSize(a.signature) <= V4_SIGNATURE_SIZE)
    ensures ok ==> out.data == old(out.data) + Sections(Files(a), PageOf(a))
  {
    hide Padded, RoundUp, Pow2, Sections, Paged, Zeros;
    var page := PageOf(a);
    ghost var k := Exponent(page);
    ghost var before := out.data;
    var kernel, ramdisk, second := Content(a.kernel), Content(a.ramdisk), Content(a.second);
    WritePaddedFile(out, a.kernel, page, k);
    SectionsOfOne(kernel, page);
    WritePaddedFile(out, a.ramdisk, page, k);
    OneMoreSection(before, [kernel], ramdisk, [kernel, ramdisk], page);
    WritePaddedFile(out, a.second, page, k);
    OneMoreSection(before, [kernel, ramdisk], second, [kernel, ramdisk, second], page);
    assert out.data == if a.version > 2 then before + Sections([kernel, ramdisk], page)
                       else before + Sections([kernel, ramdisk, second], page);
    if a.version > 0 && a.version < 3 {
      WritePaddedFile(out, a.recoveryDtbo, page, k);
      OneMoreSection(before, [kernel, ramdisk, second], Content(a.recoveryDtbo),
                     [kernel, ramdisk, second, Content(a.recoveryDtbo)], page);
    }
    if a.version == 2 {
      WritePaddedFile(out, a.dtb, page, k);
      OneMoreSection(before, [kernel, ramdisk, second, Content(a.recoveryDtbo)], Content(a.dtb), Files(a), page);
    }
    ok := true;
    if a.version >= 4 {
      ok := AddBootImageSignature(out, a);
      OneMoreSection(before, [kernel, ramdisk], Content(SignatureFile(a)), Files(a), page);
    }
  }

  /** The whole image, or a refusal exactly where the arguments allow none. */
  method MakeBootImage(out: OutputFile, a: BootArgs) returns (ok: bool)
    requires out.data == []
    modifies out
    ensures ok <==> Writable(a)
    ensures ok ==> out.data == Image(a)
  {
    hide HeaderFields, Padded, RoundUp, AllFit, Sections, PackAll, Pow2, Paged, Files;
    if !Parsed(a) {
      return false;
    }
    if a.second.Some? && a.version > 2 {
      return false;
    }
    ok := WriteHeader(out, a);
    if !ok {
      return;
    }
    PaddedIsPaged(PackAll(HeaderFields(a)), PageOf(a));
    ok := WriteData(out, a);
  }
}
