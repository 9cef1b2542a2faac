/** The operating system version and patch level, parsed from text and packed into one word. */
module OsVersion {
  import opened Bits
  import opened Bytes
  import opened Numerals
  import opened Paging

  /** How many digits a text starts with, at most a few. */
  function DigitRun(s: string, most: nat): (n: nat)
    ensures n <= |s| && n <= most && AllDigits(s[..n], 10)
    ensures n < most && n < |s| ==> !IsDigit(s[n], 10)
  {
    if most == 0 || s == "" || !IsDigit(s[0], 10) then 0
    else
      var n := 1 + DigitRun(s[1..], most - 1);
      assert forall i :: 0 <= i < n ==> s[..n][i] == if i == 0 then s[0] else s[1..][..n - 1][i - 1];
      n
  }

  function Decimal(s: string, n: nat): nat
    requires n <= |s| && AllDigits(s[..n], 10)
  {
    Number(s[..n], 10)
  }

  /** A further group of digits behind a point, and how much text it takes. */
  function PointGroup(s: string): (r: (nat, nat))
    ensures r.1 <= |s|
  {
    if s == "" || s[0] != '.' then (0, 0)
    else
      var n := DigitRun(s[1..], 3);
      if n == 0 then (0, 0) else (Decimal(s[1..], n), n + 1)
  }

  /** The three numbers a version text starts with; zeros for a text that is no version. */
  function VersionNumbers(x: string): (nat, nat, nat) {
    var n := DigitRun(x, 3);
    if n == 0 then (0, 0, 0)
    else
      var b := PointGroup(x[n..]);
      var c := if b.1 == 0 then (0, 0) else PointGroup(x[n + b.1..]);
      (Decimal(x, n), b.0, c.0)
  }

  /** Seven bits a number; the assertions fail for more. */
  function ParseOsVersion(x: string): Option<nat> {
    var (a, b, c) := VersionNumbers(x);
    if a < 128 && b < 128 && c < 128 then Some(Or(Or(a * Pow2(14), b * Pow2(7)), c)) else None
  }

  /** A text that starts with a year and a month. */
  function YearAndMonth(x: string): Option<(nat, nat)> {
    if |x| >= 7 && AllDigits(x[..4], 10) && x[4] == '-' && AllDigits(x[5..7], 10)
    then Some((Number(x[..4], 10), Number(x[5..7], 10))) else None
  }

  /** Years from 2000 on in seven bits, the month in four; zero for a text that is no date. */
  function ParsePatchLevel(x: string): Option<nat> {
    match YearAndMonth(x)
    case None => Some(0)
    case Some((year, month)) =>
      if 2000 <= year < 2128 && 0 < month <= 12 then Some(Or((year - 2000) * Pow2(4), month)) else None
  }

  function OsWord(version: nat, patchLevel: nat): nat {
    Or(version * Pow2(11), patchLevel)
  }

  lemma SmallPowers()
    ensures Pow2(4) == 16 && Pow2(7) == 128 && Pow2(11) == 2048 && Pow2(14) == 16384 && Pow2(21) == 2097152
    ensures Pow2(12) == 4096 && Pow2(13) == 8192
  {
    assert Pow2(4) == 16;
    assert Pow2(7) == 8 * Pow2(4);
    assert Pow2(9) == 4 * Pow2(7);
    assert Pow2(11) == 4 * Pow2(9);
    assert Pow2(13) == 4 * Pow2(11);
    assert Pow2(14) == 2 * Pow2(13);
    assert Pow2(17) == 8 * Pow2(14);
    assert Pow2(19) == 4 * Pow2(17);
    assert Pow2(21) == 4 * Pow2(19);
  }

  /** The bit fields add up. */
  lemma VersionBits(a: nat, b: nat, c: nat)
    requires a < 128 && b < 128 && c < 128
    ensures Or(Or(a * Pow2(14), b * Pow2(7)), c) == a * 16384 + b * 128 + c
  {
    hide Pow2, Or;
    SmallPowers();
    assert a * Pow2(14) == (a * 128) * Pow2(7);
    var ab := a * 128 + b;
    OrDisjoint(a, 14, b * Pow2(7));
    assert Or(a * Pow2(14), b * Pow2(7)) == ab * Pow2(7);
    OrDisjoint(ab, 7, c);
  }

  lemma PatchBits(year: nat, month: nat)
    requires 2000 <= year < 2128 && 0 < month <= 12
    ensures Or((year - 2000) * Pow2(4), month) == (year - 2000) * 16 + month
  {
    hide Pow2, Or;
    SmallPowers();
    OrDisjoint(year - 2000, 4, month);
  }

  lemma WordBits(version: nat, patchLevel: nat)
    requires patchLevel < 2048
    ensures OsWord(version, patchLevel) == version * 2048 + patchLevel
  {
    hide Pow2, Or;
    SmallPowers();
    OrDisjoint(version, 11, patchLevel);
  }

  /** Every number can be read off the word again, and the word fits 32 bits. */
  lemma OsWordDecodes(v: string, p: string)
    requires ParseOsVersion(v).Some? && ParsePatchLevel(p).Some?
    ensures var w := OsWord(ParseOsVersion(v).value, ParsePatchLevel(p).value);
      && w < 0x1_0000_0000
      && VersionNumbers(v) == (w / 0x200_0000, w / 0x4_0000 % 128, w / 0x800 % 128)
      && (YearAndMonth(p).None? ==> w % 0x800 == 0)
      && (YearAndMonth(p).Some? ==> YearAndMonth(p).value == (2000 + w % 0x800 / 16, w % 16) && w % 0x800 > 0)
  {
    hide VersionNumbers, YearAndMonth, OsWord, ParseOsVersion, ParsePatchLevel;
    var (a, b, c) := VersionNumbers(v);
    var level := ParsePatchLevel(p).value;
    VersionValue(v);
    LevelValue(p);
    WordBits(ParseOsVersion(v).value, level);
    WordFields(a, b, c, level);
  }

  lemma VersionValue(v: string)
    requires ParseOsVersion(v).Some?
    ensures var (a, b, c) := VersionNumbers(v);
      a < 128 && b < 128 && c < 128 && ParseOsVersion(v).value == a * 16384 + b * 128 + c
  {
    hide VersionNumbers, Or, Pow2;
    var (a, b, c) := VersionNumbers(v);
    VersionBits(a, b, c);
  }

  lemma LevelValue(p: string)
    requires ParsePatchLevel(p).Some?
    ensures var level := ParsePatchLevel(p).value;
      && level < 2048
      && (YearAndMonth(p).None? ==> level == 0)
      && (YearAndMonth(p).Some? ==> YearAndMonth(p).value == (2000 + level / 16, level % 16) && level > 0)
  {
    hide YearAndMonth, Or, Pow2;
    if YearAndMonth(p).Some? {
      var (year, month) := YearAndMonth(p).value;
      PatchBits(year, month);
    }
  }

  lemma WordFields(a: nat, b: nat, c: nat, level: nat)
    requires a < 128 && b < 128 && c < 128 && level < 2048
    ensures var w := (a * 16384 + b * 128 + c) * 2048 + level;
      w < 0x1_0000_0000 && w / 0x200_0000 == a && w / 0x4_0000 % 128 == b && w / 0x800 % 128 == c && w % 0x800 == level
  {
  }
}
