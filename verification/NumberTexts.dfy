/** Numbers as they are written, and that they are read as that: numerals, versions and dates. */
module NumberTexts {
  import opened Bits
  import opened Bytes
  import opened Numerals
  import opened OsVersion

  const LOWER: string := "0123456789abcdef"
  const UPPER: string := "0123456789ABCDEF"

  /** A number in base 10 or 16, without zeros in front. */
  function Written(n: nat, radix: nat): (s: string)
    requires radix == 10 || radix == 16
    ensures |s| > 0
  {
    if n < radix then [LOWER[n]] else Written(n / radix, radix) + [LOWER[n % radix]]
  }

  /** The digits and what they stand for. */
  lemma DigitIs(c: char, d: nat)
    ensures Digit(c) == Some(d) <==> d < 16 && (c == LOWER[d] || c == UPPER[d])
  {
  }

  lemma OneDigit(d: nat, radix: nat)
    requires d < radix && (radix == 10 || radix == 16)
    ensures AllDigits([LOWER[d]], radix) && Number([LOWER[d]], radix) == d
  {
    DigitIs(LOWER[d], d);
    assert [LOWER[d]][..0] == [];
  }

  /** A written number is read as itself. */
  lemma {:induction false} WrittenIsRead(n: nat, radix: nat)
    requires radix == 10 || radix == 16
    ensures AllDigits(Written(n, radix), radix) && Number(Written(n, radix), radix) == n
  {
    hide Digit;
    if n < radix {
      OneDigit(n, radix);
    } else {
      var s, front := Written(n, radix), Written(n / radix, radix);
      WrittenIsRead(n / radix, radix);
      DigitIs(LOWER[n % radix], n % radix);
      assert s[..|s| - 1] == front;
      DivMod(n, radix);
    }
  }

  /** Every number in decimal, or in hexadecimal behind 0x or 0X, is a numeral with that value. */
  lemma NumeralIsRead(n: nat)
    ensures IsNumeral(Written(n, 10)) && NumeralValue(Written(n, 10)) == n
    ensures forall x :: x == 'x' || x == 'X' ==>
              IsNumeral(['0', x] + Written(n, 16)) && NumeralValue(['0', x] + Written(n, 16)) == n
  {
    hide Digit, Number, Written;
    WrittenIsRead(n, 10);
    WrittenIsRead(n, 16);
    NotPrefixed(Written(n, 10));
    forall x | x == 'x' || x == 'X'
      ensures Digits(['0', x] + Written(n, 16)) == Written(n, 16) && Radix(['0', x] + Written(n, 16)) == 16
    {
      assert (['0', x] + Written(n, 16))[2..] == Written(n, 16);
    }
  }

  lemma NotPrefixed(ds: string)
    requires AllDigits(ds, 10)
    ensures !Prefixed(ds)
  {
    if |ds| >= 2 {
      assert IsDigit(ds[1], 10);
    }
  }

  // ----- versions and dates

  /** Up to three digits at the start of a text are taken, whatever comes behind that is no digit. */
  lemma {:induction false} RunOf(ds: string, rest: string, most: nat)
    requires |ds| <= most && AllDigits(ds, 10) && (rest != "" ==> !IsDigit(rest[0], 10))
    ensures DigitRun(ds + rest, most) == |ds| && (ds + rest)[..|ds|] == ds && (ds + rest)[|ds|..] == rest
    decreases |ds|
  {
    hide Digit;
    if ds == "" {
      assert ds + rest == rest;
    } else {
      assert IsDigit(ds[0], 10);
      assert (ds + rest)[0] == ds[0] && (ds + rest)[1..] == ds[1..] + rest;
      RunOf(ds[1..], rest, most - 1);
    }
  }

  lemma ShortNumber(n: nat)
    requires n < 1000
    ensures |Written(n, 10)| <= 3 && (n < 10 ==> |Written(n, 10)| == 1)
  {
    assert n / 10 < 100 && n / 10 / 10 < 10;
    assert |Written(n / 10 / 10, 10)| == 1;
    assert |Written(n / 10, 10)| <= 2;
  }

  /** A group of digits behind a point. */
  lemma GroupIs(n: nat, rest: string)
    requires n < 1000 && (rest != "" ==> !IsDigit(rest[0], 10))
    ensures var s := "." + Written(n, 10) + rest;
      PointGroup(s) == (n, 1 + |Written(n, 10)|) && s[1 + |Written(n, 10)|..] == rest
  {
    hide Digit, Number, Written, DigitRun;
    var ds := Written(n, 10);
    var s := "." + ds + rest;
    assert s[1..] == ds + rest;
    WrittenIsRead(n, 10);
    ShortNumber(n);
    RunOf(ds, rest, 3);
  }

  lemma Points(s: string)
    ensures s != "" && s[0] == '.' ==> !IsDigit(s[0], 10)
    ensures PointGroup("") == (0, 0)
  {
  }

  /** One to three numbers of up to three digits, with points between them, are a version. */
  lemma VersionIsRead(a: nat, b: nat, c: nat)
    requires a < 1000 && b < 1000 && c < 1000
    ensures VersionNumbers(Written(a, 10)) == (a, 0, 0)
    ensures VersionNumbers(Written(a, 10) + "." + Written(b, 10)) == (a, b, 0)
    ensures VersionNumbers(Written(a, 10) + "." + Written(b, 10) + "." + Written(c, 10)) == (a, b, c)
  {
    hide Written, VersionNumbers;
    var x, second, third := Written(a, 10), "." + Written(b, 10), "." + Written(c, 10);
    OneNumber(a);
    TwoNumbers(a, b, "");
    GroupIs(c, "");
    assert third + "" == third;
    TwoNumbers(a, b, third);
    assert x + "." + Written(b, 10) == x + (second + "");
    assert x + "." + Written(b, 10) + "." + Written(c, 10) == x + (second + third);
  }

  lemma OneNumber(a: nat)
    requires a < 1000
    ensures VersionNumbers(Written(a, 10)) == (a, 0, 0)
  {
    hide Written, DigitRun, Decimal, PointGroup;
    assert Written(a, 10) + "" == Written(a, 10);
    FirstNumber(a, "");
    Points("");
  }

  /** Two numbers of a version, and what is read behind them. */
  lemma TwoNumbers(a: nat, b: nat, rest: string)
    requires a < 1000 && b < 1000 && (rest != "" ==> rest[0] == '.')
    ensures VersionNumbers(Written(a, 10) + ("." + Written(b, 10) + rest)) == (a, b, PointGroup(rest).0)
  {
    hide Written, DigitRun, Decimal, PointGroup;
    var x, second := Written(a, 10), "." + Written(b, 10);
    FirstNumber(a, second + rest);
    Points(rest);
    GroupIs(b, rest);
    assert (x + (second + rest))[|x| + |second|..] == rest;
  }

  /** The first number of a version, with a point or nothing behind it. */
  lemma FirstNumber(a: nat, rest: string)
    requires a < 1000 && (rest != "" ==> rest[0] == '.')
    ensures var x := Written(a, 10) + rest;
      DigitRun(x, 3) == |Written(a, 10)| && Decimal(x, |Written(a, 10)|) == a && x[|Written(a, 10)|..] == rest
  {
    hide Digit, Number, Written, DigitRun;
    Points(rest);
    WrittenIsRead(a, 10);
    ShortNumber(a);
    RunOf(Written(a, 10), rest, 3);
  }

  /** A year of four digits and a month of two are a date. */
  lemma DateIsRead(year: nat, month: nat, rest: string)
    requires 1000 <= year < 10000 && month < 100
    ensures YearAndMonth(Written(year, 10) + "-" + Written(month / 10, 10) + Written(month % 10, 10) + rest) == Some((year, month))
  {
    hide Digit, Written, Number;
    var y, m := Written(year, 10), Written(month / 10, 10) + Written(month % 10, 10);
    var x := y + "-" + Written(month / 10, 10) + Written(month % 10, 10) + rest;
    WrittenIsRead(year, 10);
    YearLength(year);
    TwoDigits(month);
    assert x == y + "-" + m + rest;
    assert x[..4] == y && x[4] == '-' && x[5..7] == m;
  }

  lemma YearLength(year: nat)
    requires 1000 <= year < 10000
    ensures |Written(year, 10)| == 4
  {
    assert |Written(year / 10 / 10, 10)| == 2;
  }

  lemma TwoDigits(month: nat)
    requires month < 100
    ensures var m := Written(month / 10, 10) + Written(month % 10, 10);
      |m| == 2 && AllDigits(m, 10) && Number(m, 10) == month
  {
    hide Digit;
    var m := Written(month / 10, 10) + Written(month % 10, 10);
    WrittenIsRead(month / 10, 10);
    WrittenIsRead(month % 10, 10);
    ShortNumber(month / 10);
    ShortNumber(month % 10);
    assert m[..1] == Written(month / 10, 10);
    NumberStep(m, 10, 1);
    assert m[..2] == m;
    DigitOfOne(month % 10);
  }

  lemma DigitOfOne(d: nat)
    requires d < 10
    ensures |Written(d, 10)| == 1 && Digit(Written(d, 10)[0]) == Some(d)
  {
    DigitIs(LOWER[d], d);
  }
}
