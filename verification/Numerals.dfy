/** Decimal numerals, and hexadecimal ones behind 0x or 0X. */
module Numerals {
  import opened Bytes

  const MAX_UINT64: nat := 0xFFFF_FFFF_FFFF_FFFF
  const MAX_UINT32: nat := 0xFFFF_FFFF

  function Digit(c: char): Option<nat> {
    if '0' <= c <= '9' then Some(c as int - '0' as int)
    else if 'a' <= c <= 'f' then Some(c as int - 'a' as int + 10)
    else if 'A' <= c <= 'F' then Some(c as int - 'A' as int + 10)
    else None
  }

  predicate IsDigit(c: char, radix: nat) {
    Digit(c).Some? && Digit(c).value < radix
  }

  predicate Prefixed(text: string) {
    |text| >= 2 && text[0] == '0' && (text[1] == 'x' || text[1] == 'X')
  }

  function Radix(text: string): nat {
    if Prefixed(text) then 16 else 10
  }

  function Digits(text: string): string {
    if Prefixed(text) then text[2..] else text
  }

  predicate AllDigits(ds: string, radix: nat) {
    forall i :: 0 <= i < |ds| ==> IsDigit(ds[i], radix)
  }

  predicate IsNumeral(text: string) {
    Digits(text) != "" && AllDigits(Digits(text), Radix(text))
  }

  /** The number that digits stand for, the last one counting least. */
  function Number(ds: string, radix: nat): nat
    requires AllDigits(ds, radix)
  {
    if ds == "" then 0 else Number(ds[..|ds| - 1], radix) * radix + Digit(ds[|ds| - 1]).value
  }

  function NumeralValue(text: string): nat
    requires IsNumeral(text)
  {
    Number(Digits(text), Radix(text))
  }

  /** One more digit. */
  lemma NumberStep(ds: string, radix: nat, i: nat)
    requires i < |ds| && AllDigits(ds[..i], radix) && IsDigit(ds[i], radix)
    ensures AllDigits(ds[..i + 1], radix)
    ensures Number(ds[..i + 1], radix) == Number(ds[..i], radix) * radix + Digit(ds[i]).value
  {
    assert ds[..i + 1][..i] == ds[..i];
    assert forall j :: 0 <= j <= i ==> ds[..i + 1][j] == if j < i then ds[..i][j] else ds[i];
  }

  /** More digits never make a number smaller. */
  lemma {:induction false} NumberGrows(ds: string, radix: nat, i: nat)
    requires i <= |ds| && AllDigits(ds, radix) && radix > 0
    ensures Number(ds[..i], radix) <= Number(ds, radix)
    decreases |ds|
  {
    if i < |ds| {
      var shorter := ds[..|ds| - 1];
      NumberGrows(shorter, radix, i);
      assert shorter[..i] == ds[..i];
      Scaled(Number(shorter, radix), radix);
    } else {
      assert ds[..i] == ds;
    }
  }

  lemma Scaled(n: nat, radix: nat)
    requires radix > 0
    ensures n <= n * radix
  {
  }

  /** The division before multiplying rejects exactly the digit that would overflow. */
  lemma GuardIsExact(n: nat, radix: nat, digit: nat)
    requires (radix == 10 || radix == 16) && digit < radix
    ensures n > (MAX_UINT64 - digit) / radix <==> n * radix + digit > MAX_UINT64
  {
    if radix == 10 {
    } else {
    }
  }

  /** The number in a buffer that holds a text and its NUL; None where the text is no numeral or its
      number needs more than 64 bits. */
  method ParseUint64(buffer: array<char>, ghost text: string) returns (value: Option<uint64>)
    requires |text| < buffer.Length && buffer[..|text|] == text && buffer[|text|] == '\0' && '\0' !in text
    ensures value.Some? <==> IsNumeral(text) && NumeralValue(text) <= MAX_UINT64
    ensures value.Some? ==> value.value == NumeralValue(text)
  {
    hide Number, Digit, AllDigits;
    assert forall i :: 0 <= i < |text| ==> buffer[i] == text[i] && text[i] != '\0';
    var start: nat, radix: nat := 0, 10;
    if buffer[0] == '0' && (buffer[1] == 'x' || buffer[1] == 'X') {
      start, radix := 2, 16;
    }
    ghost var ds := Digits(text);
    assert radix == Radix(text) && ds == text[start..];
    if buffer[start] == '\0' {
      return None;
    }
    NumberOfNothing(ds, radix);
    var parsed: uint64 := 0;
    var index := start;
    while buffer[index] != '\0'
      invariant start <= index <= |text|
      invariant AllDigits(ds[..index - start], radix)
      invariant parsed == Number(ds[..index - start], radix)
      decreases |text| - index
    {
      var c := buffer[index];
      assert c == ds[index - start];
      var digit := DigitOf(c, radix);
      if digit.None? {
        NotADigit(ds, radix, index - start);
        return None;
      }
      NumberStep(ds, radix, index - start);
      GuardIsExact(parsed, radix, digit.value);
      if parsed > (MAX_UINT64 - digit.value) / radix {
        TooLarge(ds, radix, index - start + 1);
        return None;
      }
      parsed := parsed * radix + digit.value;
      index := index + 1;
    }
    assert ds[..|ds|] == ds;
    value := Some(parsed);
  }

  /** The choice of digit in the source: letters only count in base 16. */
  method DigitOf(c: char, radix: nat) returns (digit: Option<nat>)
    requires radix == 10 || radix == 16
    ensures digit == if IsDigit(c, radix) then Digit(c) else None
  {
    if '0' <= c <= '9' {
      digit := Some(c as int - '0' as int);
    } else if radix == 16 && 'a' <= c <= 'f' {
      digit := Some(c as int - 'a' as int + 10);
    } else if radix == 16 && 'A' <= c <= 'F' {
      digit := Some(c as int - 'A' as int + 10);
    } else {
      digit := None;
    }
  }

  lemma NumberOfNothing(ds: string, radix: nat)
    ensures AllDigits(ds[..0], radix) && Number(ds[..0], radix) == 0
  {
  }

  lemma NotADigit(ds: string, radix: nat, i: nat)
    requires i < |ds| && !IsDigit(ds[i], radix)
    ensures !AllDigits(ds, radix)
  {
  }

  lemma TooLarge(ds: string, radix: nat, i: nat)
    requires i <= |ds| && radix > 0 && AllDigits(ds[..i], radix) && Number(ds[..i], radix) > MAX_UINT64
    ensures AllDigits(ds, radix) ==> Number(ds, radix) > MAX_UINT64
  {
    if AllDigits(ds, radix) {
      NumberGrows(ds, radix, i);
    }
  }
}
