/** Fixed-width numerals, decimal and hexadecimal. */
module Numerals {
  import opened Prelude

  datatype Base = Decimal | Hex {
    function Times(n: int): int {
      match this case Decimal => 10 * n case Hex => 16 * n
    }

    function Div(n: int): int {
      match this case Decimal => n / 10 case Hex => n / 16
    }

    function Mod(n: int): int {
      match this case Decimal => n % 10 case Hex => n % 16
    }
  }

  function DigitChar(d: int): char
    requires 0 <= d < 16
  {
    if d < 10 then '0' + d as char else 'a' + (d - 10) as char
  }

  function DigitValue(c: char, base: Base): Option<int> {
    if '0' <= c <= '9' then Some(c as int - '0' as int)
    else if base.Hex? && 'a' <= c <= 'f' then Some(c as int - 'a' as int + 10)
    else None
  }

  const DIGITS := "0123456789abcdef"

  /** The digits are the usual ones, in both directions. */
  lemma DigitTable(d: int)
    requires 0 <= d < 16
    ensures DigitChar(d) == DIGITS[d]
    ensures DigitValue(DIGITS[d], Hex) == Some(d)
    ensures d < 10 ==> DigitValue(DIGITS[d], Decimal) == Some(d)
  {
  }

  /** Characters that JSON.stringify writes as they are, each one byte in UTF-8. */
  predicate IsPlain(s: string) {
    forall i :: 0 <= i < |s| ==> IsPlainChar(s[i])
  }

  predicate IsPlainChar(c: char) {
    32 <= c as int < 128 && c != '"' && c != '\\'
  }

  /** The last `width` digits of `n`, with leading zeros. */
  function Write(n: nat, base: Base, width: nat): (s: string)
    ensures |s| == width
    ensures IsPlain(s)
  {
    if width == 0 then "" else Write(base.Div(n), base, width - 1) + [DigitChar(base.Mod(n))]
  }

  function Read(s: string, base: Base): (n: Option<nat>) {
    if s == "" then Some(0) else
      var high := Read(s[..|s| - 1], base);
      var low := DigitValue(s[|s| - 1], base);
      if high.None? || low.None? then None else Some(base.Times(high.value) + low.value)
  }

  function Pow(base: Base, n: nat): nat {
    if n == 0 then 1 else base.Times(Pow(base, n - 1))
  }

  lemma DecimalPowers()
    ensures Pow(Decimal, 2) == 100 && Pow(Decimal, 3) == 1000
    ensures Pow(Decimal, 4) == 10_000 && Pow(Decimal, 6) == 1_000_000
  {
    assert Pow(Decimal, 2) == 10 * Pow(Decimal, 1);
    assert Pow(Decimal, 4) == 10 * Pow(Decimal, 3);
    assert Pow(Decimal, 6) == 10 * Pow(Decimal, 5);
  }

  lemma DigitRoundTrip(n: nat, base: Base)
    ensures 0 <= base.Mod(n) < base.Times(1) <= 16
    ensures DigitValue(DigitChar(base.Mod(n)), base) == Some(base.Mod(n))
    ensures base.Times(base.Div(n)) + base.Mod(n) == n
  {
  }

  lemma {:induction false} ReadWrite(n: nat, base: Base, width: nat)
    requires n < Pow(base, width)
    ensures Read(Write(n, base, width), base) == Some(n)
  {
    if width > 0 {
      var s := Write(n, base, width);
      DigitRoundTrip(n, base);
      ReadWrite(base.Div(n), base, width - 1);
      assert s[..|s| - 1] == Write(base.Div(n), base, width - 1);
    }
  }

  // ---------- the digits, one by one ----------

  /** The digit for `d`. */
  function D(d: int): char
    requires 0 <= d < 16
  {
    DIGITS[d]
  }

  lemma TwoDigits(n: nat)
    requires n < 100
    ensures Write(n, Decimal, 2) == [D(n / 10), D(n % 10)]
  {
    hide DigitChar;
    assert Write(n, Decimal, 2) == Write(n / 10, Decimal, 1) + [DigitChar(n % 10)];
    assert Write(n / 10, Decimal, 1) == Write(n / 100, Decimal, 0) + [DigitChar(n / 10)];
    DigitTable(n / 10);
    DigitTable(n % 10);
  }

  lemma OneMoreDigit(n: nat, width: nat)
    ensures Write(n, Decimal, width + 1) == Write(n / 10, Decimal, width) + [D(n % 10)]
  {
    DigitTable(n % 10);
  }

  lemma ThreeDigits(n: nat)
    requires n < 1000
    ensures Write(n, Decimal, 3) == [D(n / 100), D(n / 10 % 10), D(n % 10)]
  {
    OneMoreDigit(n, 2);
    TwoDigits(n / 10);
    hide Write;
    assert n / 10 / 10 == n / 100;
  }

  lemma Quotients(n: nat)
    ensures n / 10 / 10 == n / 100 && n / 10 / 100 == n / 1000
    ensures n / 100 / 100 == n / 10_000 && n / 100 / 1000 == n / 100_000
  {
  }

  lemma FourDigits(n: nat)
    requires n < 10_000
    ensures Write(n, Decimal, 4) == [D(n / 1000), D(n / 100 % 10), D(n / 10 % 10), D(n % 10)]
  {
    hide Write, D;
    Quotients(n);
    OneMoreDigit(n, 3);
    ThreeDigits(n / 10);
  }

  lemma SixDigits(n: nat)
    requires n < 1_000_000
    ensures Write(n, Decimal, 6) ==
            [D(n / 100_000), D(n / 10_000 % 10), D(n / 1000 % 10), D(n / 100 % 10), D(n / 10 % 10), D(n % 10)]
  {
    hide Write, D;
    Quotients(n);
    Quotients(n / 10);
    OneMoreDigit(n, 5);
    OneMoreDigit(n / 10, 4);
    FourDigits(n / 100);
  }

  /** In either base the i-th digit from the right counts the i-th power of the base. */
  lemma {:induction false} DigitFromTheRight(n: nat, base: Base, width: nat, i: nat)
    requires i < width
    ensures 0 <= base.Mod(Shifted(n, base, i)) < 16
    ensures Write(n, base, width)[width - 1 - i] == DIGITS[base.Mod(Shifted(n, base, i))]
  {
    DigitTable(base.Mod(n));
    if i > 0 {
      DigitFromTheRight(base.Div(n), base, width - 1, i - 1);
    }
  }

  /** `n` without its last `i` digits. */
  function Shifted(n: nat, base: Base, i: nat): nat {
    if i == 0 then n else Shifted(base.Div(n), base, i - 1)
  }
}
