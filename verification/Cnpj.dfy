/** The CNPJ schema of the shared contracts, and the mask that the UI puts on it. */
module Cnpj {
  import opened Prelude

  type Digit = d: int | 0 <= d < 10

  // ---------- check digits ----------

  /** The weights count down to 2 and start again from 9. */
  function Weight(length: nat, i: nat): (w: int)
    requires i < length
    ensures 2 <= w <= 9
  {
    2 + (length - 1 - i) % 8
  }

  /** The weighted sum of the first `n` of `length` digits. */
  function Sum(d: seq<Digit>, length: nat, n: nat): nat
    requires n <= length <= |d|
  {
    if n == 0 then 0 else Sum(d, length, n - 1) + d[n - 1] * Weight(length, n - 1)
  }

  function FromRemainder(r: int): (digit: Digit)
    requires 0 <= r < 11
  {
    if r < 2 then 0 else 11 - r
  }

  function CheckDigit(d: seq<Digit>, length: nat): Digit
    requires length <= |d|
  {
    FromRemainder(Sum(d, length, length) % 11)
  }

  method CalcCheckDigit(digits: seq<Digit>, length: nat) returns (digit: Digit)
    requires length == 12 || length == 13
    requires length <= |digits|
    ensures digit == CheckDigit(digits, length)
  {
    var weight := length - 7;
    var sum := 0;
    for i := 0 to length
      invariant i < length ==> weight == Weight(length, i)
      invariant sum == Sum(digits, length, i)
    {
      sum := sum + digits[i] * weight;
      weight := if weight - 1 < 2 then 9 else weight - 1;
    }
    var remainder := sum % 11;
    digit := if remainder < 2 then 0 else 11 - remainder;
  }

  /** What a check digit is for: with it the weighted sum is a multiple of 11, or else
      the digit is 0 where it would have to be ten. Only one digit does this. */
  lemma CheckDigitCongruence(d: seq<Digit>, length: nat, c: Digit)
    requires length <= |d|
    ensures c == CheckDigit(d, length) <==>
            var total := Sum(d, length, length) + c;
            total % 11 == 0 || (c == 0 && total % 11 == 1)
  {
    hide Sum;
    RemainderCongruence(Sum(d, length, length), c);
  }

  lemma RemainderCongruence(s: int, c: Digit)
    ensures c == FromRemainder(s % 11) <==> (s + c) % 11 == 0 || (c == 0 && (s + c) % 11 == 1)
  {
  }

  predicate IsRepeated(d: seq<Digit>) {
    forall i, j :: 0 <= i < j < |d| ==> d[i] == d[j]
  }

  predicate Passes(d: seq<Digit>)
    requires |d| == 14
  {
    CheckDigit(d, 12) == d[12] && CheckDigit(d, 13) == d[13]
  }

  /** The two equations, with each check digit weighted 1. */
  lemma PassesIff(d: seq<Digit>)
    requires |d| == 14
    ensures Passes(d) <==>
            forall n :: 12 <= n <= 13 ==>
              var total := Sum(d, n, n) + d[n];
              total % 11 == 0 || (d[n] == 0 && total % 11 == 1)
  {
    hide Sum, CheckDigit;
    CheckDigitCongruence(d, 12, d[12]);
    CheckDigitCongruence(d, 13, d[13]);
  }

  /** The pattern of one digit, fourteen times. */
  lemma RepeatedIff(d: seq<Digit>)
    requires |d| == 14
    ensures IsRepeated(d) <==> exists c: Digit :: d == [c, c, c, c, c, c, c, c, c, c, c, c, c, c]
  {
    if IsRepeated(d) {
      var c := d[0];
      assert forall i :: 0 < i < 14 ==> d[i] == c;
      assert d == [c, c, c, c, c, c, c, c, c, c, c, c, c, c];
    }
  }

  predicate Valid(d: seq<Digit>) {
    |d| == 14 && !IsRepeated(d) && Passes(d)
  }

  lemma {:induction false} SumReadsPrefix(d: seq<Digit>, e: seq<Digit>, length: nat, n: nat)
    requires n <= length <= |d| && length <= |e|
    requires d[..n] == e[..n]
    ensures Sum(d, length, n) == Sum(e, length, n)
  {
    if n > 0 {
      assert d[..n][..n - 1] == d[..n - 1] && e[..n][..n - 1] == e[..n - 1];
      assert d[..n][n - 1] == e[..n][n - 1];
      SumReadsPrefix(d, e, length, n - 1);
    }
  }

  /** The two digits that belong to a base of twelve. */
  function Suffix(base: seq<Digit>): (Digit, Digit)
    requires |base| == 12
  {
    var first := CheckDigit(base, 12);
    (first, CheckDigit(base + [first], 13))
  }

  /** Every base of twelve digits has exactly one suffix that passes both equations. */
  lemma OneSuffixPasses(base: seq<Digit>, a: Digit, b: Digit)
    requires |base| == 12
    ensures Passes(base + [a, b]) <==> (a, b) == Suffix(base)
  {
    var d := base + [a, b];
    assert d[..12] == base[..12];
    SumReadsPrefix(d, base, 12, 12);
    assert d[..13] == (base + [a])[..13];
    SumReadsPrefix(d, base + [a], 13, 13);
  }

  // ---------- one wrong digit ----------

  lemma {:induction false} SumAfterChange(d: seq<Digit>, p: nat, x: Digit, length: nat, n: nat)
    requires n <= length <= |d| && p < length
    ensures Sum(d[p := x], length, n) == Sum(d, length, n) + if p < n then (x - d[p]) * Weight(length, p) else 0
  {
    if n > 0 {
      SumAfterChange(d, p, x, length, n - 1);
      if p == n - 1 {
        assert x * Weight(length, p) == d[p] * Weight(length, p) + (x - d[p]) * Weight(length, p);
      }
    }
  }

  /** The same check digit after a change: the same remainder, or 0 against 1. */
  lemma SameCheckDigit(s: int, change: int)
    requires FromRemainder(s % 11) == FromRemainder((s + change) % 11)
    ensures change % 11 == 0 || (FromRemainder(s % 11) == 0 && (change % 11 == 1 || change % 11 == 10))
  {
  }

  predicate Small(change: int) {
    change % 11 == 0 || change % 11 == 1 || change % 11 == 10
  }

  lemma SmallMultiples(delta: int)
    requires -9 <= delta <= 9 && delta != 0
    ensures (2 * delta) % 11 != 0 && (3 * delta) % 11 != 0 && (4 * delta) % 11 != 0 && (5 * delta) % 11 != 0
  {
  }

  lemma LargeMultiples(delta: int)
    requires -9 <= delta <= 9 && delta != 0
    ensures (6 * delta) % 11 != 0 && (7 * delta) % 11 != 0 && (8 * delta) % 11 != 0 && (9 * delta) % 11 != 0
  {
  }

  /** 11 is a prime larger than every digit and every weight. */
  lemma NoSilentChange(delta: int, w: int)
    requires -9 <= delta <= 9 && delta != 0 && 2 <= w <= 9
    ensures (w * delta) % 11 != 0
  {
    SmallMultiples(delta);
    LargeMultiples(delta);
  }

  /** Two multiples of one change that are both a near miss modulo 11. */
  predicate NearMisses(delta: int, a: int, b: int) {
    -9 <= delta <= 9 && delta != 0 && Small(a * delta) && Small(b * delta)
  }

  lemma NoneUpToFour(delta: int)
    ensures !NearMisses(delta, 2, 3) && !NearMisses(delta, 3, 4) && !NearMisses(delta, 4, 5)
  {
  }

  lemma NoneFromSix(delta: int)
    ensures !NearMisses(delta, 6, 7) && !NearMisses(delta, 7, 8) && !NearMisses(delta, 8, 9)
  {
  }

  /** Only 5 and 6, and 9 and 2, are opposite modulo 11. */
  lemma BothNearMisses(delta: int, w: int)
    requires 2 <= w <= 9 && NearMisses(delta, w, if w == 9 then 2 else w + 1)
    ensures w == 5 || w == 9
  {
    NoneUpToFour(delta);
    NoneFromSix(delta);
  }

  lemma WeightsOfPosition(p: nat)
    requires p < 12
    ensures Weight(13, p) == if Weight(12, p) == 9 then 2 else Weight(12, p) + 1
    ensures Weight(12, p) == 5 || Weight(12, p) == 9 <==> p in {0, 4, 8}
  {
  }

  lemma Commute(a: int, b: int)
    ensures a * b == b * a
  {
  }

  lemma BaseChange(d: seq<Digit>, p: nat, x: Digit)
    requires |d| == 14 && p < 12 && x != d[p] && Passes(d) && Passes(d[p := x])
    ensures p in {0, 4, 8} && d[12] == 0 && d[13] == 0
  {
    var e, delta := d[p := x], x - d[p];
    var w, v := Weight(12, p), Weight(13, p);
    assert FromRemainder(Sum(d, 12, 12) % 11) == d[12] == FromRemainder(Sum(e, 12, 12) % 11);
    assert FromRemainder(Sum(d, 13, 13) % 11) == d[13] == FromRemainder(Sum(e, 13, 13) % 11);
    hide Sum, Passes;
    SumAfterChange(d, p, x, 12, 12);
    SumAfterChange(d, p, x, 13, 13);
    SameCheckDigit(Sum(d, 12, 12), delta * w);
    SameCheckDigit(Sum(d, 13, 13), delta * v);
    WeightsOfPosition(p);
    hide Weight, FromRemainder;
    NoSilentChange(delta, w);
    NoSilentChange(delta, v);
    Commute(delta, w);
    Commute(delta, v);
    BothNearMisses(delta, w);
  }

  /** The changes `delta` of the digit at `p` that turn the remainders (r, q) of the two
      weighted sums from (0, 1) into (1, 0) or back, so that both check digits stay 0. */
  predicate Silent(p: nat, r: int, q: int, delta: int) {
    match (r, q)
    case (0, 1) => (p in {0, 8} && delta in {9, -2}) || (p == 4 && delta in {5, -6})
    case (1, 0) => (p in {0, 8} && delta in {-9, 2}) || (p == 4 && delta in {-5, 6})
    case _ => false
  }

  lemma SilentAtFiveAndSix(r: int, q: int, delta: int)
    requires 0 <= r < 2 && 0 <= q < 2 && -9 <= delta <= 9 && delta != 0
    ensures (r + 5 * delta) % 11 < 2 && (q + 6 * delta) % 11 < 2 <==> Silent(0, r, q, delta)
  {
  }

  lemma SilentAtNineAndTwo(r: int, q: int, delta: int)
    requires 0 <= r < 2 && 0 <= q < 2 && -9 <= delta <= 9 && delta != 0
    ensures (r + 9 * delta) % 11 < 2 && (q + 2 * delta) % 11 < 2 <==> Silent(4, r, q, delta)
  {
  }

  lemma RemainderAfterChange(d: seq<Digit>, p: nat, x: Digit, length: nat)
    requires p < length <= |d|
    ensures Sum(d[p := x], length, length) % 11 ==
            (Sum(d, length, length) % 11 + Weight(length, p) * (x - d[p])) % 11
  {
    hide Sum, Weight;
    SumAfterChange(d, p, x, length, length);
    Commute(Weight(length, p), x - d[p]);
    RemainderOfSum(Sum(d, length, length), Weight(length, p) * (x - d[p]));
  }

  lemma RemainderOfSum(s: int, change: int)
    ensures (s + change) % 11 == (s % 11 + change) % 11
  {
  }

  lemma ZeroDigits(e: seq<Digit>)
    requires |e| == 14 && e[12] == 0 && e[13] == 0
    ensures Passes(e) <==> Sum(e, 12, 12) % 11 < 2 && Sum(e, 13, 13) % 11 < 2
  {
  }

  lemma SilentPosition(d: seq<Digit>, p: nat, x: Digit)
    requires |d| == 14 && p in {0, 4, 8} && x != d[p] && Passes(d) && d[12] == 0 && d[13] == 0
    ensures Passes(d[p := x]) <==> Silent(p, Sum(d, 12, 12) % 11, Sum(d, 13, 13) % 11, x - d[p])
  {
    var r, q, delta := Sum(d, 12, 12) % 11, Sum(d, 13, 13) % 11, x - d[p];
    ZeroDigits(d);
    ZeroDigits(d[p := x]);
    RemainderAfterChange(d, p, x, 12);
    RemainderAfterChange(d, p, x, 13);
    hide Sum, Passes;
    if p == 4 {
      assert Weight(12, p) == 9 && Weight(13, p) == 2;
      hide Weight, Silent;
      SilentAtNineAndTwo(r, q, delta);
    } else {
      assert Weight(12, p) == 5 && Weight(13, p) == 6;
      assert Silent(p, r, q, delta) == Silent(0, r, q, delta);
      hide Weight, Silent;
      SilentAtFiveAndSix(r, q, delta);
    }
  }

  lemma {:induction false} SumOfZeros(d: seq<Digit>, length: nat, n: nat)
    requires n <= length <= |d| && forall i :: 0 <= i < n ==> d[i] == 0
    ensures Sum(d, length, n) == 0
  {
    if n > 0 {
      SumOfZeros(d, length, n - 1);
    }
  }

  /** A silent change does not lead to the number 00000000000000. */
  lemma SilentIsNotRepeated(d: seq<Digit>, p: nat, x: Digit)
    requires |d| == 14 && p < 12 && x != d[p] && d[12] == 0
    requires Silent(p, Sum(d, 12, 12) % 11, Sum(d, 13, 13) % 11, x - d[p])
    ensures !IsRepeated(d[p := x])
  {
    var e, delta := d[p := x], x - d[p];
    if IsRepeated(e) {
      assert forall i :: 0 <= i < 12 ==> e[i] == e[12];
      SumOfZeros(e, 12, 12);
      SumOfZeros(e, 13, 13);
      hide Sum;
      SumAfterChange(d, p, x, 12, 12);
      SumAfterChange(d, p, x, 13, 13);
      assert Sum(d, 12, 12) == -delta * Weight(12, p) && Sum(d, 13, 13) == -delta * Weight(13, p);
      NoSilentChange(-delta, Weight(12, p));
      NoSilentChange(-delta, Weight(13, p));
    }
  }

  /** One wrong digit in an accepted CNPJ is rejected, except at positions 0, 4 and 8 of
      a number ending in 00 whose sums leave the remainders 0 and 1, or 1 and 0, and
      there only by the amounts that `Silent` lists. */
  lemma OneWrongDigit(d: seq<Digit>, p: nat, x: Digit)
    requires Valid(d) && p < 14 && x != d[p]
    ensures Valid(d[p := x]) <==>
            d[12] == 0 && d[13] == 0 && Silent(p, Sum(d, 12, 12) % 11, Sum(d, 13, 13) % 11, x - d[p])
  {
    var e := d[p := x];
    if p >= 12 {
      assert d[..12] == e[..12];
      SumReadsPrefix(d, e, 12, 12);
      assert p == 13 ==> d[..13] == e[..13];
      if p == 13 {
        SumReadsPrefix(d, e, 13, 13);
      }
    } else {
      hide Sum, IsRepeated;
      if Passes(e) {
        BaseChange(d, p, x);
      }
      if p in {0, 4, 8} && d[12] == 0 && d[13] == 0 {
        SilentPosition(d, p, x);
        if Passes(e) {
          SilentIsNotRepeated(d, p, x);
        }
      }
    }
  }

  lemma TwoMore(d: seq<Digit>, length: nat, n: nat, v: int, w: int)
    requires n + 2 <= length <= |d|
    requires v == Weight(length, n) && w == Weight(length, n + 1)
    ensures Sum(d, length, n + 2) == Sum(d, length, n) + Term(d, n, v) + Term(d, n + 1, w)
  {
  }

  function Term(d: seq<Digit>, i: nat, w: int): int
    requires i < |d|
  {
    d[i] * w
  }

  lemma FirstSumSpelledOut(d: seq<Digit>)
    requires |d| >= 12
    ensures Sum(d, 12, 12) ==
            Term(d, 0, 5) + Term(d, 1, 4) + Term(d, 2, 3) + Term(d, 3, 2) + Term(d, 4, 9) + Term(d, 5, 8) +
            Term(d, 6, 7) + Term(d, 7, 6) + Term(d, 8, 5) + Term(d, 9, 4) + Term(d, 10, 3) + Term(d, 11, 2)
  {
    assert Sum(d, 12, 0) == 0;
    hide Sum;
    TwoMore(d, 12, 0, 5, 4);
    TwoMore(d, 12, 2, 3, 2);
    TwoMore(d, 12, 4, 9, 8);
    TwoMore(d, 12, 6, 7, 6);
    TwoMore(d, 12, 8, 5, 4);
    TwoMore(d, 12, 10, 3, 2);
  }

  lemma SecondSumSpelledOut(d: seq<Digit>)
    requires |d| >= 13
    ensures Sum(d, 13, 13) ==
            Term(d, 0, 6) + Term(d, 1, 5) + Term(d, 2, 4) + Term(d, 3, 3) + Term(d, 4, 2) + Term(d, 5, 9) +
            Term(d, 6, 8) + Term(d, 7, 7) + Term(d, 8, 6) + Term(d, 9, 5) + Term(d, 10, 4) + Term(d, 11, 3) +
            Term(d, 12, 2)
  {
    assert Sum(d, 13, 0) == 0 && Sum(d, 13, 13) == Sum(d, 13, 12) + Term(d, 12, 2);
    hide Sum;
    TwoMore(d, 13, 0, 6, 5);
    TwoMore(d, 13, 2, 4, 3);
    TwoMore(d, 13, 4, 2, 9);
    TwoMore(d, 13, 6, 8, 7);
    TwoMore(d, 13, 8, 6, 5);
    TwoMore(d, 13, 10, 4, 3);
  }

  /** The three exceptions are real: 00.000.000/0037-00 with one digit changed. */
  lemma UndetectedChanges(d: seq<Digit>)
    requires |d| == 14 && d[1] == d[2] == d[3] == d[5] == d[6] == d[7] == d[9] == d[12] == d[13] == 0
    requires d[10] == 3 && d[11] == 7
    requires (d[0], d[4], d[8]) in {(0, 0, 0), (2, 0, 0), (0, 6, 0), (0, 0, 2)}
    ensures Valid(d)
  {
    FirstSumSpelledOut(d);
    SecondSumSpelledOut(d);
    assert d[10] != d[11];
  }

  // ---------- text ----------

  predicate IsDigit(c: char) {
    '0' <= c <= '9'
  }

  predicate AllDigits(s: string) {
    forall i :: 0 <= i < |s| ==> IsDigit(s[i])
  }

  /** replace(/\D/g, "") */
  function Strip(s: string): (r: string)
    ensures AllDigits(r)
  {
    if s == "" then ""
    else if IsDigit(s[0]) then [s[0]] + Strip(s[1..])
    else Strip(s[1..])
  }

  function Digits(s: string): seq<Digit>
    requires AllDigits(s)
  {
    seq(|s|, i requires 0 <= i < |s| => s[i] as int - '0' as int)
  }

  const DIGITS := "0123456789"

  lemma DigitsAreTheirCharacters(s: string, i: nat)
    requires AllDigits(s) && i < |s|
    ensures |Digits(s)| == |s| && DIGITS[Digits(s)[i]] == s[i]
  {
  }

  method IsValidCnpj(value: string) returns (ok: bool)
    requires AllDigits(value)
    ensures ok <==> Valid(Digits(value))
  {
    if |value| != 14 {
      return false;
    }
    var digits := Digits(value);
    if IsRepeated(digits) {
      return false;
    }
    var first := CalcCheckDigit(digits, 12);
    if first != digits[12] {
      return false;
    }
    var second := CalcCheckDigit(digits, 13);
    ok := second == digits[13];
  }

  /** cnpjSchema: the normalised text, or None when it is refused. */
  function Parse(v: string): Option<string> {
    if Valid(Digits(Strip(v))) then Some(Strip(v)) else None
  }

  function FormatCnpj(v: string): string {
    var digits := Strip(v);
    if |digits| != 14 then v else Mask(digits)
  }

  function Mask(d: string): string
    requires |d| == 14
  {
    d[..2] + "." + d[2..5] + "." + d[5..8] + "/" + d[8..12] + "-" + d[12..]
  }

  datatype CustomerInput = CustomerInput(name: string, businessIdentifier: string)

  function ToCustomerInput(values: CustomerInput): CustomerInput {
    CustomerInput(values.name, Strip(values.businessIdentifier))
  }

  lemma {:induction false} StripAppend(a: string, b: string)
    ensures Strip(a + b) == Strip(a) + Strip(b)
  {
    if a == "" {
      assert a + b == b;
    } else {
      StripAppend(a[1..], b);
      assert (a + b)[1..] == a[1..] + b;
    }
  }

  lemma {:induction false} StripDigits(s: string)
    requires AllDigits(s)
    ensures Strip(s) == s
  {
    if s != "" {
      StripDigits(s[1..]);
    }
  }

  lemma StripJoin(a: string, separator: string, b: string)
    requires Strip(separator) == "" && AllDigits(b)
    ensures Strip(a + separator + b) == Strip(a) + b
  {
    StripAppend(a + separator, b);
    StripAppend(a, separator);
    StripDigits(b);
  }

  lemma StripMask(d: string)
    requires |d| == 14 && AllDigits(d)
    ensures Strip(Mask(d)) == d
  {
    assert Strip(".") == "" && Strip("/") == "" && Strip("-") == "";
    hide Strip;
    StripDigits(d[..2]);
    StripJoin(d[..2], ".", d[2..5]);
    StripJoin(d[..2] + "." + d[2..5], ".", d[5..8]);
    StripJoin(d[..2] + "." + d[2..5] + "." + d[5..8], "/", d[8..12]);
    StripJoin(d[..2] + "." + d[2..5] + "." + d[5..8] + "/" + d[8..12], "-", d[12..]);
    assert d == d[..2] + d[2..5] + d[5..8] + d[8..12] + d[12..];
  }

  /** Stripping goes through the text one character at a time and keeps the digits. */
  lemma StripEach(a: string, c: char, b: string)
    ensures Strip(a + [c] + b) == Strip(a) + (if c in DIGITS then [c] else "") + Strip(b)
  {
    StripAppend(a + [c], b);
    StripAppend(a, [c]);
    assert [c][1..] == "" && Strip([c]) == if IsDigit(c) then [c] else "";
    assert IsDigit(c) ==> DIGITS[c as int - '0' as int] == c;
  }

  /** The mask is 99.999.999/9999-99, and the digits stand in it in their order. */
  lemma MaskLayout(v: string)
    requires |Strip(v)| == 14
    ensures
      var m, d := FormatCnpj(v), Strip(v);
      && |m| == 18 && m[2] == m[6] == '.' && m[10] == '/' && m[15] == '-'
      && m[0] == d[0] && m[1] == d[1] && m[3] == d[2] && m[4] == d[3] && m[5] == d[4]
      && m[7] == d[5] && m[8] == d[6] && m[9] == d[7] && m[11] == d[8] && m[12] == d[9]
      && m[13] == d[10] && m[14] == d[11] && m[16] == d[12] && m[17] == d[13]
  {
    hide Strip;
    MaskSpelledOut(Strip(v));
  }

  lemma MaskSpelledOut(d: string)
    requires |d| == 14
    ensures Mask(d) == [d[0], d[1], '.', d[2], d[3], d[4], '.', d[5], d[6], d[7], '/',
                        d[8], d[9], d[10], d[11], '-', d[12], d[13]]
  {
  }

  /** Texts without fourteen digits are left alone. */
  lemma OtherTextsStay(v: string)
    requires |Strip(v)| != 14
    ensures FormatCnpj(v) == v
  {
  }

  /** Formatting changes no digit, so formatting twice and validating the formatted
      text give the same results, for every text whatever. */
  lemma FormatKeepsDigits(v: string)
    ensures Strip(FormatCnpj(v)) == Strip(v)
    ensures FormatCnpj(FormatCnpj(v)) == FormatCnpj(v)
    ensures Parse(FormatCnpj(v)) == Parse(v)
  {
    if |Strip(v)| == 14 {
      StripMask(Strip(v));
    }
  }

  /** Submitting a formatted identifier sends the digits of the text that was formatted,
      and the name as it is. */
  lemma InputUndoesFormat(name: string, v: string)
    ensures ToCustomerInput(CustomerInput(name, FormatCnpj(v))) == CustomerInput(name, Strip(v))
    ensures |v| == 14 && AllDigits(v) ==> Strip(v) == v
  {
    FormatKeepsDigits(v);
    if AllDigits(v) {
      StripDigits(v);
    }
  }

  // ---------- one number worked out ----------

  lemma KnownSums(d: seq<Digit>)
    requires d == [1, 1, 2, 2, 2, 3, 3, 3, 0, 0, 0, 1, 8, 1]
    ensures Sum(d, 12, 12) == 102 && Sum(d, 13, 13) == 120
  {
    FirstSumSpelledOut(d);
    SecondSumSpelledOut(d);
  }

  lemma KnownDigits(s: string)
    requires s == "11222333000181"
    ensures AllDigits(s) && Digits(s) == [1, 1, 2, 2, 2, 3, 3, 3, 0, 0, 0, 1, 8, 1]
  {
  }

  lemma KnownMask(s: string)
    requires s == "11222333000181"
    ensures Mask(s) == "11.222.333/0001-81"
  {
    MaskSpelledOut(s);
    hide Mask;
  }

  /** 11.222.333/0001-81 is accepted and stored as its digits. */
  lemma KnownNumber()
    ensures Parse("11.222.333/0001-81") == Some("11222333000181")
  {
    var s := "11222333000181";
    KnownDigits(s);
    KnownMask(s);
    StripMask(s);
    hide Strip, Mask, Digits;
    KnownNumberIsValid(Digits(s));
  }

  lemma KnownNumberIsValid(d: seq<Digit>)
    requires d == [1, 1, 2, 2, 2, 3, 3, 3, 0, 0, 0, 1, 8, 1]
    ensures Valid(d)
  {
    KnownSums(d);
    hide Sum;
    assert d[0] != d[2];
  }
}
