/**
 How Python renders integers in the f-strings of the command handlers
 (`f"{n}"` in decimal, `f"{n:x}"` in lower-case hexadecimal), and how
 `int(s)` reads a string of ASCII digits back.
 */
module Numerals {
  import opened Outcomes
  import opened Strings

  predicate ValidBase(base: nat) {
    2 <= base <= 16
  }

  /** The digit for `d`: `0`-`9`, then lower-case `a`-`f`. */
  function DigitChar(d: nat): (c: char)
    requires d < 16
  {
    if d < 10 then ('0' as int + d) as char else ('a' as int + d - 10) as char
  }

  /** The value of one digit character; 0 for anything else. */
  function DigitValue(c: char): nat {
    if '0' <= c <= '9' then c as int - '0' as int
    else if 'a' <= c <= 'f' then c as int - 'a' as int + 10
    else 0
  }

  /** Every digit character reads back as the digit it was written for. */
  lemma DigitRoundTrip(d: nat)
    requires d < 16
    ensures DigitValue(DigitChar(d)) == d
  {
  }

  /** `s` is written with digits of `base` only. */
  predicate IsNumeral(s: string, base: nat)
    requires ValidBase(base)
  {
    forall i :: 0 <= i < |s| ==> DigitValue(s[i]) < base && DigitChar(DigitValue(s[i])) == s[i]
  }

  /** The base-`base` numeral of `n`, most significant digit first, with no
      leading zeros (so `0` is the single digit `0`). */
  function ToBase(n: nat, base: nat): (r: string)
    requires ValidBase(base)
    ensures |r| >= 1
    ensures IsNumeral(r, base)
    ensures n > 0 ==> r[0] != '0'
    decreases n
  {
    if n < base then
      DigitRoundTrip(n);
      [DigitChar(n)]
    else
      DivisionStep(n, base);
      var q, d := n / base, n % base;
      DigitRoundTrip(d);
      ToBase(q, base) + [DigitChar(d)]
  }

  /** The value of a numeral, most significant digit first; an empty numeral
      is 0. */
  function FromBase(s: string, base: nat): nat
    decreases |s|
  {
    if |s| == 0 then 0
    else FromBase(s[..|s| - 1], base) * base + DigitValue(s[|s| - 1])
  }

  /** One step of long division by `b` leaves a smaller, non-zero quotient. */
  lemma DivisionStep(n: nat, b: nat)
    requires 2 <= b <= n
    ensures 1 <= n / b < n
    ensures n == (n / b) * b + n % b && n % b < b
  {
    var q, r := n / b, n % b;
    assert n == b * q + r && r < b;
    MulMonotone(b, q, 1);
    MulMonotone(q, b, 2);
  }

  /** Reading a rendered numeral gives the number back. */
  lemma {:induction false} FromToBase(n: nat, base: nat)
    requires ValidBase(base)
    ensures FromBase(ToBase(n, base), base) == n
    decreases n
  {
    var s := ToBase(n, base);
    if n < base {
      DigitRoundTrip(n);
      assert s[..0] == [];
    } else {
      DivisionStep(n, base);
      var q, d := n / base, n % base;
      FromToBase(q, base);
      DigitRoundTrip(d);
      assert s[..|s| - 1] == ToBase(q, base);
    }
  }

  /** Leading zeros do not change a numeral's value. */
  lemma {:induction false} FromBaseLeadingZeros(zeros: string, s: string, base: nat)
    requires forall i :: 0 <= i < |zeros| ==> zeros[i] == '0'
    ensures FromBase(zeros + s, base) == FromBase(s, base)
    decreases |s|
  {
    if |s| == 0 {
      AllZerosValue(zeros, base);
      assert zeros + s == zeros;
    } else {
      FromBaseLeadingZeros(zeros, s[..|s| - 1], base);
      assert (zeros + s)[..|zeros + s| - 1] == zeros + s[..|s| - 1];
    }
  }

  lemma {:induction false} AllZerosValue(zeros: string, base: nat)
    requires forall i :: 0 <= i < |zeros| ==> zeros[i] == '0'
    ensures FromBase(zeros, base) == 0
    decreases |zeros|
  {
    if |zeros| > 0 {
      AllZerosValue(zeros[..|zeros| - 1], base);
    }
  }

  function Pow(base: nat, k: nat): nat {
    if k == 0 then 1 else base * Pow(base, k - 1)
  }

  /** A number below `base^k` needs at most `k` digits. */
  lemma {:induction false} ToBaseLength(n: nat, base: nat, k: nat)
    requires ValidBase(base) && k >= 1 && n < Pow(base, k)
    ensures |ToBase(n, base)| <= k
    decreases n
  {
    if n >= base {
      PowOne(base);
      DivisionStep(n, base);
      PowUnfold(base, k);
      DivBelow(n, base, Pow(base, k - 1));
      ToBaseLength(n / base, base, k - 1);
      ToBaseStep(n, base);
    }
  }

  lemma PowOne(base: nat)
    ensures Pow(base, 1) == base
  {
  }

  lemma PowUnfold(base: nat, k: nat)
    requires k >= 1
    ensures Pow(base, k) == base * Pow(base, k - 1)
  {
  }

  /** A number of at least `base` has one digit more than its quotient by
      `base`. */
  lemma ToBaseStep(n: nat, base: nat)
    requires ValidBase(base) && n >= base
    ensures |ToBase(n, base)| == |ToBase(n / base, base)| + 1
  {
  }

  lemma DivBelow(n: nat, b: nat, m: nat)
    requires b > 0 && n < b * m
    ensures n / b < m
  {
    var q := n / b;
    assert n == b * q + n % b;
    MulMonotone(b, q, m);
  }

  lemma MulMonotone(b: nat, x: nat, y: nat)
    ensures x >= y ==> b * x >= b * y
    ensures x < y ==> b * x <= b * y
  {
  }

  /** `f"{n}"` for a natural number. */
  function Decimal(n: nat): string {
    ToBase(n, 10)
  }

  /** `f"{n:x}"` for a natural number. */
  function Hex(n: nat): string {
    ToBase(n, 16)
  }

  /** `f"{i}"` for any integer: a minus sign before the magnitude. */
  function IntToString(i: int): (r: string)
    ensures i >= 0 ==> r == Decimal(i)
    ensures i < 0 ==> r == "-" + Decimal(-i)
  {
    if i < 0 then "-" + Decimal(-i) else Decimal(i)
  }

  /** `int(s)` for a string of ASCII digits. */
  function ParseDecimal(s: string): nat {
    FromBase(s, 10)
  }

  /** A decimal numeral is made of ASCII digits only, so `isdigit` accepts it. */
  lemma DecimalIsDigits(n: nat)
    ensures IsDigits(Decimal(n))
    ensures forall i :: 0 <= i < |Decimal(n)| ==> Decimal(n)[i] != '-' && Decimal(n)[i] != '\n'
  {
    var s := Decimal(n);
    forall i | 0 <= i < |s|
      ensures IsAsciiDigit(s[i])
    {
      assert DigitValue(s[i]) < 10;
    }
  }

  /** `int(f"{n}") == n`. */
  lemma DecimalRoundTrip(n: nat)
    ensures ParseDecimal(Decimal(n)) == n
  {
    FromToBase(n, 10);
  }

  /** The number written before the first `/` of `s`, as in the `i` of a
      footer's `i/n`. */
  function NumberBeforeSlash(s: string): Option<nat> {
    var number := Split(s, '/')[0];
    if IsDigits(number) then Some(ParseDecimal(number)) else None
  }

  /** `f"{n}/{tail}"` reads back as `n`, whatever the tail holds. */
  lemma NumberBeforeSlashRoundTrip(n: nat, tail: string)
    ensures NumberBeforeSlash(Decimal(n) + "/" + tail) == Some(n)
  {
    var digits := Decimal(n);
    DecimalIsDigits(n);
    assert '/' !in digits by {
      forall i | 0 <= i < |digits|
        ensures digits[i] != '/'
      {
        assert IsAsciiDigit(digits[i]);
      }
    }
    SplitWithoutSeparator(digits, "/" + tail, '/');
    assert digits + "/" + tail == digits + ("/" + tail);
    assert ("/" + tail)[1..] == tail;
    assert digits + "" == digits;
    DecimalRoundTrip(n);
  }
}
