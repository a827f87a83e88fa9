/** Decimal text of integers as JavaScript writes it (`String(n)`, template
    literals) and reads it back (`parseInt(text, 10)`). */
module Decimal {
  import opened Common
  import Text

  predicate IsDigit(c: char)
  {
    '0' <= c <= '9'
  }

  predicate AllDigits(s: string)
  {
    forall i :: 0 <= i < |s| ==> IsDigit(s[i])
  }

  function DigitChar(d: nat): (c: char)
    requires d < 10
    ensures IsDigit(c)
  {
    "0123456789"[d]
  }

  function DigitValue(c: char): (d: nat)
    requires IsDigit(c)
    ensures d < 10 && DigitChar(d) == c
  {
    (c as int) - ('0' as int)
  }

  /** The number a string of decimal digits denotes (most significant first). */
  function ValueOf(s: string): nat
    requires AllDigits(s)
  {
    if |s| == 0 then 0 else 10 * ValueOf(s[..|s| - 1]) + DigitValue(s[|s| - 1])
  }

  /** `String(n)` for a non-negative integer: at least one digit, only digits,
      and no leading zero unless `n` is zero. */
  function NatToDecimal(n: nat): (r: string)
    ensures |r| > 0 && AllDigits(r)
    ensures r[0] == '0' ==> n == 0
  {
    if n < 10 then [DigitChar(n)] else NatToDecimal(n / 10) + [DigitChar(n % 10)]
  }

  /** `String(i)` for any integer: a minus sign before the digits of `-i`. */
  function IntToDecimal(i: int): (r: string)
    ensures i >= 0 ==> r == NatToDecimal(i)
    ensures i < 0 ==> r == "-" + NatToDecimal(-i)
  {
    if i < 0 then "-" + NatToDecimal(-i) else NatToDecimal(i)
  }

  /** Reading back the digits `String(n)` writes gives `n`. */
  lemma {:induction false} ValueOfDecimal(n: nat)
    ensures ValueOf(NatToDecimal(n)) == n
  {
    if n >= 10 {
      ValueOfDecimal(n / 10);
      ValueOfSnoc(NatToDecimal(n / 10), n % 10);
    }
  }

  /** Appending a digit multiplies the value by ten and adds the digit. */
  lemma ValueOfSnoc(d: string, x: nat)
    requires AllDigits(d) && x < 10
    ensures AllDigits(d + [DigitChar(x)])
    ensures ValueOf(d + [DigitChar(x)]) == 10 * ValueOf(d) + x
  {
    var r := d + [DigitChar(x)];
    assert r[..|r| - 1] == d;
  }

  /** Different numbers have different decimal texts. */
  lemma DecimalInjective(m: nat, n: nat)
    requires NatToDecimal(m) == NatToDecimal(n)
    ensures m == n
  {
    ValueOfDecimal(m);
    ValueOfDecimal(n);
  }

  lemma DigitIsNotSpace(c: char)
    requires IsDigit(c)
    ensures !Text.IsSpace(c)
  {
  }

  /** The longest run of digits at the start of `s`. */
  function LeadingDigits(s: string): (r: string)
    ensures r <= s && AllDigits(r)
    ensures |r| < |s| ==> !IsDigit(s[|r|])
  {
    if |s| > 0 && IsDigit(s[0]) then [s[0]] + LeadingDigits(s[1..]) else []
  }

  /** The value of the longest digit run at the start of `u`; `None` when
      there is none. */
  function ParseDigits(u: string): (r: Option<nat>)
    ensures r.None? <==> |u| == 0 || !IsDigit(u[0])
  {
    var d := LeadingDigits(u);
    if |d| == 0 then None else Some(ValueOf(d))
  }

  /** `parseInt(s, 10)` with its result read as an integer: leading white
      space is skipped, one optional sign is read, then the longest digit run;
      `None` is the NaN returned when that run is empty. */
  function ParseInt(s: string): (r: Option<int>)
    ensures var t := Text.TrimStart(s);
              r.Some? <==> (|t| > 0 && IsDigit(t[0]))
                           || (|t| > 1 && (t[0] == '-' || t[0] == '+') && IsDigit(t[1]))
    ensures r.Some? && r.value < 0 ==> Text.TrimStart(s)[0] == '-'
  {
    var t := Text.TrimStart(s);
    if |t| > 0 && t[0] == '-' then
      match ParseDigits(t[1..])
      case None => None
      case Some(v) => Some(-(v as int))
    else if |t| > 0 && t[0] == '+' then
      match ParseDigits(t[1..])
      case None => None
      case Some(v) => Some(v as int)
    else
      match ParseDigits(t)
      case None => None
      case Some(v) => Some(v as int)
  }

  /** A digit run followed by anything that does not start with a digit
      parses to the value of the run: `parseInt("12abc", 10)` is 12. */
  lemma ParseIntOfDigits(d: string, rest: string)
    requires |d| > 0 && AllDigits(d)
    requires |rest| > 0 ==> !IsDigit(rest[0])
    ensures ParseInt(d + rest) == Some(ValueOf(d))
  {
    assert (d + rest)[0] == d[0];
    ParseIntOfDigitStart(d + rest);
    LeadingDigitsOf(d, rest);
  }

  /** Text that starts with a digit is read without sign. */
  lemma ParseIntOfDigitStart(s: string)
    requires |s| > 0 && IsDigit(s[0])
    ensures ParseDigits(s).Some? && ParseInt(s) == Some(ParseDigits(s).value as int)
  {
    DigitIsNotSpace(s[0]);
    Text.TrimStartOfUnspaced(s);
  }

  lemma {:induction false} LeadingDigitsOf(d: string, rest: string)
    requires AllDigits(d)
    requires |rest| > 0 ==> !IsDigit(rest[0])
    ensures LeadingDigits(d + rest) == d
  {
    if |d| > 0 {
      assert (d + rest)[1..] == d[1..] + rest;
      LeadingDigitsOf(d[1..], rest);
      assert d == [d[0]] + d[1..];
    } else {
      assert d + rest == rest;
    }
  }

  /** `parseInt` inverts `String` on non-negative integers. */
  lemma ParseIntOfDecimal(n: nat)
    ensures ParseInt(NatToDecimal(n)) == Some(n)
  {
    ParseIntOfDigits(NatToDecimal(n), "");
    assert NatToDecimal(n) + "" == NatToDecimal(n);
    ValueOfDecimal(n);
  }

  /** `parseInt` inverts `String` on every integer. */
  lemma ParseIntOfIntToDecimal(i: int)
    ensures ParseInt(IntToDecimal(i)) == Some(i)
  {
    if i >= 0 {
      ParseIntOfDecimal(i);
    } else {
      var n: nat := -i;
      ParseIntOfNegative(n);
      var r := ParseInt(IntToDecimal(i));
      assert r.Some? && r.value == i;
    }
  }

  /** `parseInt` reads back the text `String` writes for a negative number. */
  lemma ParseIntOfNegative(n: nat)
    requires n > 0
    ensures ParseInt("-" + NatToDecimal(n)).Some?
    ensures ParseInt("-" + NatToDecimal(n)).value + n == 0
  {
    ParseIntOfSignedDigits(NatToDecimal(n));
    ValueOfDecimal(n);
  }

  /** A minus sign before a digit string negates its value (stated as a sum
      that is zero, which keeps the proof obligations small). */
  lemma ParseIntOfSignedDigits(d: string)
    requires |d| > 0 && AllDigits(d)
    ensures ParseInt("-" + d).Some? && ParseInt("-" + d).value + ValueOf(d) == 0
  {
    var s := "-" + d;
    assert s[1..] == d;
    ParseDigitsOfAll(d);
    ParseIntOfMinus(s, ValueOf(d));
  }

  lemma ParseDigitsOfAll(d: string)
    requires |d| > 0 && AllDigits(d)
    ensures ParseDigits(d) == Some(ValueOf(d))
  {
    LeadingDigitsOf(d, "");
    assert d + "" == d;
  }

  /** Text that starts with a minus sign is the negated digit run after it. */
  lemma ParseIntOfMinus(s: string, v: nat)
    requires |s| > 0 && s[0] == '-' && ParseDigits(s[1..]) == Some(v)
    ensures ParseInt(s).Some? && ParseInt(s).value + v == 0
  {
    assert !Text.IsSpace('-');
    Text.TrimStartOfUnspaced(s);
  }

  /** Text that, after white space, starts with neither a sign nor a digit is NaN. */
  lemma ParseIntNoDigits(s: string)
    requires var t := Text.TrimStart(s); |t| == 0 || (t[0] != '-' && t[0] != '+' && !IsDigit(t[0]))
    ensures ParseInt(s) == None
  {
  }

  /** When two digit strings are each followed by a non-digit, equal
      concatenations split the same way. */
  lemma DigitPrefixUnique(a: string, x: string, b: string, y: string)
    requires AllDigits(a) && AllDigits(b)
    requires |x| > 0 && !IsDigit(x[0]) && |y| > 0 && !IsDigit(y[0])
    requires a + x == b + y
    ensures a == b && x == y
  {
    LeadingDigitsOf(a, x);
    LeadingDigitsOf(b, y);
    assert a == (a + x)[..|a|];
    assert b == (b + y)[..|b|];
    assert x == (a + x)[|a|..];
    assert y == (b + y)[|b|..];
  }
}
