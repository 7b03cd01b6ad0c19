/**
 * Decimal numerals: the `{i:02d}` field that opens every chapter file name,
 * and reading the number back from the digits at the front of a name.
 */
module DecimalFormat {

  predicate IsDigit(c: char) {
    '0' <= c <= '9'
  }

  predicate AllDigits(s: string) {
    forall k | 0 <= k < |s| :: IsDigit(s[k])
  }

  function DigitChar(d: nat): (c: char)
    requires d < 10
    ensures IsDigit(c)
  {
    ('0' as int + d) as char
  }

  function DigitValue(c: char): (d: nat)
    requires IsDigit(c)
    ensures d < 10 && DigitChar(d) == c
  {
    c as int - '0' as int
  }

  /** The number a string of decimal digits denotes. */
  function DigitsValue(s: string): nat
    requires AllDigits(s)
  {
    if s == [] then 0 else DigitsValue(s[..|s| - 1]) * 10 + DigitValue(s[|s| - 1])
  }

  /** Python's `str(n)` for a natural number `n`. */
  function Decimal(n: nat): (r: string)
    ensures 1 <= |r| && AllDigits(r)
    ensures |r| > 1 ==> r[0] != '0'
    ensures n < 10 <==> |r| == 1
  {
    if n < 10 then [DigitChar(n)] else Decimal(n / 10) + [DigitChar(n % 10)]
  }

  /** Reading a numeral back gives the number it was written from. */
  lemma {:induction false} DecimalValue(n: nat)
    ensures DigitsValue(Decimal(n)) == n
  {
    var r := Decimal(n);
    if n >= 10 {
      DecimalValue(n / 10);
      assert r[..|r| - 1] == Decimal(n / 10);
    }
  }

  /** A leading zero adds nothing to the value. */
  lemma {:induction false} LeadingZeroValue(s: string)
    requires AllDigits(s)
    ensures AllDigits("0" + s) && DigitsValue("0" + s) == DigitsValue(s)
  {
    var z := "0" + s;
    if s != [] {
      assert z[..|z| - 1] == "0" + s[..|s| - 1];
      LeadingZeroValue(s[..|s| - 1]);
    }
  }

  /** Python's `f"{n:02d}"`: the numeral of `n`, padded on the left with
      zeros to two characters. */
  function ZeroPad2(n: nat): (r: string)
    ensures |r| >= 2 && AllDigits(r)
  {
    var d := Decimal(n);
    if |d| < 2 then "0" + d else d
  }

  /** The padded numeral still denotes `n`. */
  lemma ZeroPad2Value(n: nat)
    ensures DigitsValue(ZeroPad2(n)) == n
  {
    DecimalValue(n);
    if n < 10 {
      LeadingZeroValue(Decimal(n));
    }
  }

  /** Below 100 the padded numeral is exactly the tens digit, then the
      units digit. */
  lemma ZeroPad2TwoDigits(n: nat)
    requires n < 100
    ensures ZeroPad2(n) == [DigitChar(n / 10), DigitChar(n % 10)]
  {
    if n >= 10 {
      assert Decimal(n) == Decimal(n / 10) + [DigitChar(n % 10)];
    }
  }

  /** The run of digits at the front of `s`. */
  function LeadingDigits(s: string): (r: string)
    ensures |r| <= |s| && r == s[..|r|] && AllDigits(r)
    ensures |r| == |s| || !IsDigit(s[|r|])
  {
    if s != [] && IsDigit(s[0]) then [s[0]] + LeadingDigits(s[1..]) else []
  }

  /** The number at the front of a name: what a reader of a chapter file
      name takes as its chapter number. */
  function LeadingNumber(s: string): nat {
    DigitsValue(LeadingDigits(s))
  }

  /** A numeral followed by a non-digit is the whole run of leading digits. */
  lemma {:induction false} LeadingDigitsOf(d: string, rest: string)
    requires AllDigits(d)
    requires rest == [] || !IsDigit(rest[0])
    ensures LeadingDigits(d + rest) == d
  {
    if d != [] {
      assert (d + rest)[1..] == d[1..] + rest;
      LeadingDigitsOf(d[1..], rest);
    } else {
      assert d + rest == rest;
    }
  }

  /** The zero-padded numeral of `n`, then a separator, reads back as `n`. */
  lemma NumberOfPaddedPrefix(n: nat, sep: char, rest: string)
    requires !IsDigit(sep)
    ensures LeadingNumber(ZeroPad2(n) + [sep] + rest) == n
  {
    assert ZeroPad2(n) + [sep] + rest == ZeroPad2(n) + ([sep] + rest);
    LeadingDigitsOf(ZeroPad2(n), [sep] + rest);
    ZeroPad2Value(n);
  }
}
