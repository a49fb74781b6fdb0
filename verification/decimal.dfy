/**
 * Decimal digit strings, shared by the formatters and the parsers that
 * read or write numbers in base 10.
 */
module DecimalDigits {
  predicate IsDigit(c: char)
  {
    '0' <= c <= '9'
  }

  predicate AllDigits(s: string)
  {
    forall i :: 0 <= i < |s| ==> IsDigit(s[i])
  }

  function DigitValue(c: char): int
  {
    c as int - '0' as int
  }

  /** The value of a string of decimal digits, most significant first. */
  function DigitsValue(s: string): (v: int)
    ensures AllDigits(s) ==> v >= 0
  {
    if s == [] then 0 else DigitsValue(s[..|s| - 1]) * 10 + DigitValue(s[|s| - 1])
  }

  /** A digit string has a non-negative value, and a longer one is at least ten times its prefix. */
  lemma {:induction false} DigitsValueBounds(s: string)
    requires AllDigits(s)
    ensures 0 <= DigitsValue(s)
    ensures s != [] ==> DigitsValue(s) >= DigitsValue(s[..|s| - 1]) * 10
  {
    if s != [] {
      DigitsValueBounds(s[..|s| - 1]);
    }
  }

  /** A prefix of a digit string is worth no more than the whole string. */
  lemma {:induction false} DigitsValuePrefix(s: string, i: nat)
    requires AllDigits(s) && i <= |s|
    ensures DigitsValue(s[..i]) <= DigitsValue(s)
    decreases |s| - i
  {
    if i < |s| {
      var p := s[..|s| - 1];
      assert p[..i] == s[..i];
      DigitsValuePrefix(p, i);
      DigitsValueBounds(s);
      DigitsValueBounds(p);
    } else {
      assert s[..i] == s;
    }
  }

  /** Leading zeros add nothing to the value of a digit string. */
  lemma {:induction false} LeadingZeroIsNeutral(s: string)
    ensures DigitsValue("0" + s) == DigitsValue(s)
  {
    if s != [] {
      assert ("0" + s)[..|"0" + s| - 1] == "0" + s[..|s| - 1];
      LeadingZeroIsNeutral(s[..|s| - 1]);
    }
  }

  /** Appending a digit multiplies by ten and adds it. */
  lemma DigitsValueSnoc(s: string, c: char)
    ensures DigitsValue(s + [c]) == DigitsValue(s) * 10 + DigitValue(c)
  {
    assert (s + [c])[..|s + [c]| - 1] == s;
  }

  function DigitChar(d: nat): char
    requires d < 10
  {
    ('0' as int + d) as char
  }

  /** The decimal digits of a non-negative number, without leading zeros. */
  function Digits(n: nat): (s: string)
    ensures |s| >= 1
  {
    if n < 10 then [DigitChar(n)] else Digits(n / 10) + [DigitChar(n % 10)]
  }

  /** What `operator<<` prints for an `int`: a minus sign, then the digits of the magnitude. */
  function Decimal(n: int): string
  {
    if n < 0 then "-" + Digits(-n) else Digits(n)
  }

  /** Reading the digits back gives the number that was printed. */
  lemma {:induction false} DigitsRoundTrip(n: nat)
    ensures DigitsValue(Digits(n)) == n
  {
    if n >= 10 {
      var s := Digits(n);
      assert s[..|s| - 1] == Digits(n / 10);
      DigitsRoundTrip(n / 10);
    }
  }

  /** The decimal text of a number is all digits, with a leading zero only for zero itself. */
  lemma {:induction false} DigitsShape(n: nat)
    ensures AllDigits(Digits(n))
    ensures Digits(n)[0] != '0' || Digits(n) == "0"
  {
    if n >= 10 {
      DigitsShape(n / 10);
      assert Digits(n)[0] == Digits(n / 10)[0];
    }
  }
}
