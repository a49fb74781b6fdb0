/**
 * `parser<T>::operator()`: how the command-line library turns the text of
 * an option's value into a value. A parser with named literals accepts
 * exactly those names; one without reads a whole base-10 integer the way
 * `strtol` does and keeps it only when it fits an `int`.
 *
 * `T` is taken to be an integer or enumeration type, so the value is an
 * `int`; the `std::string` specialisation is declared elsewhere and is not
 * part of this model.
 */
module ValueParser {
  import opened DecimalDigits
  import opened MaybeValues

  /** `parser_base::literal`: a name the user may type and the value it stands for. */
  datatype Literal = Literal(name: string, value: int, description: string)

  const IntMax: int := 0x7FFF_FFFF
  const IntMin: int := -0x8000_0000
  const LongMax: int := 0x7FFF_FFFF_FFFF_FFFF
  const LongMin: int := -0x8000_0000_0000_0000

  /** `isspace` in the "C" locale: space, tab, line feed, vertical tab, form feed and carriage return. */
  predicate IsSpace(c: char)
  {
    c == ' ' || 9 <= c as int <= 13
  }

  /** The index of the first character at or after `i` that is not white space. */
  function SkipSpaces(s: string, i: nat): (r: nat)
    requires i <= |s|
    ensures i <= r <= |s|
    ensures forall j :: i <= j < r ==> IsSpace(s[j])
    ensures r < |s| ==> !IsSpace(s[r])
    decreases |s| - i
  {
    if i == |s| || !IsSpace(s[i]) then i else SkipSpaces(s, i + 1)
  }

  /** Past an optional sign at `i`. */
  function SkipSign(s: string, i: nat): (r: nat)
    requires i <= |s|
    ensures i <= r <= |s| && r <= i + 1
    ensures r == i + 1 <==> i < |s| && (s[i] == '+' || s[i] == '-')
  {
    if i < |s| && (s[i] == '+' || s[i] == '-') then i + 1 else i
  }

  /** The end of the run of decimal digits starting at `i`. */
  function DigitRun(s: string, i: nat): (r: nat)
    requires i <= |s|
    ensures i <= r <= |s|
    ensures forall j :: i <= j < r ==> IsDigit(s[j])
    ensures r < |s| ==> !IsDigit(s[r])
    decreases |s| - i
  {
    if i == |s| || !IsDigit(s[i]) then i else DigitRun(s, i + 1)
  }

  /** What `strtol(str, &str_end, 10)` reports: the value, where it stopped, and whether `errno` became `ERANGE`. */
  datatype Conversion = Conversion(value: int, end: nat, outOfRange: bool)

  /**
   * `strtol` in base 10: white space, an optional sign, then as many
   * digits as there are. Without a digit nothing is converted and the end
   * is the start of the text; a value beyond `long` is clamped and flagged.
   */
  function Strtol(s: string): (r: Conversion)
    ensures r.end <= |s|
  {
    var i := SkipSpaces(s, 0);
    var j := SkipSign(s, i);
    var e := DigitRun(s, j);
    if e == j then Conversion(0, 0, false)
    else
      var magnitude := DigitsValue(s[j..e]);
      var n := if j > i && s[i] == '-' then -magnitude else magnitude;
      if n > LongMax then Conversion(LongMax, e, true)
      else if n < LongMin then Conversion(LongMin, e, true)
      else Conversion(n, e, false)
  }

  /** The whole text is an integer: white space, an optional sign and at least one digit, and nothing after. */
  predicate IntegerText(s: string)
  {
    var j := SkipSign(s, SkipSpaces(s, 0));
    j < |s| && AllDigits(s[j..])
  }

  /** The value of an integer text: its digits, negated after a minus sign. */
  function TextValue(s: string): int
    requires IntegerText(s)
  {
    var i := SkipSpaces(s, 0);
    var j := SkipSign(s, i);
    if j > i && s[i] == '-' then -DigitsValue(s[j..]) else DigitsValue(s[j..])
  }

  /** The index of the first literal called `v`, or the number of literals. */
  function FindLiteral(literals: seq<Literal>, v: string): (k: nat)
    ensures k <= |literals|
    ensures k < |literals| ==> literals[k].name == v
    ensures forall j :: 0 <= j < k ==> literals[j].name != v
  {
    if literals == [] || literals[0].name == v then 0 else 1 + FindLiteral(literals[1..], v)
  }

  lemma DigitRunCoversAll(s: string, j: nat)
    requires j <= |s|
    ensures DigitRun(s, j) == |s| <==> AllDigits(s[j..])
  {
    var e := DigitRun(s, j);
    if e == |s| {
      assert forall k :: 0 <= k < |s| - j ==> s[j..][k] == s[j + k];
    } else {
      assert s[j..][e - j] == s[e];
    }
  }

  /**
   * `parser<T>::operator()`. With no literals: nothing for the empty text,
   * otherwise the integer the whole text spells when it fits an `int`.
   * With literals: the value of the first literal whose name is exactly
   * the text, and nothing when there is none; numbers are not read.
   */
  function Parse(literals: seq<Literal>, v: string): (r: Maybe<int>)
    ensures literals == [] ==>
      (r.Just? <==> IntegerText(v) && IntMin <= TextValue(v) <= IntMax)
      && (r.Just? ==> r.value == TextValue(v))
    ensures literals != [] ==>
      (r.Just? <==> exists k :: 0 <= k < |literals| && literals[k].name == v)
      && (r.Just? ==> var k := FindLiteral(literals, v); r.value == literals[k].value)
  {
    if literals == [] then
      if |v| == 0 then Nothing
      else
        var c := Strtol(v);
        StrtolWhole(v);
        if c.end != |v| || c.outOfRange || c.value > IntMax || c.value < IntMin then Nothing
        else Just(c.value)
    else
      var k := FindLiteral(literals, v);
      if k == |literals| then Nothing else Just(literals[k].value)
  }

  /** `strtol` uses up the whole text exactly when it is an integer text, and then reads its value. */
  lemma StrtolWhole(v: string)
    requires |v| > 0
    ensures Strtol(v).end == |v| <==> IntegerText(v)
    ensures IntegerText(v) ==>
      (Strtol(v).outOfRange <==> TextValue(v) > LongMax || TextValue(v) < LongMin)
      && (!Strtol(v).outOfRange ==> Strtol(v).value == TextValue(v))
  {
    var i := SkipSpaces(v, 0);
    var j := SkipSign(v, i);
    DigitRunCoversAll(v, j);
    var e := DigitRun(v, j);
    if e == |v| && e > j {
      assert v[j..e] == v[j..];
    }
  }

  /** Every `int`, printed in base 10, reads back as itself. */
  lemma ParseRoundTrip(n: int)
    requires IntMin <= n <= IntMax
    ensures Parse([], Decimal(n)) == Just(n)
  {
    var s := Decimal(n);
    var m := if n < 0 then -n else n;
    DigitsShape(m);
    DigitsRoundTrip(m);
    var d := Digits(m);
    if n < 0 {
      assert s == "-" + d;
      assert SkipSpaces(s, 0) == 0;
      assert SkipSign(s, 0) == 1;
      assert s[1..] == d;
    } else {
      assert s == d;
      assert IsDigit(d[0]);
      assert SkipSpaces(s, 0) == 0;
      assert SkipSign(s, 0) == 0;
      assert s[0..] == d;
    }
  }

  lemma LeadingSpaceShift(c: char, v: string)
    requires IsSpace(c)
    ensures var s := [c] + v; var i := SkipSpaces(v, 0);
      SkipSpaces(s, 0) == i + 1 && SkipSign(s, i + 1) == SkipSign(v, i) + 1
  {
    var s := [c] + v;
    assert SkipSpaces(s, 0) == SkipSpaces(s, 1);
    SkipSpacesShift(c, v, 0);
  }

  lemma LeadingSpaceText(c: char, v: string)
    requires IsSpace(c)
    ensures IntegerText([c] + v) <==> IntegerText(v)
    ensures IntegerText(v) ==> TextValue([c] + v) == TextValue(v)
  {
    var s := [c] + v;
    LeadingSpaceShift(c, v);
    var i := SkipSpaces(v, 0);
    var j := SkipSign(v, i);
    assert s[j + 1..] == v[j..];
    assert j > i ==> s[i + 1] == v[i];
  }

  /** Leading white space is skipped, as `strtol` does. */
  lemma ParseLeadingSpace(c: char, v: string)
    requires IsSpace(c)
    ensures Parse([], [c] + v) == Parse([], v)
  {
    LeadingSpaceText(c, v);
  }

  lemma {:induction false} SkipSpacesShift(c: char, v: string, i: nat)
    requires i <= |v|
    ensures SkipSpaces([c] + v, i + 1) == SkipSpaces(v, i) + 1
    decreases |v| - i
  {
    if i < |v| {
      assert ([c] + v)[i + 1] == v[i];
      if IsSpace(v[i]) {
        SkipSpacesShift(c, v, i + 1);
      }
    }
  }

  /** A text that ends in anything but a digit is refused: `strtol` stops before the end. */
  lemma TrailingJunk(v: string, c: char)
    requires !IsDigit(c)
    ensures Parse([], v + [c]) == Nothing
  {
  }

  /** The smallest number above `INT_MAX` is out of range. */
  lemma JustAboveIntMax()
    ensures Parse([], Decimal(IntMax + 1)) == Nothing
  {
    var d := Digits(IntMax + 1);
    DigitsShape(IntMax + 1);
    DigitsRoundTrip(IntMax + 1);
    assert Decimal(IntMax + 1) == d;
    assert IsDigit(d[0]);
    assert SkipSpaces(d, 0) == 0;
    assert SkipSign(d, 0) == 0;
    assert d[0..] == d;
  }

  /** With literals, a number is an ordinary name: it matches only a literal called exactly that. */
  lemma LiteralsHideNumbers(literals: seq<Literal>, n: int)
    requires literals != [] && forall k :: 0 <= k < |literals| ==> literals[k].name != Decimal(n)
    ensures Parse(literals, Decimal(n)) == Nothing
  {
  }

  /** With literals, the first of several literals of the same name wins. */
  lemma FirstLiteralWins(literals: seq<Literal>, k: nat)
    requires k < |literals| && forall j :: 0 <= j < k ==> literals[j].name != literals[k].name
    ensures Parse(literals, literals[k].name) == Just(literals[k].value)
  {
  }
}
