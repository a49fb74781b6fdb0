/**
 * IMF-fixdate formatting of the HTTP server (section 7.1.1.1 of RFC 7231):
 * "Sun, 06 Nov 1994 08:49:37 GMT".
 *
 * The model starts from the broken-down time fields; the conversion of a
 * `time_t` into them by the C library is not part of this model.
 */
module Httpd {
  import opened DecimalDigits

  /** The fields of `std::tm` that the formatter reads. */
  datatype Tm = Tm(sec: int, min: int, hour: int, mday: int, mon: int, year: int, wday: int)

  const DayNames: seq<string> := ["Sun", "Mon", "Tue", "Wed", "Thu", "Fri", "Sat"]
  const MonthNames: seq<string> :=
    ["Jan", "Feb", "Mar", "Apr", "May", "Jun", "Jul", "Aug", "Sep", "Oct", "Nov", "Dec"]

  /** `min(max(x, 0), hi)`: a table index that can never leave the table. */
  function Clamp(x: int, hi: nat): (r: nat)
    ensures r <= hi
    ensures 0 <= x <= hi ==> r == x
    ensures x < 0 ==> r == 0
    ensures x > hi ==> r == hi
  {
    if x < 0 then 0 else if x > hi then hi else x
  }

  function Zeros(k: nat): (s: string)
    ensures |s| == k
  {
    if k == 0 then "" else "0" + Zeros(k - 1)
  }

  /**
   * `std::setw(w)` with fill '0' and the default right adjustment: the
   * text is padded on the left to at least `w` characters and never cut.
   */
  function SetW(s: string, w: nat): (r: string)
    ensures |r| == if |s| < w then w else |s|
    ensures r[|r| - |s|..] == s
  {
    if |s| >= w then s else Zeros(w - |s|) + s
  }

  /** The abbreviated day name at a clamped index. */
  function DayName(k: nat): (r: string)
    requires k <= 6
    ensures |r| == 3 && r == DayNames[k]
  {
    NameLengths();
    DayNames[k]
  }

  /** The abbreviated month name at a clamped index. */
  function MonthName(k: nat): (r: string)
    requires k <= 11
    ensures |r| == 3 && r == MonthNames[k]
  {
    NameLengths();
    MonthNames[k]
  }

  /** `date1 = day SP month SP year`, each number printed with its `setw`. */
  function Date1(t: Tm): (r: string)
    ensures |r| >= 11
  {
    var d, m, y := SetW(Decimal(t.mday), 2), MonthName(Clamp(t.mon, 11)), SetW(Decimal(t.year + 1900), 4);
    JoinedLength(d, " ", m, " ", y);
    d + " " + m + " " + y
  }

  /** `time-of-day = hour ":" minute ":" second`, each printed with `setw(2)`. */
  function TimeOfDay(t: Tm): (r: string)
    ensures |r| >= 8
  {
    var h, m, s := SetW(Decimal(t.hour), 2), SetW(Decimal(t.min), 2), SetW(Decimal(t.sec), 2);
    JoinedLength(h, ":", m, ":", s);
    h + ":" + m + ":" + s
  }

  /** `http_date`: the IMF-fixdate text for the given broken-down time. */
  function HttpDate(t: Tm): (r: string)
    ensures |r| >= 29
    ensures r[..3] in DayNames && r[3..5] == ", "
    ensures r[|r| - 4..] == " GMT"
  {
    var day := DayName(Clamp(t.wday, 6));
    FixdateFrame(day, Date1(t), TimeOfDay(t));
    day + ", " + Date1(t) + " " + TimeOfDay(t) + " GMT"
  }

  lemma JoinedLength(a: string, x: string, b: string, y: string, c: string)
    ensures |a + x + b + y + c| == |a| + |x| + |b| + |y| + |c|
  {
  }

  lemma FixdateFrame(day: string, d: string, tod: string)
    requires |day| == 3 && |d| >= 11 && |tod| >= 8
    ensures var r := day + ", " + d + " " + tod + " GMT";
      |r| >= 29 && r[..3] == day && r[3..5] == ", " && r[|r| - 4..] == " GMT"
  {
  }

  lemma {:induction false} ZeroPaddingIsNeutral(k: nat, s: string)
    ensures DigitsValue(Zeros(k) + s) == DigitsValue(s)
  {
    if k > 0 {
      var t := Zeros(k - 1) + s;
      ZeroPaddingIsNeutral(k - 1, s);
      assert Zeros(k) + s == "0" + t;
      LeadingZeroIsNeutral(t);
    } else {
      assert Zeros(k) + s == s;
    }
  }

  function Pow10(k: nat): (r: nat)
    ensures r >= 1
  {
    if k == 0 then 1 else 10 * Pow10(k - 1)
  }

  lemma SmallPowers()
    ensures Pow10(2) == 100 && Pow10(4) == 10000
  {
    assert Pow10(1) == 10;
    assert Pow10(3) == 1000;
  }

  lemma {:induction false} DigitsFitWidth(n: nat, w: nat)
    requires 1 <= w && n < Pow10(w)
    ensures |Digits(n)| <= w
  {
    if n >= 10 {
      assert w >= 2;
      assert n / 10 < Pow10(w - 1);
      DigitsFitWidth(n / 10, w - 1);
      assert |Digits(n)| == |Digits(n / 10)| + 1;
    }
  }

  /** Zero padding up to the width keeps the value of a digit string. */
  lemma PaddedValue(s: string, w: nat)
    requires |s| <= w
    ensures |SetW(s, w)| == w
    ensures DigitsValue(SetW(s, w)) == DigitsValue(s)
  {
    if |s| < w {
      assert SetW(s, w) == Zeros(w - |s|) + s;
      ZeroPaddingIsNeutral(w - |s|, s);
    }
  }

  /** A field printed with `setw(w)` reads back as its value, and is exactly `w` wide when it has at most `w` digits. */
  lemma PaddedFieldRoundTrip(n: nat, w: nat)
    requires 1 <= w && n < Pow10(w)
    ensures |SetW(Decimal(n), w)| == w
    ensures DigitsValue(SetW(Decimal(n), w)) == n
  {
    assert Decimal(n) == Digits(n);
    DigitsFitWidth(n, w);
    DigitsRoundTrip(n);
    PaddedValue(Digits(n), w);
  }

  /** Fields within their calendar ranges and a year that prints with four digits. */
  predicate InRange(t: Tm)
  {
    0 <= t.wday <= 6 && 0 <= t.mon <= 11 && 1 <= t.mday <= 31 && 0 <= t.hour <= 23
    && 0 <= t.min <= 59 && 0 <= t.sec <= 60 && 0 <= t.year + 1900 <= 9999
  }

  lemma NameLengths()
    ensures forall i :: 0 <= i < |DayNames| ==> |DayNames[i]| == 3
    ensures forall i :: 0 <= i < |MonthNames| ==> |MonthNames[i]| == 3
  {
  }

  lemma SpaceSeparated(a: string, b: string, c: string)
    requires |a| == 2 && |b| == 3 && |c| == 4
    ensures var r := a + " " + b + " " + c;
      |r| == 11 && r[2] == ' ' && r[6] == ' ' && r[..2] == a && r[3..6] == b && r[7..] == c
  {
  }

  lemma ColonSeparated(a: string, b: string, c: string)
    requires |a| == 2 && |b| == 2 && |c| == 2
    ensures var r := a + ":" + b + ":" + c;
      |r| == 8 && r[2] == ':' && r[5] == ':' && r[..2] == a && r[3..5] == b && r[6..] == c
  {
  }

  lemma Date1Layout(t: Tm)
    requires InRange(t)
    ensures var r := Date1(t);
      && |r| == 11 && r[2] == ' ' && r[3..6] == MonthNames[t.mon] && r[6] == ' '
      && DigitsValue(r[..2]) == t.mday && DigitsValue(r[7..]) == t.year + 1900
  {
    SmallPowers();
    NameLengths();
    PaddedFieldRoundTrip(t.mday, 2);
    PaddedFieldRoundTrip(t.year + 1900, 4);
    SpaceSeparated(SetW(Decimal(t.mday), 2), MonthNames[t.mon], SetW(Decimal(t.year + 1900), 4));
  }

  lemma TimeOfDayLayout(t: Tm)
    requires InRange(t)
    ensures var r := TimeOfDay(t);
      && |r| == 8 && r[2] == ':' && r[5] == ':'
      && DigitsValue(r[..2]) == t.hour && DigitsValue(r[3..5]) == t.min && DigitsValue(r[6..]) == t.sec
  {
    SmallPowers();
    PaddedFieldRoundTrip(t.hour, 2);
    PaddedFieldRoundTrip(t.min, 2);
    PaddedFieldRoundTrip(t.sec, 2);
    ColonSeparated(SetW(Decimal(t.hour), 2), SetW(Decimal(t.min), 2), SetW(Decimal(t.sec), 2));
  }

  lemma FixdateParts(day: string, d: string, tod: string)
    requires |day| == 3 && |d| == 11 && |tod| == 8
    ensures var r := day + ", " + d + " " + tod + " GMT";
      && |r| == 29 && r[..3] == day && r[3..5] == ", " && r[16] == ' ' && r[25..] == " GMT"
      && r[5..7] == d[..2] && r[7] == d[2] && r[8..11] == d[3..6] && r[11] == d[6] && r[12..16] == d[7..]
      && r[17..19] == tod[..2] && r[19] == tod[2] && r[20..22] == tod[3..5] && r[22] == tod[5]
      && r[23..25] == tod[6..]
  {
  }

  /**
   * For in-range fields the text has the fixed IMF-fixdate layout: 29
   * characters, the names taken from the tables at the field indices, and
   * every numeric field readable back from its fixed columns.
   */
  lemma FixdateLayout(t: Tm)
    requires InRange(t)
    ensures var r := HttpDate(t);
      && |r| == 29
      && r[..3] == DayNames[t.wday] && r[3..5] == ", "
      && r[7] == ' ' && r[8..11] == MonthNames[t.mon] && r[11] == ' '
      && r[16] == ' ' && r[19] == ':' && r[22] == ':' && r[25..] == " GMT"
      && DigitsValue(r[5..7]) == t.mday
      && DigitsValue(r[12..16]) == t.year + 1900
      && DigitsValue(r[17..19]) == t.hour
      && DigitsValue(r[20..22]) == t.min
      && DigitsValue(r[23..25]) == t.sec
  {
    var d, tod := Date1(t), TimeOfDay(t);
    Date1Layout(t);
    TimeOfDayLayout(t);
    NameLengths();
    var r := HttpDate(t);
    assert r == DayNames[t.wday] + ", " + d + " " + tod + " GMT";
    FixdateParts(DayNames[t.wday], d, tod);
    assert DigitsValue(r[5..7]) == t.mday;
    assert DigitsValue(r[12..16]) == t.year + 1900;
    assert DigitsValue(r[17..19]) == t.hour;
    assert DigitsValue(r[20..22]) == t.min;
    assert DigitsValue(r[23..25]) == t.sec;
  }
}
