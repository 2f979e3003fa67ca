/**
 * The monthly tab title, `strftime("%B %Y")` of today's date with an English month-name
 * table: the full month name, one space, and the year in four digits.
 */
module MonthLabels {
  import opened Wrappers
  import opened Text

  const MonthNames: seq<string> := [
    "January", "February", "March", "April", "May", "June",
    "July", "August", "September", "October", "November", "December"]

  /** The dates the label is defined for: a month 1..12 and a four-digit year. */
  predicate ValidMonth(year: int, month: int) {
    1 <= month <= 12 && 1000 <= year <= 9999
  }

  function DigitChar(d: int): (c: char)
    requires 0 <= d <= 9
    ensures IsDigit(c)
  {
    (48 + d) as char
  }

  function DigitValue(c: char): (d: int)
    requires IsDigit(c)
    ensures 0 <= d <= 9 && DigitChar(d) == c
  {
    c as int - 48
  }

  /** The year in four decimal digits. */
  function YearDigits(year: int): (s: string)
    requires 1000 <= year <= 9999
    ensures |s| == 4 && AllDigits(s) && s[0] != '0'
  {
    [DigitChar(year / 1000), DigitChar(year / 100 % 10), DigitChar(year / 10 % 10), DigitChar(year % 10)]
  }

  /** The value of four decimal digits. */
  function ReadYear(s: string): int
    requires |s| == 4 && AllDigits(s)
  {
    1000 * DigitValue(s[0]) + 100 * DigitValue(s[1]) + 10 * DigitValue(s[2]) + DigitValue(s[3])
  }

  lemma YearRoundTrip(year: int)
    requires 1000 <= year <= 9999
    ensures ReadYear(YearDigits(year)) == year
  {
    var a, b, c, d := year / 1000, year / 100 % 10, year / 10 % 10, year % 10;
    assert year / 100 == 10 * a + b;
    assert year / 10 == 10 * (year / 100) + c;
    assert year == 10 * (year / 10) + d;
  }

  lemma DigitsRoundTrip(s: string)
    requires |s| == 4 && AllDigits(s) && s[0] != '0'
    ensures 1000 <= ReadYear(s) <= 9999 && YearDigits(ReadYear(s)) == s
  {
    var a, b, c, d := DigitValue(s[0]), DigitValue(s[1]), DigitValue(s[2]), DigitValue(s[3]);
    var y := ReadYear(s);
    assert a != 0;
    assert y / 10 == 100 * a + 10 * b + c && y % 10 == d;
    assert y / 100 == 10 * a + b && y / 10 % 10 == c;
    assert y / 1000 == a && y / 100 % 10 == b;
    assert YearDigits(y) == [DigitChar(a), DigitChar(b), DigitChar(c), DigitChar(d)];
  }

  /** The title of the month's tab. */
  function MonthLabel(year: int, month: int): (s: string)
    requires ValidMonth(year, month)
    ensures |s| == |MonthNames[month - 1]| + 5
  {
    MonthNames[month - 1] + " " + YearDigits(year)
  }

  /** The position of a name in the month table. */
  function MonthIndexFrom(name: string, i: nat): (r: Option<nat>)
    requires i <= 12
    ensures r.Some? ==> i <= r.value < 12 && MonthNames[r.value] == name
    ensures r.None? ==> forall k :: i <= k < 12 ==> MonthNames[k] != name
    decreases 12 - i
  {
    if i == 12 then None
    else if MonthNames[i] == name then Some(i)
    else MonthIndexFrom(name, i + 1)
  }

  /** Reading a tab title back: the month name, one space, four digits not starting with 0. */
  function ParseMonthLabel(s: string): (r: Option<(int, int)>)
    ensures r.Some? ==> ValidMonth(r.value.0, r.value.1)
  {
    if |s| < 5 || s[|s| - 5] != ' ' || !AllDigits(s[|s| - 4..]) || s[|s| - 4] == '0' then None
    else
      var m := MonthIndexFrom(s[..|s| - 5], 0);
      if m.None? then None
      else
        DigitsRoundTrip(s[|s| - 4..]);
        Some((ReadYear(s[|s| - 4..]), m.value + 1))
  }

  lemma MonthNamesDistinct(j: nat, k: nat)
    requires j < 12 && k < 12 && MonthNames[j] == MonthNames[k]
    ensures j == k
  {
  }

  /** Every title reads back as the date it was made from. */
  lemma MonthLabelRoundTrip(year: int, month: int)
    requires ValidMonth(year, month)
    ensures ParseMonthLabel(MonthLabel(year, month)) == Some((year, month))
  {
    var s := MonthLabel(year, month);
    var name := MonthNames[month - 1];
    assert s[..|s| - 5] == name;
    assert s[|s| - 5] == ' ';
    assert s[|s| - 4..] == YearDigits(year);
    YearRoundTrip(year);
    var m := MonthIndexFrom(name, 0);
    MonthNamesDistinct(m.value, month - 1);
  }

  /** Every string that reads as a date is that date's title. */
  lemma ParseMonthLabelSound(s: string)
    requires ParseMonthLabel(s).Some?
    ensures MonthLabel(ParseMonthLabel(s).value.0, ParseMonthLabel(s).value.1) == s
  {
    DigitsRoundTrip(s[|s| - 4..]);
    assert s == s[..|s| - 5] + " " + s[|s| - 4..];
  }

  /** Different months get different titles. */
  lemma MonthLabelInjective(y1: int, m1: int, y2: int, m2: int)
    requires ValidMonth(y1, m1) && ValidMonth(y2, m2)
    requires MonthLabel(y1, m1) == MonthLabel(y2, m2)
    ensures y1 == y2 && m1 == m2
  {
    MonthLabelRoundTrip(y1, m1);
    MonthLabelRoundTrip(y2, m2);
  }

  /** The title for October 2026. */
  lemma OctoberTitle()
    ensures MonthLabel(2026, 10) == "October 2026"
  {
  }
}
