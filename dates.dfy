/** `java.time.LocalDate` as far as the settings store uses it: a calendar
    date, its ISO text form ("yyyy-MM-dd") and `isAfter`. */
module Dates {
  import opened Wrappers
  import opened Text

  datatype CalendarDate = CalendarDate(year: int, month: int, day: int)

  /** Proleptic Gregorian leap years, as `LocalDate` uses them. */
  predicate IsLeapYear(y: int) {
    y % 4 == 0 && (y % 100 != 0 || y % 400 == 0)
  }

  function DaysInMonth(y: int, m: int): int {
    if m == 2 then (if IsLeapYear(y) then 29 else 28)
    else if m == 4 || m == 6 || m == 9 || m == 11 then 30
    else 31
  }

  predicate IsValidDate(d: CalendarDate) {
    0 <= d.year <= 9999 && 1 <= d.month <= 12 && 1 <= d.day <= DaysInMonth(d.year, d.month)
  }

  /** A `LocalDate` whose year has four digits. */
  type Date = d: CalendarDate | IsValidDate(d) witness CalendarDate(2000, 1, 1)

  /** `a.isAfter(b)`: `a` is strictly later on the calendar. */
  predicate IsAfter(a: Date, b: Date) {
    || a.year > b.year
    || (a.year == b.year && (a.month > b.month || (a.month == b.month && a.day > b.day)))
  }

  lemma IsAfterIrreflexive(d: Date)
    ensures !IsAfter(d, d)
  {
  }

  // ---------------------------------------------------------------------
  // ISO text

  function Pad2(n: nat): (s: string)
    requires n < 100
    ensures |s| == 2 && AllDigits(s)
  {
    [DigitChar(n / 10), DigitChar(n % 10)]
  }

  function Pad4(n: nat): (s: string)
    requires n < 10000
    ensures |s| == 4 && AllDigits(s)
  {
    [DigitChar(n / 1000), DigitChar(n / 100 % 10), DigitChar(n / 10 % 10), DigitChar(n % 10)]
  }

  /** `LocalDate.toString()`: four-digit year, two-digit month and day. */
  function FormatDate(d: Date): (s: string)
    ensures |s| == 10 && s[4] == '-' && s[7] == '-'
  {
    Pad4(d.year) + "-" + Pad2(d.month) + "-" + Pad2(d.day)
  }

  /** `LocalDate.parse(s)` (ISO_LOCAL_DATE, strict): exactly "yyyy-MM-dd"
      naming a day that exists; anything else is a `DateTimeParseException`,
      here `None`. Whatever it accepts is the canonical text of the date. */
  function ParseDate(s: string): (r: Option<Date>)
    ensures r.Some? ==> FormatDate(r.value) == s
  {
    if |s| != 10 || s[4] != '-' || s[7] != '-'
       || !AllDigits(s[..4]) || !AllDigits(s[5..7]) || !AllDigits(s[8..])
    then None
    else
      var d := CalendarDate(DigitsValue(s[..4]), DigitsValue(s[5..7]), DigitsValue(s[8..]));
      if IsValidDate(d) then
        Pad4OfValue(s[..4]);
        Pad2OfValue(s[5..7]);
        Pad2OfValue(s[8..]);
        assert s == s[..4] + "-" + s[5..7] + "-" + s[8..];
        Some(d)
      else None
  }

  lemma Pad2Value(n: nat)
    requires n < 100
    ensures DigitsValue(Pad2(n)) == n
  {
    var s := Pad2(n);
    assert s[..1] == [DigitChar(n / 10)];
    assert DigitsValue(s[..1]) == n / 10;
  }

  lemma Pad4Value(n: nat)
    requires n < 10000
    ensures DigitsValue(Pad4(n)) == n
  {
    var s := Pad4(n);
    assert s[..1] == [DigitChar(n / 1000)];
    assert s[..2][..1] == s[..1] && s[..3][..2] == s[..2] && s[..4][..3] == s[..3];
    assert DigitsValue(s[..1]) == n / 1000;
    assert DigitsValue(s[..2]) == 10 * (n / 1000) + n / 100 % 10 == n / 100;
    assert DigitsValue(s[..3]) == 10 * (n / 100) + n / 10 % 10 == n / 10;
    assert s[..4] == s;
  }

  lemma Pad2OfValue(t: string)
    requires |t| == 2 && AllDigits(t)
    ensures DigitsValue(t) < 100 && Pad2(DigitsValue(t)) == t
  {
    var a, b := DigitVal(t[0]), DigitVal(t[1]);
    assert t[..1] == [t[0]] && t[..1][..0] == [];
    assert DigitsValue(t[..1]) == a;
    assert t[..|t| - 1] == t[..1];
    assert DigitsValue(t) == 10 * a + b;
  }

  lemma Pad4OfValue(t: string)
    requires |t| == 4 && AllDigits(t)
    ensures DigitsValue(t) < 10000 && Pad4(DigitsValue(t)) == t
  {
    var a, b, c, d := DigitVal(t[0]), DigitVal(t[1]), DigitVal(t[2]), DigitVal(t[3]);
    FourDigitsValue(t);
    FourDigitsSplit(a, b, c, d);
  }

  lemma FourDigitsValue(t: string)
    requires |t| == 4 && AllDigits(t)
    ensures DigitsValue(t) == 1000 * DigitVal(t[0]) + 100 * DigitVal(t[1]) + 10 * DigitVal(t[2]) + DigitVal(t[3])
  {
    assert t[..1] == [t[0]] && t[..1][..0] == [];
    assert DigitsValue(t[..1]) == DigitVal(t[0]);
    assert t[..2][..1] == t[..1] && t[..3][..2] == t[..2] && t[..3][2] == t[2] && t[..4] == t;
  }

  lemma FourDigitsSplit(a: nat, b: nat, c: nat, d: nat)
    requires a < 10 && b < 10 && c < 10 && d < 10
    ensures var v := 1000 * a + 100 * b + 10 * c + d;
      v < 10000 && v / 1000 == a && v / 100 % 10 == b && v / 10 % 10 == c && v % 10 == d
  {
    var v := 1000 * a + 100 * b + 10 * c + d;
    assert v / 10 == 100 * a + 10 * b + c;
    assert v / 100 == 10 * a + b;
    assert v / 1000 == a;
  }

  /** Writing a date as ISO text and parsing it back gives the same date:
      a deadline stored by the settings setters reads back unchanged. */
  lemma ParseFormatRoundTrip(d: Date)
    ensures ParseDate(FormatDate(d)) == Some(d)
  {
    var s := FormatDate(d);
    assert s[..4] == Pad4(d.year) && s[5..7] == Pad2(d.month) && s[8..] == Pad2(d.day);
    Pad4Value(d.year);
    Pad2Value(d.month);
    Pad2Value(d.day);
  }
}
