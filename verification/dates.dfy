/** Capture timestamps: Python's naive `datetime` reduced to the six fields an
    EXIF `DateTime` tag carries, its chronological order, and the `strftime`
    rendering the date-as-name mode uses. */
module Dates {
  import opened Decimal

  datatype DateTime = DateTime(year: int, month: int, day: int, hour: int, minute: int, second: int)

  /** Field ranges of a `datetime` (calendar validity of the day is not
      modelled). The year is one that Python 2's `strftime` accepts (1900
      onwards) and has four digits, so that `%Y` is four characters. */
  predicate Valid(d: DateTime) {
    && 1900 <= d.year <= 9999
    && 1 <= d.month <= 12
    && 1 <= d.day <= 31
    && 0 <= d.hour < 24
    && 0 <= d.minute < 60
    && 0 <= d.second < 60
  }

  /** `a < b` on datetimes: lexicographic on (year, month, day, hour, minute, second). */
  predicate Before(a: DateTime, b: DateTime) {
    || a.year < b.year
    || (a.year == b.year && a.month < b.month)
    || (a.year == b.year && a.month == b.month && a.day < b.day)
    || (a.year == b.year && a.month == b.month && a.day == b.day && a.hour < b.hour)
    || (a.year == b.year && a.month == b.month && a.day == b.day && a.hour == b.hour
        && a.minute < b.minute)
    || (a.year == b.year && a.month == b.month && a.day == b.day && a.hour == b.hour
        && a.minute == b.minute && a.second < b.second)
  }

  /** `a <= b` on datetimes. */
  predicate NotAfter(a: DateTime, b: DateTime) {
    Before(a, b) || a == b
  }

  lemma BeforeTransitive(a: DateTime, b: DateTime, c: DateTime)
    requires Before(a, b) && Before(b, c)
    ensures Before(a, c)
  {
  }

  lemma NotAfterTransitive(a: DateTime, b: DateTime, c: DateTime)
    requires NotAfter(a, b) && NotAfter(b, c)
    ensures NotAfter(a, c)
  {
    if Before(a, b) && Before(b, c) {
      BeforeTransitive(a, b, c);
    }
  }

  /** Any two datetimes are comparable, and exactly one of `<`, `==`, `>` holds. */
  lemma Trichotomy(a: DateTime, b: DateTime)
    ensures Before(a, b) || a == b || Before(b, a)
    ensures !(Before(a, b) && Before(b, a))
    ensures a == b ==> !Before(a, b)
  {
  }

  lemma NotAfterAntisymmetric(a: DateTime, b: DateTime)
    requires NotAfter(a, b) && NotAfter(b, a)
    ensures a == b
  {
    Trichotomy(a, b);
  }

  /** `d.strftime('%Y-%M-%d %H.%M.%S')`. The directive in the month slot is
      `%M`, the minute, exactly as the source writes it: the month is never
      rendered. Nineteen characters, no `/`, ending in a digit. */
  function Format(d: DateTime): (s: string)
    requires Valid(d)
    ensures |s| == 19 && '/' !in s && IsDigit(s[18])
  {
    assert Pow10(4) == 10000 && Pow10(2) == 100;
    var sec := ZeroPad(d.second, 2);
    Stamp(ZeroPad(d.year, 4), ZeroPad(d.minute, 2), ZeroPad(d.day, 2),
          ZeroPad(d.hour, 2), ZeroPad(d.minute, 2), sec)
  }

  /** The rendering reads back, in fixed columns, as year, minute, day, hour,
      minute and second, with the separators of the format string between. */
  lemma FormatFields(d: DateTime)
    requires Valid(d)
    ensures var s := Format(d);
      && s[4] == '-' && s[7] == '-' && s[10] == ' ' && s[13] == '.' && s[16] == '.'
      && IsDecimal(s[0..4]) && Value(s[0..4]) == d.year
      && IsDecimal(s[5..7]) && Value(s[5..7]) == d.minute
      && IsDecimal(s[8..10]) && Value(s[8..10]) == d.day
      && IsDecimal(s[11..13]) && Value(s[11..13]) == d.hour
      && IsDecimal(s[14..16]) && Value(s[14..16]) == d.minute
      && IsDecimal(s[17..19]) && Value(s[17..19]) == d.second
  {
    assert Pow10(4) == 10000 && Pow10(2) == 100;
    StampFields(ZeroPad(d.year, 4), ZeroPad(d.minute, 2), ZeroPad(d.day, 2),
                ZeroPad(d.hour, 2), ZeroPad(d.minute, 2), ZeroPad(d.second, 2));
    ZeroPadValue(d.year, 4);
    ZeroPadValue(d.minute, 2);
    ZeroPadValue(d.day, 2);
    ZeroPadValue(d.hour, 2);
    ZeroPadValue(d.second, 2);
  }

  /** The fixed `Y-M-d H.M.S` layout of six rendered fields. */
  function Stamp(y: string, mo: string, d: string, h: string, mi: string, s: string): (r: string)
    requires |y| == 4 && |mo| == 2 && |d| == 2 && |h| == 2 && |mi| == 2 && |s| == 2
    requires IsDecimal(y) && IsDecimal(mo) && IsDecimal(d) && IsDecimal(h) && IsDecimal(mi) && IsDecimal(s)
    ensures |r| == 19 && r[18] == s[1]
    ensures '/' !in r
  {
    DecimalHasNoSeparator(y);
    DecimalHasNoSeparator(mo);
    DecimalHasNoSeparator(d);
    DecimalHasNoSeparator(h);
    DecimalHasNoSeparator(mi);
    DecimalHasNoSeparator(s);
    y + "-" + mo + "-" + d + " " + h + "." + mi + "." + s
  }

  /** Each field of a stamp sits in its fixed columns, between the separators. */
  lemma StampFields(y: string, mo: string, d: string, h: string, mi: string, s: string)
    requires |y| == 4 && |mo| == 2 && |d| == 2 && |h| == 2 && |mi| == 2 && |s| == 2
    requires IsDecimal(y) && IsDecimal(mo) && IsDecimal(d) && IsDecimal(h) && IsDecimal(mi) && IsDecimal(s)
    ensures var r := Stamp(y, mo, d, h, mi, s);
      && r[4] == '-' && r[7] == '-' && r[10] == ' ' && r[13] == '.' && r[16] == '.'
      && r[0..4] == y && r[5..7] == mo && r[8..10] == d && r[11..13] == h && r[14..16] == mi && r[17..19] == s
  {
  }

  /** Two valid datetimes format alike exactly when they agree on every field
      but the month: the rendering loses the month. */
  lemma FormatIgnoresMonth(a: DateTime, b: DateTime)
    requires Valid(a) && Valid(b)
    ensures Format(a) == Format(b) <==>
      a.year == b.year && a.day == b.day && a.hour == b.hour && a.minute == b.minute && a.second == b.second
  {
    FormatFields(a);
    FormatFields(b);
    if Format(a) == Format(b) {
      var s := Format(a);
      assert Value(s[0..4]) == a.year && Value(s[0..4]) == b.year;
      assert Value(s[8..10]) == a.day && Value(s[8..10]) == b.day;
      assert Value(s[11..13]) == a.hour && Value(s[11..13]) == b.hour;
      assert Value(s[14..16]) == a.minute && Value(s[14..16]) == b.minute;
      assert Value(s[17..19]) == a.second && Value(s[17..19]) == b.second;
    }
  }
}
