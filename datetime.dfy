/**
 * `pd.to_datetime(..., errors='coerce')` for the dataset's timestamp format
 * "YYYY-MM-DD HH:MM:SS": a string becomes whole seconds since 1970-01-01
 * 00:00:00 on the proleptic Gregorian calendar, or nothing when it is not a
 * real date and time or lies outside what a nanosecond Timestamp can hold.
 */
module Datetime {
  import opened Wrappers
  import opened Strings

  const SecondsPerDay: int := 86400

  /** The range of a pandas Timestamp (signed 64-bit nanoseconds since the epoch), in whole seconds. */
  const MinSeconds: int := -9223372036
  const MaxSeconds: int := 9223372036

  datatype Civil = Civil(year: nat, month: nat, day: nat, hour: nat, minute: nat, second: nat)

  predicate IsLeapYear(y: nat) {
    y % 4 == 0 && (y % 100 != 0 || y % 400 == 0)
  }

  function DaysInYear(y: nat): nat {
    if IsLeapYear(y) then 366 else 365
  }

  function DaysInMonth(y: nat, m: nat): nat
    requires 1 <= m <= 12
  {
    if m == 2 then (if IsLeapYear(y) then 29 else 28)
    else if m == 4 || m == 6 || m == 9 || m == 11 then 30
    else 31
  }

  /** Days of year `y` before the first of month `m` (`m == 13` gives the whole year). */
  function DaysBeforeMonth(y: nat, m: nat): nat
    requires 1 <= m <= 13
  {
    var leap := if m > 2 && IsLeapYear(y) then 1 else 0;
    [0, 31, 59, 90, 120, 151, 181, 212, 243, 273, 304, 334, 365][m - 1] + leap
  }

  /** Days from 0000-01-01 to the first of January of year `y`. */
  function DaysBeforeYear(y: nat): nat {
    if y == 0 then 0 else DaysBeforeYear(y - 1) + DaysInYear(y - 1)
  }

  predicate IsValid(c: Civil) {
    && 1 <= c.month <= 12
    && 1 <= c.day <= DaysInMonth(c.year, c.month)
    && c.hour < 24 && c.minute < 60 && c.second < 60
  }

  /** Days since 1970-01-01 of the calendar date of `c`. */
  function DayNumber(c: Civil): int
    requires IsValid(c)
  {
    DaysBeforeYear(c.year) - DaysBeforeYear(1970) + DaysBeforeMonth(c.year, c.month) + c.day - 1
  }

  function EpochSeconds(c: Civil): int
    requires IsValid(c)
  {
    DayNumber(c) * SecondsPerDay + c.hour * 3600 + c.minute * 60 + c.second
  }

  /** Strictly earlier, field by field from the year down to the second. */
  predicate Before(a: Civil, b: Civil) {
    || a.year < b.year
    || (a.year == b.year && a.month < b.month)
    || (a.year == b.year && a.month == b.month && a.day < b.day)
    || (a.year == b.year && a.month == b.month && a.day == b.day && a.hour < b.hour)
    || (a.year == b.year && a.month == b.month && a.day == b.day && a.hour == b.hour && a.minute < b.minute)
    || (a.year == b.year && a.month == b.month && a.day == b.day && a.hour == b.hour && a.minute == b.minute
        && a.second < b.second)
  }

  /** The positions of the five separators of "YYYY-MM-DD HH:MM:SS". */
  predicate IsSeparatorPosition(i: int) {
    i == 4 || i == 7 || i == 10 || i == 13 || i == 16
  }

  predicate IsWellFormed(s: string) {
    && |s| == 19
    && s[4] == '-' && s[7] == '-' && s[10] == ' ' && s[13] == ':' && s[16] == ':'
    && forall i :: 0 <= i < 19 && !IsSeparatorPosition(i) ==> IsDigit(s[i])
  }

  function Field(s: string, lo: nat, hi: nat): nat
    requires IsWellFormed(s)
    requires lo <= hi <= 19 && forall i :: lo <= i < hi ==> !IsSeparatorPosition(i)
  {
    assert AllDigits(s[lo..hi]) by {
      forall i | 0 <= i < hi - lo ensures IsDigit(s[lo..hi][i]) {
        assert s[lo..hi][i] == s[lo + i];
      }
    }
    Number(s[lo..hi])
  }

  function Fields(s: string): Civil
    requires IsWellFormed(s)
  {
    Civil(Field(s, 0, 4), Field(s, 5, 7), Field(s, 8, 10), Field(s, 11, 13), Field(s, 14, 16), Field(s, 17, 19))
  }

  /** A timestamp cell's text as pandas parses it; `None` is what `errors='coerce'` turns into NaT. */
  function ParseDatetime(s: string): (r: Option<int>)
    ensures r.Some? ==> IsWellFormed(s) && IsValid(Fields(s)) && r.value == EpochSeconds(Fields(s))
    ensures r.Some? ==> MinSeconds <= r.value <= MaxSeconds
    ensures r.None? ==> !IsWellFormed(s) || !IsValid(Fields(s))
                        || !(MinSeconds <= EpochSeconds(Fields(s)) <= MaxSeconds)
  {
    if IsWellFormed(s) && IsValid(Fields(s)) && MinSeconds <= EpochSeconds(Fields(s)) <= MaxSeconds
    then Some(EpochSeconds(Fields(s)))
    else None
  }

  /** The calendar day (days since the epoch) of an instant, as `resample('D')` floors it. */
  function DayOf(t: int): int {
    t / SecondsPerDay
  }

  /** The day of a parsed timestamp is the date written in it. */
  lemma DayOfParsed(s: string)
    requires ParseDatetime(s).Some?
    ensures DayOf(ParseDatetime(s).value) == DayNumber(Fields(s))
  {
    var c := Fields(s);
    var tod := c.hour * 3600 + c.minute * 60 + c.second;
    assert 0 <= tod < SecondsPerDay;
    assert EpochSeconds(c) == DayNumber(c) * SecondsPerDay + tod;
  }

  lemma {:induction false} DaysBeforeYearMonotone(a: nat, b: nat)
    requires a < b
    ensures DaysBeforeYear(a) + DaysInYear(a) <= DaysBeforeYear(b)
    decreases b
  {
    if a < b - 1 {
      DaysBeforeYearMonotone(a, b - 1);
    }
  }

  lemma DaysBeforeMonthStep(y: nat, m: nat)
    requires 1 <= m <= 12
    ensures DaysBeforeMonth(y, m) + DaysInMonth(y, m) == DaysBeforeMonth(y, m + 1)
  {
  }

  lemma {:induction false} DaysBeforeMonthMonotone(y: nat, a: nat, b: nat)
    requires 1 <= a < b <= 13
    ensures DaysBeforeMonth(y, a) + DaysInMonth(y, a) <= DaysBeforeMonth(y, b)
    decreases b - a
  {
    DaysBeforeMonthStep(y, a);
    if a + 1 < b {
      DaysBeforeMonthMonotone(y, a + 1, b);
    }
  }

  lemma DayNumberMonotone(a: Civil, b: Civil)
    requires IsValid(a) && IsValid(b)
    requires a.year < b.year || (a.year == b.year && a.month < b.month)
          || (a.year == b.year && a.month == b.month && a.day < b.day)
    ensures DayNumber(a) < DayNumber(b)
  {
    if a.year < b.year {
      DaysBeforeYearMonotone(a.year, b.year);
      if a.month < 12 {
        DaysBeforeMonthMonotone(a.year, a.month, 13);
      } else {
        DaysBeforeMonthStep(a.year, 12);
      }
    } else if a.month < b.month {
      DaysBeforeMonthMonotone(a.year, a.month, b.month);
    }
  }

  /** Later calendar fields mean a later instant. */
  lemma EpochSecondsMonotone(a: Civil, b: Civil)
    requires IsValid(a) && IsValid(b) && Before(a, b)
    ensures EpochSeconds(a) < EpochSeconds(b)
  {
    if a.year != b.year || a.month != b.month || a.day != b.day {
      DayNumberMonotone(a, b);
    }
  }

  /** A field in which two well-formed strings first differ compares like the strings. */
  lemma FieldLess(a: string, b: string, k: nat, lo: nat, hi: nat)
    requires IsWellFormed(a) && IsWellFormed(b)
    requires lo <= k < hi <= 19 && forall i :: lo <= i < hi ==> !IsSeparatorPosition(i)
    requires a[..k] == b[..k] && a[k] < b[k]
    ensures Field(a, lo, hi) < Field(b, lo, hi)
  {
    var x, y := a[lo..hi], b[lo..hi];
    assert x[..k - lo] == y[..k - lo] by {
      forall i | 0 <= i < k - lo ensures x[i] == y[i] {
        assert x[i] == a[..k][lo + i] && y[i] == b[..k][lo + i];
      }
    }
    assert x[k - lo] == a[k] && y[k - lo] == b[k];
    NumberStrictlyMonotone(x, y, k - lo);
  }

  /** A field wholly before the first difference is the same in both strings. */
  lemma FieldSame(a: string, b: string, k: nat, lo: nat, hi: nat)
    requires IsWellFormed(a) && IsWellFormed(b)
    requires lo <= hi <= k <= 19 && forall i :: lo <= i < hi ==> !IsSeparatorPosition(i)
    requires a[..k] == b[..k]
    ensures Field(a, lo, hi) == Field(b, lo, hi)
  {
    assert a[lo..hi] == a[..k][lo..hi] == b[..k][lo..hi] == b[lo..hi];
  }

  /** On well-formed strings the string order is the calendar order. */
  lemma FieldsBefore(a: string, b: string)
    requires IsWellFormed(a) && IsWellFormed(b) && StrLe(a, b) && a != b
    ensures Before(Fields(a), Fields(b))
  {
    var k := FirstDifference(a, b);
    assert !IsSeparatorPosition(k);
    if k < 4 {
      FieldLess(a, b, k, 0, 4);
    } else if k < 7 {
      FieldSame(a, b, k, 0, 4);
      FieldLess(a, b, k, 5, 7);
    } else if k < 10 {
      FieldSame(a, b, k, 0, 4); FieldSame(a, b, k, 5, 7);
      FieldLess(a, b, k, 8, 10);
    } else if k < 13 {
      FieldSame(a, b, k, 0, 4); FieldSame(a, b, k, 5, 7); FieldSame(a, b, k, 8, 10);
      FieldLess(a, b, k, 11, 13);
    } else if k < 16 {
      FieldSame(a, b, k, 0, 4); FieldSame(a, b, k, 5, 7); FieldSame(a, b, k, 8, 10);
      FieldSame(a, b, k, 11, 13);
      FieldLess(a, b, k, 14, 16);
    } else {
      FieldSame(a, b, k, 0, 4); FieldSame(a, b, k, 5, 7); FieldSame(a, b, k, 8, 10);
      FieldSame(a, b, k, 11, 13); FieldSame(a, b, k, 14, 16);
      FieldLess(a, b, k, 17, 19);
    }
  }

  /**
   * Sorting the raw strings sorts the instants they denote: whenever two cells
   * both parse, the string order agrees with the time order.
   */
  lemma ParseMonotone(a: string, b: string)
    requires ParseDatetime(a).Some? && ParseDatetime(b).Some? && StrLe(a, b)
    ensures ParseDatetime(a).value <= ParseDatetime(b).value
  {
    if a != b {
      FieldsBefore(a, b);
      EpochSecondsMonotone(Fields(a), Fields(b));
    }
  }
}
