/** Timestamps as pandas holds them after `pd.to_datetime`, and their rendering as
    an ISO calendar date (`Timestamp.date().isoformat()`), in the proleptic
    Gregorian calendar. */
module Calendar {
  import opened Wrappers

  const SecondsPerDay := 86400
  /** The range of pandas' `datetime64[ns]`, to the second (1677-09-21 .. 2262-04-11). */
  const MinSeconds := -9223372036
  const MaxSeconds := 9223372036

  /** A parsed date/time value: whole seconds since 1970-01-01T00:00:00. */
  type Timestamp = t: int | MinSeconds <= t <= MaxSeconds

  datatype Date = Date(year: int, month: int, day: int)

  predicate IsLeap(y: int)
  {
    y % 4 == 0 && (y % 100 != 0 || y % 400 == 0)
  }

  function YearLength(y: int): int
  {
    if IsLeap(y) then 366 else 365
  }

  function MonthLength(y: int, m: int): int
    requires 1 <= m <= 12
  {
    if m == 2 then (if IsLeap(y) then 29 else 28)
    else if m == 4 || m == 6 || m == 9 || m == 11 then 30
    else 31
  }

  /** Days of year `y` that precede the first of month `m`. */
  function DaysBeforeMonth(y: int, m: int): int
    requires 1 <= m <= 12
  {
    (if m == 1 then 0 else if m == 2 then 31 else if m == 3 then 59
     else if m == 4 then 90 else if m == 5 then 120 else if m == 6 then 151
     else if m == 7 then 181 else if m == 8 then 212 else if m == 9 then 243
     else if m == 10 then 273 else if m == 11 then 304 else 334)
    + (if m > 2 && IsLeap(y) then 1 else 0)
  }

  lemma MonthStep(y: int, m: int)
    requires 1 <= m < 12
    ensures DaysBeforeMonth(y, m + 1) == DaysBeforeMonth(y, m) + MonthLength(y, m)
  {
  }

  lemma YearEnd(y: int)
    ensures DaysBeforeMonth(y, 12) + MonthLength(y, 12) == YearLength(y)
  {
  }

  /** Days from 1970-01-01 to the first of January of year `y` (negative before 1970). */
  function DaysBeforeYear(y: int): int
    decreases if y < 1970 then 1970 - y else y - 1970
  {
    if y == 1970 then 0
    else if y > 1970 then DaysBeforeYear(y - 1) + YearLength(y - 1)
    else DaysBeforeYear(y + 1) - YearLength(y)
  }

  lemma YearStep(y: int)
    ensures DaysBeforeYear(y + 1) == DaysBeforeYear(y) + YearLength(y)
  {
  }

  predicate ValidDate(d: Date)
  {
    1 <= d.month <= 12 && 1 <= d.day <= MonthLength(d.year, d.month)
  }

  /** The number of days from 1970-01-01 to `d`. */
  function DayNumber(d: Date): int
    requires ValidDate(d)
  {
    DaysBeforeYear(d.year) + DaysBeforeMonth(d.year, d.month) + d.day - 1
  }

  /** The year holding day `z`, searched upwards from year `y`. */
  function YearUp(z: int, y: int): (r: int)
    requires DaysBeforeYear(y) <= z
    ensures DaysBeforeYear(r) <= z < DaysBeforeYear(r) + YearLength(r)
    decreases z - DaysBeforeYear(y)
  {
    YearStep(y);
    if z < DaysBeforeYear(y) + YearLength(y) then y else YearUp(z, y + 1)
  }

  /** The year holding day `z`, searched downwards from year `y`. */
  function YearDown(z: int, y: int): (r: int)
    requires z < DaysBeforeYear(y) + YearLength(y)
    ensures DaysBeforeYear(r) <= z < DaysBeforeYear(r) + YearLength(r)
    decreases DaysBeforeYear(y) - z
  {
    YearStep(y - 1);
    if DaysBeforeYear(y) <= z then y else YearDown(z, y - 1)
  }

  function YearOf(z: int): (r: int)
    ensures DaysBeforeYear(r) <= z < DaysBeforeYear(r) + YearLength(r)
  {
    YearStep(1969);
    if z >= 0 then YearUp(z, 1970) else YearDown(z, 1969)
  }

  /** The month of year `y` holding day-of-year `doy`, searched from month `m`. */
  function MonthOf(y: int, doy: int, m: int): (r: int)
    requires 1 <= m <= 12 && DaysBeforeMonth(y, m) <= doy < YearLength(y)
    ensures m <= r <= 12
    ensures DaysBeforeMonth(y, r) <= doy < DaysBeforeMonth(y, r) + MonthLength(y, r)
    decreases 12 - m
  {
    YearEnd(y);
    if doy < DaysBeforeMonth(y, m) + MonthLength(y, m) then m
    else MonthStep(y, m); MonthOf(y, doy, m + 1)
  }

  /** The calendar date of day number `z`: what `Timestamp.date()` keeps. */
  function CivilFromDays(z: int): (d: Date)
    ensures ValidDate(d) && DayNumber(d) == z
  {
    var y := YearOf(z);
    var doy := z - DaysBeforeYear(y);
    var m := MonthOf(y, doy, 1);
    Date(y, m, doy - DaysBeforeMonth(y, m) + 1)
  }

  lemma {:induction false} DaysBeforeYearBounds(y: int)
    ensures y >= 1970 ==> DaysBeforeYear(y) >= 365 * (y - 1970)
    ensures y <= 1970 ==> DaysBeforeYear(y) <= 365 * (y - 1970)
    decreases if y < 1970 then 1970 - y else y - 1970
  {
    if y > 1970 {
      DaysBeforeYearBounds(y - 1);
    } else if y < 1970 {
      DaysBeforeYearBounds(y + 1);
    }
  }

  /** Every timestamp pandas can hold lies between the years 1677 and 2262. */
  lemma StampYear(t: Timestamp)
    ensures 1677 <= CivilFromDays(t / SecondsPerDay).year <= 2262
  {
    var z := t / SecondsPerDay;
    assert -106752 <= z <= 106751;
    var y := CivilFromDays(z).year;
    assert DaysBeforeYear(y) <= z < DaysBeforeYear(y + 1) by { YearStep(y); }
    DaysBeforeYearBounds(y);
    DaysBeforeYearBounds(y + 1);
  }

  function Pow10(n: nat): nat
  {
    if n == 0 then 1 else 10 * Pow10(n - 1)
  }

  lemma Pow10Values()
    ensures Pow10(2) == 100 && Pow10(4) == 10000
  {
    assert Pow10(1) == 10;
    assert Pow10(3) == 1000;
  }

  predicate IsDigit(c: char)
  {
    '0' <= c <= '9'
  }

  function DigitChar(k: int): (c: char)
    requires 0 <= k <= 9
    ensures IsDigit(c)
  {
    ('0' as int + k) as char
  }

  /** `n` in decimal, zero-padded to `w` digits (Python's `%0wd`). */
  function Padded(n: nat, w: nat): (s: string)
    requires n < Pow10(w)
    ensures |s| == w && forall i :: 0 <= i < w ==> IsDigit(s[i])
  {
    if w == 0 then "" else Padded(n / 10, w - 1) + [DigitChar(n % 10)]
  }

  /** The value of a string of decimal digits. */
  function DigitsValue(s: string): int
  {
    if s == [] then 0 else 10 * DigitsValue(s[..|s| - 1]) + (s[|s| - 1] as int - '0' as int)
  }

  lemma {:induction false} PaddedRoundTrip(n: nat, w: nat)
    requires n < Pow10(w)
    ensures DigitsValue(Padded(n, w)) == n
  {
    if w > 0 {
      PaddedRoundTrip(n / 10, w - 1);
      var s := Padded(n, w);
      assert s[..|s| - 1] == Padded(n / 10, w - 1);
    }
  }

  predicate FourDigitYear(d: Date)
  {
    0 <= d.year <= 9999
  }

  /** `date.isoformat()`: "YYYY-MM-DD". */
  function IsoDate(d: Date): (s: string)
    requires ValidDate(d) && FourDigitYear(d)
    ensures |s| == 10 && s[4] == '-' && s[7] == '-'
    ensures forall i :: 0 <= i < 10 && i != 4 && i != 7 ==> IsDigit(s[i])
  {
    Pow10Values();
    Padded(d.year, 4) + "-" + Padded(d.month, 2) + "-" + Padded(d.day, 2)
  }

  /** Reads back the year, month and day of a "YYYY-MM-DD" string. */
  function ParseIsoDate(s: string): Date
    requires |s| == 10
  {
    Date(DigitsValue(s[..4]), DigitsValue(s[5..7]), DigitsValue(s[8..]))
  }

  lemma IsoDateRoundTrip(d: Date)
    requires ValidDate(d) && FourDigitYear(d)
    ensures ParseIsoDate(IsoDate(d)) == d
  {
    Pow10Values();
    var y, m, dd := Padded(d.year, 4), Padded(d.month, 2), Padded(d.day, 2);
    var s := IsoDate(d);
    assert s == y + "-" + m + "-" + dd;
    assert s[..4] == y && s[5..7] == m && s[8..] == dd;
    PaddedRoundTrip(d.year, 4);
    PaddedRoundTrip(d.month, 2);
    PaddedRoundTrip(d.day, 2);
  }

  /** `fmt_fecha`: a missing date is "s/f"; any other is the ISO calendar date of
      its day, the time of day dropped. */
  function FormatDate(t: Option<Timestamp>): (s: string)
    ensures t.None? ==> s == "s/f"
    ensures t.Some? ==> |s| == 10 && ParseIsoDate(s) == CivilFromDays(t.value / SecondsPerDay)
    ensures t.Some? ==> s[4] == '-' && s[7] == '-'
    ensures t.Some? ==> forall i :: 0 <= i < 10 && i != 4 && i != 7 ==> IsDigit(s[i])
  {
    match t
    case None => "s/f"
    case Some(v) =>
      var d := CivilFromDays(v / SecondsPerDay);
      StampYear(v);
      IsoDateRoundTrip(d);
      IsoDate(d)
  }

  /** Two timestamps render alike exactly when they fall on the same day, and a
      rendered date is never mistaken for a missing one. */
  lemma FormatDateSameDay(a: Timestamp, b: Timestamp)
    ensures FormatDate(Some(a)) == FormatDate(Some(b)) <==> a / SecondsPerDay == b / SecondsPerDay
    ensures FormatDate(Some(a)) != FormatDate(None)
  {
  }
}
