// `GetGMTTime`: epoch seconds rendered as `%F %T` ("YYYY-MM-DD HH:MM:SS") in
// UTC. The conversion walks years and months forward from 1970; its partner
// is the closed formula of POSIX.1-2017 Base Definitions section 4.16
// ("Seconds Since the Epoch"), which maps a broken-down UTC time back to
// seconds. Leap seconds do not exist in that formula, and none here.
module Utc {
  import opened Bytes
  import opened Text

  predicate IsLeap(y: int) { y % 4 == 0 && (y % 100 != 0 || y % 400 == 0) }

  /** Days in a year, leap or common. */
  function YearLength(leap: bool): nat { if leap then 366 else 365 }

  function DaysInYear(y: int): nat { YearLength(IsLeap(y)) }

  /** Days in month `m` (1..12) of a leap or a common year. */
  function DaysInMonth(leap: bool, m: int): nat
    requires 1 <= m <= 12
  {
    if m == 2 then (if leap then 29 else 28)
    else if m == 4 || m == 6 || m == 9 || m == 11 then 30
    else 31
  }

  /** Days of a leap or common year before the first of month `m`. */
  function DaysBeforeMonth(leap: bool, m: int): nat
    requires 1 <= m <= 12
  {
    if m == 1 then 0 else DaysBeforeMonth(leap, m - 1) + DaysInMonth(leap, m - 1)
  }

  /** Days before month `m` in a common year. */
  function CommonDaysBefore(m: int): nat
    requires 1 <= m <= 12
  {
    if m == 1 then 0 else if m == 2 then 31 else if m == 3 then 59 else if m == 4 then 90
    else if m == 5 then 120 else if m == 6 then 151 else if m == 7 then 181
    else if m == 8 then 212 else if m == 9 then 243 else if m == 10 then 273
    else if m == 11 then 304 else 334
  }

  lemma {:induction false} DaysBeforeMonthTable(leap: bool, m: int)
    requires 1 <= m <= 12
    ensures DaysBeforeMonth(leap, m) == CommonDaysBefore(m) + if m > 2 && leap then 1 else 0
    decreases m
  {
    if m > 1 {
      DaysBeforeMonthTable(leap, m - 1);
    }
  }

  lemma {:induction false} DaysBeforeMonthBound(leap: bool, m: int)
    requires 1 <= m <= 12
    ensures DaysBeforeMonth(leap, m) + DaysInMonth(leap, m) <= YearLength(leap)
    ensures m == 12 ==> DaysBeforeMonth(leap, m) + DaysInMonth(leap, m) == YearLength(leap)
    decreases 12 - m
  {
    if m == 12 {
      DaysBeforeMonthTable(leap, 12);
    } else {
      DaysBeforeMonthBound(leap, m + 1);
      assert DaysBeforeMonth(leap, m + 1) == DaysBeforeMonth(leap, m) + DaysInMonth(leap, m);
    }
  }

  /** A broken-down UTC time, as `gmtime` fills `struct tm` (month 1..12, day 1..31). */
  datatype DateTime = DateTime(year: int, month: int, day: int, hour: int, minute: int, second: int)

  predicate Valid(d: DateTime)
  {
    1970 <= d.year && 1 <= d.month <= 12 && 1 <= d.day <= DaysInMonth(IsLeap(d.year), d.month)
    && 0 <= d.hour < 24 && 0 <= d.minute < 60 && 0 <= d.second < 60
  }

  /** `tm_yday`: days since January 1 of the same year. */
  function DayOfYear(d: DateTime): nat
    requires Valid(d)
  {
    DaysBeforeMonth(IsLeap(d.year), d.month) + d.day - 1
  }

  /**
   * The reference formula of POSIX.1-2017 section 4.16, with
   * tm_year = year - 1900 and the divisions truncating (all operands are
   * positive here, so Dafny's division agrees with C's).
   */
  function PosixSeconds(d: DateTime): int
    requires Valid(d)
  {
    var ty := d.year - 1900;
    d.second + d.minute * 60 + d.hour * 3600 + DayOfYear(d) * 86400
    + (ty - 70) * 31536000 + ((ty - 69) / 4) * 86400
    - ((ty - 1) / 100) * 86400 + ((ty + 299) / 400) * 86400
  }

  /** Days from 1970-01-01 to January 1 of year `y`, year by year. */
  function DaysSinceEpoch(y: int): nat
    requires y >= 1970
    decreases y
  {
    if y == 1970 then 0 else DaysSinceEpoch(y - 1) + DaysInYear(y - 1)
  }

  /** The leap-day terms of the POSIX formula, in days, for tm_year = y - 1900. */
  function LeapDays(y: int): int
  {
    var ty := y - 1900;
    (ty - 69) / 4 - (ty - 1) / 100 + (ty + 299) / 400
  }

  lemma Div4Step(x: int)
    ensures (x - 1968) / 4 == (x - 1969) / 4 + (if x % 4 == 0 then 1 else 0)
  {
  }

  lemma Div100Step(x: int)
    ensures (x - 1900) / 100 == (x - 1901) / 100 + (if x % 100 == 0 then 1 else 0)
  {
  }

  lemma Div400Step(x: int)
    ensures (x - 1600) / 400 == (x - 1601) / 400 + (if x % 400 == 0 then 1 else 0)
  {
  }

  /** Going from year `x` to year `x + 1`, the leap terms grow by one exactly when `x` is a leap year. */
  lemma LeapDaysStep(x: int)
    ensures LeapDays(x + 1) == LeapDays(x) + (if IsLeap(x) then 1 else 0)
  {
    Div4Step(x);
    Div100Step(x);
    Div400Step(x);
    Divides(x);
  }

  /** Multiples of 400 are multiples of 100, and multiples of 100 are multiples of 4. */
  lemma Divides(x: int)
    ensures x % 400 == 0 ==> x % 100 == 0
    ensures x % 100 == 0 ==> x % 4 == 0
  {
    if x % 400 == 0 {
      var k := x / 400;
      assert x == 100 * (4 * k);
    }
    if x % 100 == 0 {
      var k := x / 100;
      assert x == 4 * (25 * k);
    }
  }

  /** Counting years one by one gives the leap-year terms of the POSIX formula. */
  lemma {:induction false} DaysSinceEpochClosed(y: int)
    requires y >= 1970
    ensures DaysSinceEpoch(y) == (y - 1970) * 365 + LeapDays(y)
    decreases y
  {
    if y > 1970 {
      DaysSinceEpochClosed(y - 1);
      LeapDaysStep(y - 1);
    }
  }

  lemma {:induction false} DaysSinceEpochGrows(y: int)
    requires y >= 1970
    ensures DaysSinceEpoch(y) >= (y - 1970) * 365
    decreases y
  {
    if y > 1970 {
      DaysSinceEpochGrows(y - 1);
    }
  }

  /** A year and a day within it, counted from 0. */
  datatype YearDay = YearDay(year: int, yday: nat)

  /** A month and a day within it, counted from 0. */
  datatype MonthDay = MonthDay(month: int, mday: nat)

  /** The year holding day `days` counted from January 1 of `y`, and the day within it. */
  function YearOf(days: nat, y: int): (r: YearDay)
    requires y >= 1970
    ensures y <= r.year && r.yday < DaysInYear(r.year)
    ensures DaysSinceEpoch(r.year) + r.yday == DaysSinceEpoch(y) + days
    decreases days
  {
    if days < DaysInYear(y) then YearDay(y, days)
    else
      var r := YearOf(days - DaysInYear(y), y + 1);
      assert DaysSinceEpoch(y + 1) == DaysSinceEpoch(y) + DaysInYear(y);
      r
  }

  /** The month holding day `yday` counted from the first of month `m`, and the day within it. */
  function MonthOf(yday: nat, leap: bool, m: int): (r: MonthDay)
    requires 1 <= m <= 12 && DaysBeforeMonth(leap, m) + yday < YearLength(leap)
    ensures m <= r.month <= 12 && r.mday < DaysInMonth(leap, r.month)
    ensures DaysBeforeMonth(leap, r.month) + r.mday == DaysBeforeMonth(leap, m) + yday
    decreases 12 - m
  {
    DaysBeforeMonthBound(leap, m);
    if m == 12 || yday < DaysInMonth(leap, m) then MonthDay(m, yday)
    else MonthOf(yday - DaysInMonth(leap, m), leap, m + 1)
  }

  /** What `gmtime` computes for `seconds` after the epoch. */
  function ToUtc(seconds: nat): (d: DateTime)
    ensures Valid(d)
  {
    var secs := seconds % 86400;
    var yd := YearOf(seconds / 86400, 1970);
    var md := MonthOf(yd.yday, IsLeap(yd.year), 1);
    DateTime(yd.year, md.month, md.mday + 1, secs / 3600, secs % 3600 / 60, secs % 60)
  }

  /** The conversion is right: the POSIX formula maps its result back to the same second. */
  lemma ToUtcIsPosix(seconds: nat)
    ensures PosixSeconds(ToUtc(seconds)) == seconds
  {
    var d := ToUtc(seconds);
    var days, secs := seconds / 86400, seconds % 86400;
    DaysSinceEpochClosed(d.year);
    assert DaysSinceEpoch(d.year) + DayOfYear(d) == days;
    assert d.second + d.minute * 60 + d.hour * 3600 == secs;
  }

  /** Day `x` counted from January 1 of `y0` that lies in year `y` is found there. */
  lemma {:induction false} YearOfEpochDays(y0: int, y: int, yd: nat, x: int)
    requires 1970 <= y0 <= y && yd < DaysInYear(y)
    requires x == DaysSinceEpoch(y) - DaysSinceEpoch(y0) + yd
    ensures x >= 0 && YearOf(x, y0) == YearDay(y, yd)
    decreases y - y0
  {
    DaysSinceEpochMonotone(y0, y);
    if y0 < y {
      var x' := DaysSinceEpoch(y) - DaysSinceEpoch(y0 + 1) + yd;
      YearOfEpochDays(y0 + 1, y, yd, x');
      YearOfBack(y0, y, yd, x, x');
    }
  }

  /** One year further back: a day found from year `y0 + 1` is found from `y0` too. */
  lemma YearOfBack(y0: int, y: int, yd: nat, x: int, x': int)
    requires 1970 <= y0 < y && x' >= 0 && yd < DaysInYear(y)
    requires x' == DaysSinceEpoch(y) - DaysSinceEpoch(y0 + 1) + yd
    requires x == DaysSinceEpoch(y) - DaysSinceEpoch(y0) + yd
    requires YearOf(x', y0 + 1) == YearDay(y, yd)
    ensures x >= 0 && YearOf(x, y0) == YearDay(y, yd)
  {
    assert DaysSinceEpoch(y0 + 1) == DaysSinceEpoch(y0) + DaysInYear(y0);
    assert x >= DaysInYear(y0) && x - DaysInYear(y0) == x';
  }

  lemma {:induction false} DaysSinceEpochMonotone(a: int, b: int)
    requires 1970 <= a <= b
    ensures DaysSinceEpoch(a) <= DaysSinceEpoch(b)
    decreases b
  {
    if a < b {
      DaysSinceEpochMonotone(a, b - 1);
    }
  }

  /** A day inside month `m` is found in month `m`. */
  lemma MonthOfHere(leap: bool, m: int, md: nat)
    requires 1 <= m <= 12 && md < DaysInMonth(leap, m)
    ensures DaysBeforeMonth(leap, m) + md < YearLength(leap)
    ensures MonthOf(md, leap, m) == MonthDay(m, md)
  {
    DaysBeforeMonthBound(leap, m);
  }

  /**
   * One month further back: a day found in month `m` when searching from
   * month `m0 + 1` is found there from month `m0` too.
   */
  lemma MonthOfBack(leap: bool, m0: int, m: int, md: nat, x: int, x': int)
    requires 1 <= m0 < m <= 12 && md < DaysInMonth(leap, m) && x' >= 0
    requires x' == DaysBeforeMonth(leap, m) - DaysBeforeMonth(leap, m0 + 1) + md
    requires x == DaysBeforeMonth(leap, m) - DaysBeforeMonth(leap, m0) + md
    requires DaysBeforeMonth(leap, m) + md < YearLength(leap)
    requires MonthOf(x', leap, m0 + 1) == MonthDay(m, md)
    ensures x >= 0 && MonthOf(x, leap, m0) == MonthDay(m, md)
  {
    var dim := DaysInMonth(leap, m0);
    assert DaysBeforeMonth(leap, m0 + 1) == DaysBeforeMonth(leap, m0) + dim;
    assert x >= dim && x - dim == x';
  }

  /** Day `x` counted from the first of month `m0` that lies in month `m` is found there. */
  lemma {:induction false} MonthOfDays(leap: bool, m0: int, m: int, md: nat, x: int)
    requires 1 <= m0 <= m <= 12 && md < DaysInMonth(leap, m)
    requires x == DaysBeforeMonth(leap, m) - DaysBeforeMonth(leap, m0) + md
    ensures DaysBeforeMonth(leap, m) + md < YearLength(leap)
    ensures x >= 0 && MonthOf(x, leap, m0) == MonthDay(m, md)
    decreases m - m0
  {
    if m0 == m {
      MonthOfHere(leap, m, md);
    } else {
      var x' := DaysBeforeMonth(leap, m) - DaysBeforeMonth(leap, m0 + 1) + md;
      MonthOfDays(leap, m0 + 1, m, md, x');
      MonthOfBack(leap, m0, m, md, x, x');
    }
  }

  /** Converse: every valid UTC time from 1970 on is what `ToUtc` gives for its POSIX seconds. */
  lemma {:induction false} PosixIsToUtc(d: DateTime)
    requires Valid(d)
    ensures PosixSeconds(d) >= 0 && ToUtc(PosixSeconds(d)) == d
  {
    PosixSplit(d);
    DaysToUtc(PosixSeconds(d), d);
  }

  /** `ToUtc` maps the whole days and the second of the day of `d` back to `d`. */
  lemma DaysToUtc(s: nat, d: DateTime)
    requires Valid(d)
    requires s == (DaysSinceEpoch(d.year) + DayOfYear(d)) * 86400 + (d.second + d.minute * 60 + d.hour * 3600)
    ensures ToUtc(s) == d
  {
    YearFound(d);
    MonthFound(d);
    ToUtcParts(s, DaysSinceEpoch(d.year) + DayOfYear(d), d.second + d.minute * 60 + d.hour * 3600, d);
  }

  /** The year search finds the year of `d` and its day of the year. */
  lemma YearFound(d: DateTime)
    requires Valid(d)
    ensures YearOf(DaysSinceEpoch(d.year) + DayOfYear(d), 1970) == YearDay(d.year, DayOfYear(d))
  {
    var leap := IsLeap(d.year);
    DaysBeforeMonthBound(leap, d.month);
    assert DayOfYear(d) < YearLength(leap);
    YearOfDays(d.year, DayOfYear(d));
  }

  /** The month search finds the month and the day of `d`. */
  lemma MonthFound(d: DateTime)
    requires Valid(d)
    ensures DayOfYear(d) < YearLength(IsLeap(d.year))
    ensures MonthOf(DayOfYear(d), IsLeap(d.year), 1) == MonthDay(d.month, d.day - 1)
  {
    var leap := IsLeap(d.year);
    MonthOfYday(leap, d.month, d.day - 1);
    assert DayOfYear(d) == DaysBeforeMonth(leap, d.month) + (d.day - 1);
  }

  /** `ToUtc` of a day count and a second of the day that the searches map to `d`. */
  lemma ToUtcParts(s: nat, days: nat, secs: nat, d: DateTime)
    requires s == days * 86400 + secs && Valid(d) && secs == d.second + d.minute * 60 + d.hour * 3600
    requires YearOf(days, 1970) == YearDay(d.year, DayOfYear(d))
    requires MonthOf(DayOfYear(d), IsLeap(d.year), 1) == MonthDay(d.month, d.day - 1)
    ensures ToUtc(s) == d
  {
    DivMod(s, days, secs, 86400);
    TimeOfDay(d.hour, d.minute, d.second);
    assert ToUtc(s) == DateTime(d.year, d.month, d.day, secs / 3600, secs % 3600 / 60, secs % 60);
  }

  /** The search from 1970 finds the year and day that a day count was built from. */
  lemma YearOfDays(y: int, yd: nat)
    requires 1970 <= y && yd < DaysInYear(y)
    ensures YearOf(DaysSinceEpoch(y) + yd, 1970) == YearDay(y, yd)
  {
    assert DaysSinceEpoch(1970) == 0;
    YearOfEpochDays(1970, y, yd, DaysSinceEpoch(y) + yd);
  }

  /** The search from January finds the month and day that a day of the year was built from. */
  lemma MonthOfYday(leap: bool, m: int, md: nat)
    requires 1 <= m <= 12 && md < DaysInMonth(leap, m)
    ensures DaysBeforeMonth(leap, m) + md < YearLength(leap)
    ensures MonthOf(DaysBeforeMonth(leap, m) + md, leap, 1) == MonthDay(m, md)
  {
    assert DaysBeforeMonth(leap, 1) == 0;
    MonthOfDays(leap, 1, m, md, DaysBeforeMonth(leap, m) + md);
  }

  /** The POSIX formula is whole days since the epoch plus the seconds of the day. */
  lemma PosixSplit(d: DateTime)
    requires Valid(d)
    ensures PosixSeconds(d)
      == (DaysSinceEpoch(d.year) + DayOfYear(d)) * 86400 + (d.second + d.minute * 60 + d.hour * 3600)
  {
    DaysSinceEpochClosed(d.year);
  }

  /** Division by a positive constant, given quotient and remainder. */
  lemma DivMod(s: int, q: int, r: int, k: int)
    requires k > 0 && s == q * k + r && 0 <= r < k
    ensures s / k == q && s % k == r
  {
    var q', r' := s / k, s % k;
    assert q' * k + r' == q * k + r;
    MulStep(q', q, k);
    MulStep(q, q', k);
  }

  lemma MulStep(a: int, b: int, k: nat)
    ensures a > b ==> a * k >= b * k + k
  {
    if a > b {
      var c := a - b - 1;
      assert c * k >= 0;
      assert a * k == (c + b + 1) * k == c * k + b * k + k;
    }
  }

  lemma TimeOfDay(h: int, m: int, s: int)
    requires 0 <= h < 24 && 0 <= m < 60 && 0 <= s < 60
    ensures var t := s + m * 60 + h * 3600; t / 3600 == h && t % 3600 / 60 == m && t % 60 == s
  {
    var t := s + m * 60 + h * 3600;
    DivMod(t, h, m * 60 + s, 3600);
    DivMod(m * 60 + s, m, s, 60);
    DivMod(t, h * 60 + m, s, 60);
  }

  /** Within the range of a 32-bit timestamp the year has four digits. */
  lemma ToUtcYearBound(seconds: uint32)
    ensures 1970 <= ToUtc(seconds).year <= 2106
  {
    var d := ToUtc(seconds);
    DaysSinceEpochGrows(d.year);
    ToUtcIsPosix(seconds);
    DaysSinceEpochClosed(d.year);
  }

  /** `GetGMTTime`: the `%F %T` text of `seconds`, in UTC. */
  function GmtText(seconds: uint32): (s: string)
    ensures |s| == 19
  {
    ToUtcYearBound(seconds);
    var d := ToUtc(seconds);
    Pad4(d.year) + "-" + Pad2(d.month) + "-" + Pad2(d.day) + " "
    + Pad2(d.hour) + ":" + Pad2(d.minute) + ":" + Pad2(d.second)
  }

  /** The text holds each field of the UTC time at the fixed columns of `%F %T`. */
  lemma GmtTextFields(seconds: uint32)
    ensures var s, d := GmtText(seconds), ToUtc(seconds);
      && s[4] == '-' && s[7] == '-' && s[10] == ' ' && s[13] == ':' && s[16] == ':'
      && AllDigits(s[..4]) && DecValue(s[..4]) == d.year
      && AllDigits(s[5..7]) && DecValue(s[5..7]) == d.month
      && AllDigits(s[8..10]) && DecValue(s[8..10]) == d.day
      && AllDigits(s[11..13]) && DecValue(s[11..13]) == d.hour
      && AllDigits(s[14..16]) && DecValue(s[14..16]) == d.minute
      && AllDigits(s[17..19]) && DecValue(s[17..19]) == d.second
  {
    ToUtcYearBound(seconds);
    var s, d := GmtText(seconds), ToUtc(seconds);
    assert s[..4] == Pad4(d.year);
    assert s[5..7] == Pad2(d.month);
    assert s[8..10] == Pad2(d.day);
    assert s[11..13] == Pad2(d.hour);
    assert s[14..16] == Pad2(d.minute);
    assert s[17..19] == Pad2(d.second);
  }
}
