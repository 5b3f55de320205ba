/** The Gregorian calendar in UTC, with the operations of Go's `time` package that the cron search uses. */
module Calendar {

  datatype Time = Time(year: int, month: int, day: int, hour: int, minute: int, second: int, nano: int)

  predicate Leap(y: int) {
    y % 4 == 0 && (y % 100 != 0 || y % 400 == 0)
  }

  function DaysIn(y: int, m: int): int {
    if m == 2 then (if Leap(y) then 29 else 28)
    else if m == 4 || m == 6 || m == 9 || m == 11 then 30
    else 31
  }

  predicate Valid(t: Time) {
    && 1 <= t.month <= 12 && 1 <= t.day <= DaysIn(t.year, t.month)
    && 0 <= t.hour < 24 && 0 <= t.minute < 60 && 0 <= t.second < 60 && 0 <= t.nano < 1_000_000_000
  }

  // ---------------------------------------------------------------- order

  predicate DateLt(a: Time, b: Time) {
    a.year < b.year || (a.year == b.year && (a.month < b.month || (a.month == b.month && a.day < b.day)))
  }

  predicate SameDate(a: Time, b: Time) {
    a.year == b.year && a.month == b.month && a.day == b.day
  }

  predicate Lt(a: Time, b: Time) {
    || DateLt(a, b)
    || (SameDate(a, b) && (a.hour < b.hour || (a.hour == b.hour && (a.minute < b.minute || (a.minute == b.minute
          && (a.second < b.second || (a.second == b.second && a.nano < b.nano)))))))
  }

  predicate Le(a: Time, b: Time) {
    a == b || Lt(a, b)
  }

  // ---------------------------------------------------------------- operations

  function AddDay(t: Time): Time {
    if t.day < DaysIn(t.year, t.month) then t.(day := t.day + 1)
    else if t.month < 12 then t.(month := t.month + 1, day := 1)
    else t.(year := t.year + 1, month := 1, day := 1)
  }

  /** `AddDate(0, 1, 0)`: a day past the end of the next month runs over into the month after it. */
  function AddMonth(t: Time): Time {
    var u := if t.month < 12 then t.(month := t.month + 1) else t.(year := t.year + 1, month := 1);
    var n := DaysIn(u.year, u.month);
    if u.day <= n then u
    else if u.month < 12 then u.(month := u.month + 1, day := u.day - n)
    else u.(year := u.year + 1, month := 1, day := u.day - n)
  }

  function AddHour(t: Time): Time {
    if t.hour < 23 then t.(hour := t.hour + 1) else AddDay(t.(hour := 0))
  }

  function AddMinute(t: Time): Time {
    if t.minute < 59 then t.(minute := t.minute + 1) else AddHour(t.(minute := 0))
  }

  function AddSecond(t: Time): Time {
    if t.second < 59 then t.(second := t.second + 1) else AddMinute(t.(second := 0))
  }

  // ---------------------------------------------------------------- the time line

  /** Days from 1 January of year 1 to 1 January of year `y`. */
  function YearStart(y: int): int {
    365 * (y - 1) + (y - 1) / 4 - (y - 1) / 100 + (y - 1) / 400
  }

  function DaysBefore(y: int, m: int): int {
    var leap := if Leap(y) && m > 2 then 1 else 0;
    leap + if m == 1 then 0 else if m == 2 then 31 else if m == 3 then 59 else if m == 4 then 90
           else if m == 5 then 120 else if m == 6 then 151 else if m == 7 then 181 else if m == 8 then 212
           else if m == 9 then 243 else if m == 10 then 273 else if m == 11 then 304 else 334
  }

  function DayNumber(t: Time): int {
    YearStart(t.year) + DaysBefore(t.year, t.month) + t.day - 1
  }

  /** Sunday is 0; 1 January of year 1 was a Monday. */
  function Weekday(t: Time): (w: int)
    ensures 0 <= w < 7
  {
    (DayNumber(t) + 1) % 7
  }

  /** Nanoseconds from the beginning of year 1. */
  function Instant(t: Time): int {
    (((DayNumber(t) * 24 + t.hour) * 60 + t.minute) * 60 + t.second) * 1_000_000_000 + t.nano
  }

  lemma NextYearStart(y: int)
    ensures YearStart(y + 1) == YearStart(y) + (if Leap(y) then 366 else 365)
  {
    QuotientsStep(y);
    CenturiesAreMultiples(y);
  }

  lemma QuotientsStep(y: int)
    ensures y / 4 == (y - 1) / 4 + (if y % 4 == 0 then 1 else 0)
    ensures y / 100 == (y - 1) / 100 + (if y % 100 == 0 then 1 else 0)
    ensures y / 400 == (y - 1) / 400 + (if y % 400 == 0 then 1 else 0)
  {
  }

  lemma CenturiesAreMultiples(y: int)
    ensures y % 100 == 0 ==> y % 4 == 0
    ensures y % 400 == 0 ==> y % 100 == 0
  {
    if y % 100 == 0 { assert y == 4 * (25 * (y / 100)); }
    if y % 400 == 0 { assert y == 100 * (4 * (y / 400)); }
  }

  lemma {:induction false} YearsAreApart(y: int, z: int)
    requires y < z
    ensures YearStart(z) >= YearStart(y) + (if Leap(y) then 366 else 365)
    decreases z - y
  {
    NextYearStart(y);
    if y + 1 < z { YearsAreApart(y + 1, z); }
  }

  lemma DayIsNextNumber(t: Time)
    requires Valid(t)
    ensures Valid(AddDay(t)) && DayNumber(AddDay(t)) == DayNumber(t) + 1
  {
    if t.month == 12 { NextYearStart(t.year); }
    else { assert DaysBefore(t.year, t.month + 1) == DaysBefore(t.year, t.month) + DaysIn(t.year, t.month); }
  }

  lemma NextOfSeven(d: int)
    ensures (d + 1) % 7 == if d % 7 == 6 then 0 else d % 7 + 1
  {
  }

  lemma WeekdaysFollowEachOther(t: Time)
    requires Valid(t)
    ensures Weekday(AddDay(t)) == if Weekday(t) == 6 then 0 else Weekday(t) + 1
  {
    DayIsNextNumber(t);
    var d, e := DayNumber(t), DayNumber(AddDay(t));
    NextOfSeven(d + 1);
    assert e + 1 == d + 1 + 1;
  }

  /** 1 January 1970, a Thursday. */
  const EPOCH: Time := Time(1970, 1, 1, 0, 0, 0, 0)

  /** `n` days later, one day at a time. */
  function AddDays(t: Time, n: nat): Time {
    if n == 0 then t else AddDay(AddDays(t, n - 1))
  }

  /** Valid, and this many days after the epoch. */
  predicate IsDay(t: Time, n: nat) {
    Valid(t) && DayNumber(t) == 719_162 + n
  }

  lemma EpochIsDayZero()
    ensures IsDay(EPOCH, 0)
  {
  }

  lemma NextIsDay(t: Time, n: nat)
    requires IsDay(t, n)
    ensures IsDay(AddDay(t), n + 1)
  {
    DayIsNextNumber(t);
  }

  lemma {:induction false} DaysFromEpoch(n: nat)
    ensures IsDay(AddDays(EPOCH, n), n)
  {
    if n == 0 {
      EpochIsDayZero();
    } else {
      DaysFromEpoch(n - 1);
      NextIsDay(AddDays(EPOCH, n - 1), n - 1);
    }
  }

  lemma WeekdayOfDay(t: Time, n: nat)
    requires IsDay(t, n)
    ensures Weekday(t) == (4 + n) % 7
  {
    WeeksToEpoch(n);
  }

  lemma WeeksToEpoch(n: nat)
    ensures (719_162 + n + 1) % 7 == (4 + n) % 7
  {
  }

  /** The weekday of every date from 1970 on is the one found by counting days from a Thursday; Sunday is 0. */
  lemma WeekdayIsCounted(t: Time) returns (n: nat)
    requires Valid(t) && t.year >= 1970
    ensures SameDate(t, AddDays(EPOCH, n)) && Weekday(t) == (4 + n) % 7
  {
    EpochIsDayZero();
    if DateLt(EPOCH, t) { DateOrder(EPOCH, t); }
    n := DayNumber(t) - DayNumber(EPOCH);
    DaysFromEpoch(n);
    WeekdayOfDay(t, n);
    SameDayNumber(t, AddDays(EPOCH, n));
  }

  lemma SameDayNumber(t: Time, u: Time)
    requires Valid(t) && Valid(u) && DayNumber(t) == DayNumber(u)
    ensures SameDate(t, u)
  {
    if DateLt(t, u) {
      DateOrder(t, u);
      assert false;
    }
    if DateLt(u, t) {
      DateOrder(u, t);
      assert false;
    }
  }

  lemma DateOrder(a: Time, b: Time)
    requires Valid(a) && Valid(b) && DateLt(a, b)
    ensures DayNumber(a) < DayNumber(b)
  {
    if a.year < b.year { YearsAreApart(a.year, b.year); }
  }

  /** The field-by-field order is the order of the time line. */
  lemma OrderIsTimeLine(a: Time, b: Time)
    requires Valid(a) && Valid(b)
    ensures Lt(a, b) <==> Instant(a) < Instant(b)
    ensures a == b <==> Instant(a) == Instant(b)
  {
    if DateLt(a, b) { DateOrder(a, b); }
    if DateLt(b, a) { DateOrder(b, a); }
  }

  lemma LaterStill(a: Time, b: Time, c: Time)
    requires Le(a, b) && Lt(b, c)
    ensures Lt(a, c)
  {
  }

  lemma DayMovesTheInstant(t: Time)
    requires Valid(t)
    ensures Valid(AddDay(t)) && Instant(AddDay(t)) == Instant(t) + 86_400_000_000_000
  {
    DayIsNextNumber(t);
  }

  lemma HourMovesTheInstant(t: Time)
    requires Valid(t)
    ensures Valid(AddHour(t)) && Instant(AddHour(t)) == Instant(t) + 3_600_000_000_000
  {
    if t.hour == 23 {
      DayMovesTheInstant(t.(hour := 0));
      assert DayNumber(t.(hour := 0)) == DayNumber(t);
    } else {
      assert DayNumber(AddHour(t)) == DayNumber(t);
    }
  }

  lemma MinuteMovesTheInstant(t: Time)
    requires Valid(t)
    ensures Valid(AddMinute(t)) && Instant(AddMinute(t)) == Instant(t) + 60_000_000_000
  {
    if t.minute == 59 {
      HourMovesTheInstant(t.(minute := 0));
      assert DayNumber(t.(minute := 0)) == DayNumber(t);
    } else {
      assert DayNumber(AddMinute(t)) == DayNumber(t);
    }
  }

  /** Adding one second is a step of a thousand million nanoseconds on the time line. */
  lemma SecondMovesTheInstant(t: Time)
    requires Valid(t)
    ensures Valid(AddSecond(t)) && Instant(AddSecond(t)) == Instant(t) + 1_000_000_000
  {
    if t.second == 59 {
      MinuteMovesTheInstant(t.(second := 0));
      assert DayNumber(t.(second := 0)) == DayNumber(t);
    } else {
      assert DayNumber(AddSecond(t)) == DayNumber(t);
    }
  }
}
