/** The search for the next activation of a cron schedule (pkg/cron/spec.go), in UTC. */
module CronSchedule {
  import opened Collections
  import opened Calendar
  import opened Words

  /** One bit set per field; bit 63 records a wildcard. */
  datatype SpecSchedule = SpecSchedule(second: Word, minute: Word, hour: Word, dom: Word, month: Word, dow: Word)

  predicate DayMatches(s: SpecSchedule, t: Time)
    requires Valid(t)
  {
    var dom := TestBit(s.dom, t.day);
    var dow := TestBit(s.dow, Weekday(t));
    if TestBit(s.dom, STAR) || TestBit(s.dow, STAR) then dom && dow else dom || dow
  }

  /** A whole second at which the schedule activates. */
  ghost predicate Matches(s: SpecSchedule, t: Time) {
    && Valid(t) && t.nano == 0
    && HasBit(s.month, t.month) && DayMatches(s, t)
    && HasBit(s.hour, t.hour) && HasBit(s.minute, t.minute) && HasBit(s.second, t.second)
  }

  /** No activation from `from` on is earlier than `t`. */
  ghost predicate NoneBefore(s: SpecSchedule, from: Time, t: Time) {
    forall u :: Matches(s, u) && Le(from, u) ==> Le(t, u)
  }

  /** The upcoming whole second. */
  function Upcoming(t: Time): Time {
    AddSecond(t.(nano := 0))
  }

  lemma UpcomingIsNext(t: Time, u: Time)
    requires Valid(t) && Valid(u) && u.nano == 0
    ensures Valid(Upcoming(t)) && Upcoming(t).nano == 0
    ensures Lt(t, u) <==> Le(Upcoming(t), u)
  {
    UpcomingInstant(t);
    OrderIsTimeLine(t, u);
    OrderIsTimeLine(Upcoming(t), u);
    var k, a := WholeSeconds(u), WholeSeconds(t.(nano := 0));
    assert Instant(t) == 1_000_000_000 * a + t.nano && Instant(u) == 1_000_000_000 * k;
    SecondsStep(a, k, t.nano);
  }

  lemma SecondsStep(a: int, k: int, nano: int)
    requires 0 <= nano < 1_000_000_000
    ensures 1_000_000_000 * a + nano < 1_000_000_000 * k <==> 1_000_000_000 * a + 1_000_000_000 <= 1_000_000_000 * k
  {
  }

  ghost function WholeSeconds(u: Time): int {
    ((DayNumber(u) * 24 + u.hour) * 60 + u.minute) * 60 + u.second
  }

  lemma UpcomingInstant(t: Time)
    requires Valid(t)
    ensures Valid(Upcoming(t)) && Upcoming(t).nano == 0
    ensures Instant(Upcoming(t)) == Instant(t.(nano := 0)) + 1_000_000_000
  {
    SecondMovesTheInstant(t.(nano := 0));
  }

  // ---------------------------------------------------------------- skipping a field value that does not match

  function NextMonth(t: Time): Time {
    if t.month < 12 then Time(t.year, t.month + 1, 1, 0, 0, 0, 0) else Time(t.year + 1, 1, 1, 0, 0, 0, 0)
  }

  function NextDay(t: Time): Time {
    AddDay(Time(t.year, t.month, t.day, 0, 0, 0, 0))
  }

  function NextHour(t: Time): Time {
    AddHour(t.(minute := 0, second := 0, nano := 0))
  }

  function NextMinute(t: Time): Time {
    AddMinute(t.(second := 0, nano := 0))
  }

  lemma SkipMonth(s: SpecSchedule, from: Time, t: Time)
    requires Valid(t) && NoneBefore(s, from, t) && !HasBit(s.month, t.month)
    ensures NoneBefore(s, from, NextMonth(t)) && Lt(t, NextMonth(t)) && Valid(NextMonth(t))
  {
  }

  lemma DayMatchesByDate(s: SpecSchedule, t: Time, u: Time)
    requires Valid(t) && Valid(u)
    ensures SameDate(t, u) ==> (DayMatches(s, t) <==> DayMatches(s, u))
  {
  }

  lemma LaterDate(t: Time, u: Time)
    requires Valid(t) && Valid(u) && Le(t, u)
    ensures Valid(NextDay(t)) && Lt(t, NextDay(t))
    ensures SameDate(t, u) || Le(NextDay(t), u)
  {
  }

  lemma NotThatDay(s: SpecSchedule, t: Time, u: Time)
    requires Valid(t) && Matches(s, u) && !DayMatches(s, t)
    ensures !SameDate(t, u)
  {
    DayMatchesByDate(s, t, u);
  }

  lemma SkipDay(s: SpecSchedule, from: Time, t: Time)
    requires Valid(t) && NoneBefore(s, from, t) && !DayMatches(s, t)
    ensures NoneBefore(s, from, NextDay(t)) && Lt(t, NextDay(t)) && Valid(NextDay(t))
  {
    LaterDate(t, t);
    forall u | Matches(s, u) && Le(from, u) ensures Le(NextDay(t), u) {
      NotThatDay(s, t, u);
      LaterDate(t, u);
    }
  }

  lemma SkipHour(s: SpecSchedule, from: Time, t: Time)
    requires Valid(t) && NoneBefore(s, from, t) && !HasBit(s.hour, t.hour)
    ensures NoneBefore(s, from, NextHour(t)) && Lt(t, NextHour(t)) && Valid(NextHour(t))
  {
  }

  lemma SkipMinute(s: SpecSchedule, from: Time, t: Time)
    requires Valid(t) && NoneBefore(s, from, t) && !HasBit(s.minute, t.minute)
    ensures NoneBefore(s, from, NextMinute(t)) && Lt(t, NextMinute(t)) && Valid(NextMinute(t))
  {
    forall u | Matches(s, u) && Le(from, u) ensures Le(NextMinute(t), u) {
      assert Le(t, u) && !(SameDate(t, u) && t.hour == u.hour && t.minute == u.minute);
    }
  }

  lemma SkipSecond(s: SpecSchedule, from: Time, t: Time)
    requires Valid(t) && t.nano == 0 && NoneBefore(s, from, t) && !HasBit(s.second, t.second)
    ensures NoneBefore(s, from, AddSecond(t)) && Lt(t, AddSecond(t)) && Valid(AddSecond(t))
  {
  }

  // ---------------------------------------------------------------- the search

  /** Once a field has been incremented, a lower field is away from its start only when the fields above it match. */
  ghost predicate Aligned(s: SpecSchedule, t: Time)
    requires Valid(t)
  {
    && t.second == 0 && t.nano == 0
    && (t.minute != 0 ==> HasBit(s.hour, t.hour))
    && (t.minute != 0 || t.hour != 0 ==> DayMatches(s, t))
    && (t.minute != 0 || t.hour != 0 || t.day != 1 ==> HasBit(s.month, t.month))
  }

  /** A number that grows with the time, by whole seconds. */
  ghost function Key(t: Time): int {
    ((((t.year * 13 + t.month) * 32 + t.day) * 24 + t.hour) * 60 + t.minute) * 60 + t.second
  }

  /** What holds throughout the search. */
  ghost predicate Searching(s: SpecSchedule, from: Time, t: Time, added: bool, limit: int) {
    && Valid(t) && t.nano == 0 && Le(from, t) && NoneBefore(s, from, t)
    && (!added ==> t == from)
    && (added ==> Aligned(s, t))
    && from.year <= limit
  }

  lemma MonthStep(s: SpecSchedule, from: Time, t: Time, added: bool, limit: int)
    requires Searching(s, from, t, added, limit) && !HasBit(s.month, t.month)
    ensures AddMonth(if added then t else Time(t.year, t.month, 1, 0, 0, 0, 0)) == NextMonth(t)
    ensures Searching(s, from, NextMonth(t), true, limit) && Lt(t, NextMonth(t)) && Key(t) < Key(NextMonth(t))
    ensures NextMonth(t).month != 1 ==> NextMonth(t).year == t.year && NextMonth(t).month > t.month
  {
    SkipMonth(s, from, t);
  }

  lemma DayStep(s: SpecSchedule, from: Time, t: Time, added: bool, limit: int)
    requires Searching(s, from, t, added, limit) && HasBit(s.month, t.month) && !DayMatches(s, t)
    ensures AddDay(if added then t else Time(t.year, t.month, t.day, 0, 0, 0, 0)) == NextDay(t)
    ensures Searching(s, from, NextDay(t), true, limit) && Lt(t, NextDay(t)) && Key(t) < Key(NextDay(t))
    ensures NextDay(t).day != 1 ==> NextDay(t).month == t.month && NextDay(t).year == t.year && NextDay(t).day > t.day
  {
    SkipDay(s, from, t);
  }

  lemma HourStep(s: SpecSchedule, from: Time, t: Time, added: bool, limit: int)
    requires Searching(s, from, t, added, limit) && HasBit(s.month, t.month) && DayMatches(s, t)
    requires !HasBit(s.hour, t.hour)
    ensures AddHour(if added then t else t.(minute := 0, second := 0, nano := 0)) == NextHour(t)
    ensures Searching(s, from, NextHour(t), true, limit) && Lt(t, NextHour(t)) && Key(t) < Key(NextHour(t))
    ensures NextHour(t).hour != 0 ==> SameDate(t, NextHour(t)) && NextHour(t).hour > t.hour
  {
    SkipHour(s, from, t);
    DayMatchesByDate(s, t, NextHour(t));
  }

  lemma MinuteStep(s: SpecSchedule, from: Time, t: Time, added: bool, limit: int)
    requires Searching(s, from, t, added, limit) && HasBit(s.month, t.month) && DayMatches(s, t)
    requires HasBit(s.hour, t.hour) && !HasBit(s.minute, t.minute)
    ensures AddMinute(if added then t else t.(second := 0, nano := 0)) == NextMinute(t)
    ensures Searching(s, from, NextMinute(t), true, limit) && Lt(t, NextMinute(t)) && Key(t) < Key(NextMinute(t))
    ensures NextMinute(t).minute != 0 ==>
              SameDate(t, NextMinute(t)) && NextMinute(t).hour == t.hour && NextMinute(t).minute > t.minute
  {
    SkipMinute(s, from, t);
    DayMatchesByDate(s, t, NextMinute(t));
  }

  lemma SecondStep(s: SpecSchedule, from: Time, t: Time, limit: int)
    requires Valid(t) && t.nano == 0 && Le(from, t) && NoneBefore(s, from, t) && from.year <= limit
    requires HasBit(s.month, t.month) && DayMatches(s, t) && HasBit(s.hour, t.hour) && HasBit(s.minute, t.minute)
    requires !HasBit(s.second, t.second)
    ensures var n := AddSecond(t);
      && Valid(n) && n.nano == 0 && Le(from, n) && NoneBefore(s, from, n) && Lt(t, n) && Key(t) < Key(n)
      && (n.second == 0 ==> Searching(s, from, n, true, limit))
      && (n.second != 0 ==> n == t.(second := t.second + 1))
  {
    SkipSecond(s, from, t);
    DayMatchesByDate(s, t, AddSecond(t));
  }

  /** Searching for a second within a minute that matches. */
  ghost predicate InMinute(s: SpecSchedule, from: Time, t0: Time, t: Time, limit: int) {
    && Valid(t) && t.nano == 0 && Le(from, t) && NoneBefore(s, from, t) && from.year <= limit
    && t == t0.(second := t.second) && Key(t0) <= Key(t)
    && HasBit(s.month, t.month) && DayMatches(s, t) && HasBit(s.hour, t.hour) && HasBit(s.minute, t.minute)
  }

  lemma SecondRound(s: SpecSchedule, from: Time, t0: Time, t: Time, limit: int)
    requires InMinute(s, from, t0, t, limit) && !HasBit(s.second, t.second)
    ensures var n := AddSecond(t);
      && Le(from, n) && NoneBefore(s, from, n) && Valid(n)
      && (n.second == 0 ==> Searching(s, from, n, true, limit) && Key(t0) < Key(n))
      && (n.second != 0 ==> InMinute(s, from, t0, n, limit) && n.second == t.second + 1)
  {
    SecondStep(s, from, t, limit);
    DayMatchesByDate(s, t, AddSecond(t));
  }

  /** The five loops of the search. Each moves to the first later value of its field that matches, or reports that the
      field above has changed, in which case the search starts over. */
  method FindMonth(s: SpecSchedule, t0: Time, added0: bool, ghost from: Time, ghost limit: int)
    returns (t: Time, added: bool, wrapped: bool)
    requires Searching(s, from, t0, added0, limit)
    ensures Searching(s, from, t, added, limit) && Key(t0) <= Key(t)
    ensures wrapped ==> Key(t0) < Key(t)
    ensures !wrapped ==> t.year == t0.year && HasBit(s.month, t.month)
  {
    t, added := t0, added0;
    while !TestBit(s.month, t.month)
      invariant Searching(s, from, t, added, limit) && Key(t0) <= Key(t) && t.year == t0.year
      decreases 12 - t.month
    {
      MonthStep(s, from, t, added, limit);
      if !added {
        added := true;
        t := Time(t.year, t.month, 1, 0, 0, 0, 0);
      }
      t := AddMonth(t);
      if t.month == 1 { return t, added, true; }
    }
    wrapped := false;
  }

  method FindDay(s: SpecSchedule, t0: Time, added0: bool, ghost from: Time, ghost limit: int)
    returns (t: Time, added: bool, wrapped: bool)
    requires Searching(s, from, t0, added0, limit) && HasBit(s.month, t0.month)
    ensures Searching(s, from, t, added, limit) && Key(t0) <= Key(t)
    ensures wrapped ==> Key(t0) < Key(t)
    ensures !wrapped ==> t.year == t0.year && HasBit(s.month, t.month) && DayMatches(s, t)
  {
    t, added := t0, added0;
    while !DayMatches(s, t)
      invariant Searching(s, from, t, added, limit) && Key(t0) <= Key(t) && t.year == t0.year && t.month == t0.month
      decreases 31 - t.day
    {
      DayStep(s, from, t, added, limit);
      if !added {
        added := true;
        t := Time(t.year, t.month, t.day, 0, 0, 0, 0);
      }
      t := AddDay(t);
      if t.day == 1 { return t, added, true; }
    }
    wrapped := false;
  }

  method FindHour(s: SpecSchedule, t0: Time, added0: bool, ghost from: Time, ghost limit: int)
    returns (t: Time, added: bool, wrapped: bool)
    requires Searching(s, from, t0, added0, limit) && HasBit(s.month, t0.month) && DayMatches(s, t0)
    ensures Searching(s, from, t, added, limit) && Key(t0) <= Key(t)
    ensures wrapped ==> Key(t0) < Key(t)
    ensures !wrapped ==> SameDate(t, t0) && DayMatches(s, t) && HasBit(s.hour, t.hour)
  {
    t, added := t0, added0;
    while !TestBit(s.hour, t.hour)
      invariant Searching(s, from, t, added, limit) && Key(t0) <= Key(t) && SameDate(t, t0) && DayMatches(s, t)
      decreases 23 - t.hour
    {
      HourStep(s, from, t, added, limit);
      DayMatchesByDate(s, t, NextHour(t));
      if !added {
        added := true;
        t := t.(minute := 0, second := 0, nano := 0);
      }
      t := AddHour(t);
      if t.hour == 0 { return t, added, true; }
    }
    wrapped := false;
  }

  method FindMinute(s: SpecSchedule, t0: Time, added0: bool, ghost from: Time, ghost limit: int)
    returns (t: Time, added: bool, wrapped: bool)
    requires Searching(s, from, t0, added0, limit) && HasBit(s.month, t0.month) && DayMatches(s, t0)
    requires HasBit(s.hour, t0.hour)
    ensures Searching(s, from, t, added, limit) && Key(t0) <= Key(t)
    ensures wrapped ==> Key(t0) < Key(t)
    ensures !wrapped ==> SameDate(t, t0) && t.hour == t0.hour && DayMatches(s, t) && HasBit(s.minute, t.minute)
  {
    t, added := t0, added0;
    while !TestBit(s.minute, t.minute)
      invariant Searching(s, from, t, added, limit) && Key(t0) <= Key(t)
      invariant SameDate(t, t0) && t.hour == t0.hour && DayMatches(s, t)
      decreases 59 - t.minute
    {
      MinuteStep(s, from, t, added, limit);
      DayMatchesByDate(s, t, NextMinute(t));
      if !added {
        added := true;
        t := t.(second := 0, nano := 0);
      }
      t := AddMinute(t);
      if t.minute == 0 { return t, added, true; }
    }
    wrapped := false;
  }

  method FindSecond(s: SpecSchedule, t0: Time, added0: bool, ghost from: Time, ghost limit: int)
    returns (t: Time, added: bool, wrapped: bool)
    requires Searching(s, from, t0, added0, limit) && HasBit(s.month, t0.month) && DayMatches(s, t0)
    requires HasBit(s.hour, t0.hour) && HasBit(s.minute, t0.minute)
    ensures Le(from, t) && NoneBefore(s, from, t)
    ensures wrapped ==> Searching(s, from, t, added, limit) && Key(t0) < Key(t)
    ensures !wrapped ==> Matches(s, t) && t.year == t0.year
  {
    t, added := t0, added0;
    while !TestBit(s.second, t.second)
      invariant InMinute(s, from, t0, t, limit)
      decreases 59 - t.second
    {
      SecondRound(s, from, t0, t, limit);
      if !added {
        added := true;
        t := t.(nano := 0);
      }
      t := AddSecond(t);
      if t.second == 0 { return t, added, true; }
    }
    wrapped := false;
  }

  /** One pass over the fields, from the top. */
  method Pass(s: SpecSchedule, t0: Time, added0: bool, ghost from: Time, ghost limit: int)
    returns (t: Time, added: bool, wrapped: bool)
    requires Searching(s, from, t0, added0, limit)
    ensures wrapped ==> Searching(s, from, t, added, limit) && Key(t0) < Key(t)
    ensures !wrapped ==> Matches(s, t) && Le(from, t) && NoneBefore(s, from, t) && t.year == t0.year
  {
    t, added, wrapped := FindMonth(s, t0, added0, from, limit);
    if wrapped { return; }
    t, added, wrapped := FindDay(s, t, added, from, limit);
    if wrapped { return; }
    t, added, wrapped := FindHour(s, t, added, from, limit);
    if wrapped { return; }
    t, added, wrapped := FindMinute(s, t, added, from, limit);
    if wrapped { return; }
    t, added, wrapped := FindSecond(s, t, added, from, limit);
  }

  /** The earliest activation after `t0`. */
  ghost predicate IsNext(s: SpecSchedule, t0: Time, t: Time) {
    Matches(s, t) && Lt(t0, t) && forall u :: Matches(s, u) && Lt(t0, u) ==> Le(t, u)
  }

  ghost predicate NoneUntil(s: SpecSchedule, t0: Time, year: int) {
    forall u :: Matches(s, u) && Lt(t0, u) ==> u.year > year
  }

  lemma FoundIsNext(s: SpecSchedule, t0: Time, t: Time, year: int)
    requires Valid(t0) && Matches(s, t) && Le(Upcoming(t0), t) && NoneBefore(s, Upcoming(t0), t) && t.year <= year
    ensures IsNext(s, t0, t) && !NoneUntil(s, t0, year)
  {
    AfterIsFromUpcoming(s, t0);
  }

  lemma PastTheLimit(s: SpecSchedule, t0: Time, t: Time, year: int)
    requires Valid(t0) && NoneBefore(s, Upcoming(t0), t) && t.year > year
    ensures NoneUntil(s, t0, year)
  {
    AfterIsFromUpcoming(s, t0);
    forall u | Matches(s, u) && Lt(t0, u) ensures u.year > year {
      assert Le(t, u);
    }
  }

  /** `Next`: the earliest activation strictly after `t0`; none (the zero time) exactly when there is no activation up
      to the end of the fifth year after the year of the upcoming second. */
  method Next(s: SpecSchedule, t0: Time) returns (r: Option<Time>)
    requires Valid(t0)
    ensures r.None? <==> NoneUntil(s, t0, Upcoming(t0).year + 5)
    ensures r.Some? ==> IsNext(s, t0, r.value) && r.value.year <= Upcoming(t0).year + 5
  {
    var t := Upcoming(t0);
    ghost var from := t;
    StartOfSearch(s, t0);
    var added, wrapped := false, true;
    var yearLimit := t.year + 5;
    // WRAP: start over whenever a field has wrapped around
    while wrapped
      invariant wrapped ==> Searching(s, from, t, added, yearLimit)
      invariant !wrapped ==> Matches(s, t) && Le(from, t) && NoneBefore(s, from, t) && t.year <= yearLimit
      decreases wrapped, Key(Time(yearLimit + 1, 1, 1, 0, 0, 0, 0)) - Key(t)
    {
      if t.year > yearLimit {
        PastTheLimit(s, t0, t, yearLimit);
        return None;
      }
      LimitIsAhead(t, yearLimit);
      t, added, wrapped := Pass(s, t, added, from, yearLimit);
    }
    FoundIsNext(s, t0, t, yearLimit);
    r := Some(t);
  }

  lemma LimitIsAhead(t: Time, limit: int)
    requires Valid(t) && t.year <= limit
    ensures Key(t) < Key(Time(limit + 1, 1, 1, 0, 0, 0, 0))
  {
  }

  lemma StartOfSearch(s: SpecSchedule, t0: Time)
    requires Valid(t0)
    ensures Searching(s, Upcoming(t0), Upcoming(t0), false, Upcoming(t0).year + 5)
  {
    AfterIsFromUpcoming(s, t0);
  }

  /** The activations after `t0` are those from the upcoming second on. */
  lemma AfterIsFromUpcoming(s: SpecSchedule, t0: Time)
    requires Valid(t0)
    ensures Valid(Upcoming(t0)) && Upcoming(t0).nano == 0
    ensures forall u :: Matches(s, u) ==> (Lt(t0, u) <==> Le(Upcoming(t0), u))
  {
    UpcomingIsNext(t0, t0.(nano := 0));
    forall u | Matches(s, u) ensures Lt(t0, u) <==> Le(Upcoming(t0), u) {
      UpcomingIsNext(t0, u);
    }
  }

  /** Midnight on every 29 February. */
  function LeapDays(): SpecSchedule {
    SpecSchedule({0}, {0}, {0}, {29}, {2}, {0, 1, 2, 3, 4, 5, 6, STAR})
  }

  /** The five-year horizon is shorter than the gap around a century without a leap day: in March 2096 the search gives
      up although the schedule activates again in 2104. */
  lemma LeapDayBeyondTheHorizon()
    ensures var t0 := Time(2096, 3, 1, 0, 0, 0, 0);
      && NoneUntil(LeapDays(), t0, Upcoming(t0).year + 5)
      && Matches(LeapDays(), Time(2104, 2, 29, 0, 0, 0, 0)) && Lt(t0, Time(2104, 2, 29, 0, 0, 0, 0))
  {
    var t0 := Time(2096, 3, 1, 0, 0, 0, 0);
    assert Upcoming(t0).year == 2096;
    forall u | Matches(LeapDays(), u) && Lt(t0, u) ensures u.year > 2101 {
      assert Leap(u.year) && u.month == 2 && u.day == 29;
    }
  }
}
