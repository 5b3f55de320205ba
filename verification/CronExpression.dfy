/** From the fields of a cron expression to its next activation (`Next` in pkg/cron/cron.go, `Parse` in
    pkg/cron/parser.go). */
module CronExpression {
  import opened Collections
  import opened Words
  import opened Calendar
  import opened CronParser
  import opened CronNotation
  import CronSchedule

  /** The bounds of the six fields: second, minute, hour, day of month, month and day of week. */
  const FIELDS: seq<Bounds> := [SECONDS, MINUTES, HOURS, DOM, MONTHS, DOW]

  ghost predicate AllAccepted(fields: seq<string>) {
    |fields| == 6 && forall i :: 0 <= i < 6 ==> AllParse(Pieces(fields[i]), FIELDS[i])
  }

  /** The bit sets of a schedule hold exactly what the parser reads in its field texts. */
  ghost predicate Reads(s: CronSchedule.SpecSchedule, fields: seq<string>)
    requires |fields| == 6
  {
    && IsUnion(s.second, Pieces(fields[0]), SECONDS) && IsUnion(s.minute, Pieces(fields[1]), MINUTES)
    && IsUnion(s.hour, Pieces(fields[2]), HOURS) && IsUnion(s.dom, Pieces(fields[3]), DOM)
    && IsUnion(s.month, Pieces(fields[4]), MONTHS) && IsUnion(s.dow, Pieces(fields[5]), DOW)
  }

  /** `Parse` with all six fields required and none optional. */
  method ParseFields(fields: seq<string>) returns (s: Option<CronSchedule.SpecSchedule>)
    ensures s.Some? <==> AllAccepted(fields)
    ensures s.Some? ==> Reads(s.value, fields)
  {
    if |fields| != 6 { return None; }
    var ok, second := GetField(fields[0], SECONDS);
    if !ok { return None; }
    var minute, hour, dom, month, dow;
    ok, minute := GetField(fields[1], MINUTES);
    if !ok { return None; }
    ok, hour := GetField(fields[2], HOURS);
    if !ok { return None; }
    ok, dom := GetField(fields[3], DOM);
    if !ok { return None; }
    ok, month := GetField(fields[4], MONTHS);
    if !ok { return None; }
    ok, dow := GetField(fields[5], DOW);
    if !ok { return None; }
    s := Some(CronSchedule.SpecSchedule(second, minute, hour, dom, month, dow));
  }

  // ---------------------------------------------------------------- what an expression says

  /** The six field texts are written with these pieces. */
  ghost predicate WritesAll(fields: seq<string>, e: seq<seq<Piece>>) {
    |fields| == 6 && |e| == 6 && forall i :: 0 <= i < 6 ==> Writes(fields[i], e[i])
  }

  ghost predicate Expression(e: seq<seq<Piece>>) {
    |e| == 6 && forall i :: 0 <= i < 6 ==> AllWellWritten(e[i])
  }

  ghost predicate AllMeaningful(e: seq<seq<Piece>>)
    requires Expression(e)
  {
    forall i :: 0 <= i < 6 ==> Meaningful(e[i], FIELDS[i])
  }

  /** The expression names the second `t`, read from the notation alone. When one of the day fields is a star both must
      name the day, otherwise one is enough. */
  ghost predicate NamesTime(e: seq<seq<Piece>>, t: Time)
    requires Expression(e)
  {
    && Valid(t) && t.nano == 0
    && NamesValue(e[0], SECONDS, t.second) && NamesValue(e[1], MINUTES, t.minute) && NamesValue(e[2], HOURS, t.hour)
    && NamesValue(e[4], MONTHS, t.month) && NamesDay(e[3], e[5], t)
  }

  ghost predicate NamesDay(dom: seq<Piece>, dow: seq<Piece>, t: Time)
    requires AllWellWritten(dom) && AllWellWritten(dow) && Valid(t)
  {
    if HasStar(dom) || HasStar(dow)
    then NamesValue(dom, DOM, t.day) && NamesValue(dow, DOW, Weekday(t))
    else NamesValue(dom, DOM, t.day) || NamesValue(dow, DOW, Weekday(t))
  }

  lemma FieldsHaveWords(i: nat)
    requires i < 6
    ensures ProperBounds(FIELDS[i]) && NamesAreWords(FIELDS[i])
  {
    BoundsHaveWords(FIELDS[i]);
  }

  /** Expressions are accepted exactly when they are written in the notation and every piece means something. */
  lemma AcceptedIff(fields: seq<string>)
    ensures AllAccepted(fields)
            <==> exists e :: WritesAll(fields, e) && Expression(e) && AllMeaningful(e)
  {
    if AllAccepted(fields) {
      var e := ReadExpression(fields);
      AcceptedAsWritten(fields, e);
    }
    forall e | WritesAll(fields, e) && Expression(e) && AllMeaningful(e) ensures AllAccepted(fields) {
      AcceptedAsWritten(fields, e);
    }
  }

  lemma ReadExpression(fields: seq<string>) returns (e: seq<seq<Piece>>)
    requires AllAccepted(fields)
    ensures WritesAll(fields, e) && Expression(e)
  {
    var e0 := ReadField(fields, 0);
    var e1 := ReadField(fields, 1);
    var e2 := ReadField(fields, 2);
    var e3 := ReadField(fields, 3);
    var e4 := ReadField(fields, 4);
    var e5 := ReadField(fields, 5);
    e := [e0, e1, e2, e3, e4, e5];
  }

  lemma ReadField(fields: seq<string>, i: nat) returns (ps: seq<Piece>)
    requires AllAccepted(fields) && i < 6
    ensures Writes(fields[i], ps)
  {
    FieldsHaveWords(i);
    ps := ReadPieces(Pieces(fields[i]), FIELDS[i]);
  }

  lemma AcceptedAsWritten(fields: seq<string>, e: seq<seq<Piece>>)
    requires WritesAll(fields, e) && Expression(e)
    ensures AllAccepted(fields) <==> AllMeaningful(e)
  {
    forall i | 0 <= i < 6 ensures AllParse(Pieces(fields[i]), FIELDS[i]) <==> Meaningful(e[i], FIELDS[i]) {
      FieldsHaveWords(i);
      FieldMeaning(fields[i], e[i], FIELDS[i], 0);
    }
  }

  /** The bits of one field, from its notation. */
  lemma FieldBits(fields: seq<string>, e: seq<seq<Piece>>, bits: Word, i: nat, v: int)
    requires WritesAll(fields, e) && Expression(e) && AllMeaningful(e) && i < 6 && v != STAR
    requires IsUnion(bits, Pieces(fields[i]), FIELDS[i])
    ensures HasBit(bits, v) <==> NamesValue(e[i], FIELDS[i], v)
    ensures HasBit(bits, STAR) <==> HasStar(e[i])
  {
    FieldsHaveWords(i);
    FieldMeaning(fields[i], e[i], FIELDS[i], v);
  }

  /** A parsed schedule activates exactly at the seconds that its expression names. */
  lemma ActivatesAsWritten(fields: seq<string>, e: seq<seq<Piece>>, s: CronSchedule.SpecSchedule, t: Time)
    requires WritesAll(fields, e) && Expression(e) && AllMeaningful(e) && Reads(s, fields)
    ensures CronSchedule.Matches(s, t) <==> NamesTime(e, t)
  {
    if Valid(t) && t.nano == 0 {
      FieldBits(fields, e, s.second, 0, t.second);
      FieldBits(fields, e, s.minute, 1, t.minute);
      FieldBits(fields, e, s.hour, 2, t.hour);
      FieldBits(fields, e, s.month, 4, t.month);
      DayAsWritten(fields, e, s, t);
    }
  }

  lemma DayAsWritten(fields: seq<string>, e: seq<seq<Piece>>, s: CronSchedule.SpecSchedule, t: Time)
    requires WritesAll(fields, e) && Expression(e) && AllMeaningful(e) && Reads(s, fields) && Valid(t)
    ensures CronSchedule.DayMatches(s, t) <==> NamesDay(e[3], e[5], t)
  {
    FieldBits(fields, e, s.dom, 3, t.day);
    FieldBits(fields, e, s.dow, 5, Weekday(t));
  }

  /** Texts that can be read in two ways mean the same in both. */
  lemma SameMeaning(fields: seq<string>, e: seq<seq<Piece>>, f: seq<seq<Piece>>, t: Time)
    requires WritesAll(fields, e) && Expression(e) && WritesAll(fields, f) && Expression(f)
    requires AllMeaningful(e) && AllMeaningful(f)
    ensures NamesTime(e, t) <==> NamesTime(f, t)
  {
    if Valid(t) {
      SameValues(fields, e, f, 0, t.second);
      SameValues(fields, e, f, 1, t.minute);
      SameValues(fields, e, f, 2, t.hour);
      SameValues(fields, e, f, 3, t.day);
      SameValues(fields, e, f, 4, t.month);
      SameValues(fields, e, f, 5, Weekday(t));
    }
  }

  lemma SameValues(fields: seq<string>, e: seq<seq<Piece>>, f: seq<seq<Piece>>, i: nat, v: int)
    requires WritesAll(fields, e) && Expression(e) && WritesAll(fields, f) && Expression(f) && i < 6 && v != STAR
    requires AllMeaningful(e) && AllMeaningful(f)
    ensures NamesValue(e[i], FIELDS[i], v) <==> NamesValue(f[i], FIELDS[i], v)
    ensures HasStar(e[i]) <==> HasStar(f[i])
  {
    FieldsHaveWords(i);
    FieldMeaning(fields[i], e[i], FIELDS[i], v);
    FieldMeaning(fields[i], f[i], FIELDS[i], v);
  }

  // ---------------------------------------------------------------- the next activation of an expression

  datatype NextRun = BadExpression | Never | At(time: Time)

  /** What the answer means for an expression: the earliest second after `now` that it names, or none up to the end of
      the fifth year after the upcoming second's. */
  ghost predicate Answers(e: seq<seq<Piece>>, now: Time, r: NextRun)
    requires Expression(e)
  {
    match r
    case BadExpression => false
    case Never => forall u :: NamesTime(e, u) && Lt(now, u) ==> u.year > CronSchedule.Upcoming(now).year + 5
    case At(t) =>
      && NamesTime(e, t) && Lt(now, t) && t.year <= CronSchedule.Upcoming(now).year + 5
      && forall u :: NamesTime(e, u) && Lt(now, u) ==> Le(t, u)
  }

  /** `Next` of the package: parse the fields of the expression, then search. */
  method NextOf(fields: seq<string>, now: Time) returns (r: NextRun)
    requires Valid(now)
    ensures r.BadExpression? <==> !exists e :: WritesAll(fields, e) && Expression(e) && AllMeaningful(e)
    ensures forall e :: WritesAll(fields, e) && Expression(e) && AllMeaningful(e) ==> Answers(e, now, r)
  {
    AcceptedIff(fields);
    var s := ParseFields(fields);
    if s.None? { return BadExpression; }
    var t := CronSchedule.Next(s.value, now);
    r := if t.Some? then At(t.value) else Never;
    forall e | WritesAll(fields, e) && Expression(e) && AllMeaningful(e) ensures Answers(e, now, r) {
      SearchAnswers(fields, e, s.value, now, t);
    }
  }

  lemma SearchAnswers(fields: seq<string>, e: seq<seq<Piece>>, s: CronSchedule.SpecSchedule, now: Time, t: Option<Time>)
    requires WritesAll(fields, e) && Expression(e) && AllMeaningful(e) && Reads(s, fields) && Valid(now)
    requires t.None? ==> CronSchedule.NoneUntil(s, now, CronSchedule.Upcoming(now).year + 5)
    requires t.Some? ==>
      CronSchedule.IsNext(s, now, t.value) && t.value.year <= CronSchedule.Upcoming(now).year + 5
    ensures Answers(e, now, if t.Some? then At(t.value) else Never)
  {
    forall u ensures CronSchedule.Matches(s, u) <==> NamesTime(e, u) { ActivatesAsWritten(fields, e, s, u); }
  }

  /** Any six lists of pieces can be written down; their text is then answered as they mean. */
  lemma WrittenExpression(e: seq<seq<Piece>>) returns (fields: seq<string>)
    requires Expression(e) && forall i, k :: 0 <= i < 6 && 0 <= k < |e[i]| ==> ',' !in Print(e[i][k])
    ensures WritesAll(fields, e) && (AllAccepted(fields) <==> AllMeaningful(e))
  {
    fields := seq(6, i requires 0 <= i < 6 => Text.Join(PrintAll(e[i]), ','));
    forall i | 0 <= i < 6 ensures Writes(fields[i], e[i]) { PrintedFieldPieces(e[i]); }
    AcceptedAsWritten(fields, e);
  }

  // ---------------------------------------------------------------- the calendar behind the notation

  const DAY_NAMES: seq<string> := ["sun", "mon", "tue", "wed", "thu", "fri", "sat"]

  const MONTH_NAMES: seq<string> :=
    ["jan", "feb", "mar", "apr", "may", "jun", "jul", "aug", "sep", "oct", "nov", "dec"]

  /** The day names are those of the week, in order, and the epoch was a Thursday. */
  lemma DayNamesFollowTheWeek(k: nat)
    requires k < 7
    ensures DAY_NAMES[k] in DOW.names && DOW.names[DAY_NAMES[k]] == k
    ensures forall n :: n in DOW.names ==> n in DAY_NAMES
    ensures DAY_NAMES[Weekday(EPOCH)] == "thu"
  {
    EpochIsDayZero();
    WeekdayOfDay(EPOCH, 0);
  }

  lemma MonthNamesFollowTheYear(k: nat)
    requires k < 12
    ensures MONTH_NAMES[k] in MONTHS.names && MONTHS.names[MONTH_NAMES[k]] == k + 1
    ensures forall n :: n in MONTHS.names ==> n in MONTH_NAMES
  {
  }

  /** The bounds of each field are the values that times have there. */
  lemma BoundsAreThoseOfTimes(v: int)
    ensures (exists t :: Valid(t) && t.second == v) <==> SECONDS.min <= v <= SECONDS.max
    ensures (exists t :: Valid(t) && t.minute == v) <==> MINUTES.min <= v <= MINUTES.max
    ensures (exists t :: Valid(t) && t.hour == v) <==> HOURS.min <= v <= HOURS.max
    ensures (exists t :: Valid(t) && t.day == v) <==> DOM.min <= v <= DOM.max
    ensures (exists t :: Valid(t) && t.month == v) <==> MONTHS.min <= v <= MONTHS.max
    ensures (exists t :: Valid(t) && Weekday(t) == v) <==> DOW.min <= v <= DOW.max
  {
    if 0 <= v <= 59 {
      assert Valid(EPOCH.(second := v)) && EPOCH.(second := v).second == v;
      assert Valid(EPOCH.(minute := v)) && EPOCH.(minute := v).minute == v;
    }
    if 0 <= v <= 23 { assert Valid(EPOCH.(hour := v)) && EPOCH.(hour := v).hour == v; }
    if 1 <= v <= 31 { assert Valid(EPOCH.(day := v)) && EPOCH.(day := v).day == v; }
    if 1 <= v <= 12 { assert Valid(EPOCH.(month := v)) && EPOCH.(month := v).month == v; }
    if 0 <= v <= 6 { var t := DayWithWeekday(v); }
  }

  lemma DayWithWeekday(v: nat) returns (t: Time)
    requires v <= 6
    ensures Valid(t) && Weekday(t) == v
  {
    t := AddDays(EPOCH, v + 3);
    DaysFromEpoch(v + 3);
    WeekdayOfDay(t, v + 3);
    OneWeekOn(v);
  }

  lemma OneWeekOn(v: nat)
    requires v <= 6
    ensures (4 + (v + 3)) % 7 == v
  {
  }

  lemma MidnightNames(t: Time)
    ensures var zero := Exactly("0");
      && AllWellWritten(zero) && Meaningful(zero, SECONDS) && Meaningful(zero, MINUTES) && Meaningful(zero, HOURS)
      && (NamesValue(zero, SECONDS, t.second) <==> t.second == 0)
      && (NamesValue(zero, MINUTES, t.minute) <==> t.minute == 0)
      && (NamesValue(zero, HOURS, t.hour) <==> t.hour == 0)
  {
    TwoDigits();
    ExactlyNames("0", SECONDS, t.second);
    ExactlyNames("0", MINUTES, t.minute);
    ExactlyNames("0", HOURS, t.hour);
  }

  /** Midnight on every day of the week with this name. */
  function EveryWeek(day: string): seq<seq<Piece>> {
    [Exactly("0"), Exactly("0"), Exactly("0"), ANY, ANY, Named(day)]
  }

  /** The expression with a day name names exactly the midnights of that day of the week. */
  lemma EveryWeekNames(day: string, t: Time)
    requires IsWord(day) && ToLower(day) in DOW.names
    ensures Expression(EveryWeek(day)) && AllMeaningful(EveryWeek(day))
    ensures NamesTime(EveryWeek(day), t)
            <==> Valid(t) && t == Time(t.year, t.month, t.day, 0, 0, 0, 0) && Weekday(t) == DOW.names[ToLower(day)]
  {
    MidnightNames(t);
    AnyNames(DOM, t.day);
    AnyNames(MONTHS, t.month);
    assert 0 <= DOW.names[ToLower(day)] <= 6;
    NameNames(day, DOW, Weekday(t));
  }

  /** Asked on Saturday 30 December 2023 for the next `mon`, the answer is Monday 1 January 2024. */
  lemma NextMonday(r: NextRun)
    requires Expression(EveryWeek("mon")) && Answers(EveryWeek("mon"), Time(2023, 12, 30, 12, 0, 0, 0), r)
    ensures r == At(Time(2024, 1, 1, 0, 0, 0, 0))
  {
    var now, monday := Time(2023, 12, 30, 12, 0, 0, 0), Time(2024, 1, 1, 0, 0, 0, 0);
    MondayIsNamed(monday);
    assert Lt(now, monday) && CronSchedule.Upcoming(now).year == 2023;
    match r
    case Never => assert false;
    case At(t) =>
      assert Le(t, monday);
      MondayIsNamed(t);
      if t != monday {
        NoMondayBefore(t);
        assert false;
      }
  }

  /** Names may be written in any case. */
  lemma NamesInAnyCase(t: Time)
    ensures Expression(EveryWeek("mon")) && Expression(EveryWeek("Mon")) && Expression(EveryWeek("MON"))
    ensures NamesTime(EveryWeek("Mon"), t) <==> NamesTime(EveryWeek("mon"), t)
    ensures NamesTime(EveryWeek("MON"), t) <==> NamesTime(EveryWeek("mon"), t)
  {
    assert ToLower("mon") == "mon" && ToLower("Mon") == "mon" && ToLower("MON") == "mon";
    EveryWeekNames("mon", t);
    EveryWeekNames("Mon", t);
    EveryWeekNames("MON", t);
  }

  lemma MondayIsNamed(t: Time)
    ensures Expression(EveryWeek("mon"))
    ensures NamesTime(EveryWeek("mon"), t)
            <==> Valid(t) && t == Time(t.year, t.month, t.day, 0, 0, 0, 0) && Weekday(t) == 1
    ensures Weekday(Time(2024, 1, 1, 0, 0, 0, 0)) == 1 && Weekday(Time(2023, 12, 31, 0, 0, 0, 0)) == 0
  {
    assert ToLower("mon") == "mon";
    EveryWeekNames("mon", t);
  }

  lemma NoMondayBefore(t: Time)
    requires Valid(t) && t == Time(t.year, t.month, t.day, 0, 0, 0, 0)
    requires Lt(Time(2023, 12, 30, 12, 0, 0, 0), t) && Lt(t, Time(2024, 1, 1, 0, 0, 0, 0))
    ensures Weekday(t) == 0
  {
    assert t == Time(2023, 12, 31, 0, 0, 0, 0);
    MondayIsNamed(t);
  }
}
