/** The leader's cron trigger loop, for one cron among everything else that happens to process graphs
    (pkg/server/cron_controller.go). */
module CronTrigger {
  import opened ProcessGraph
  import opened Calendar
  import opened CronNotation
  import opened CronExpression
  import opened Submission
  import opened Quantities

  // ---------------------------------------------------------------- calcNextRun

  const SECOND: int := 1_000_000_000

  /** Instants are nanoseconds from the beginning of year 1, where Go's zero time lies. The loop compares seconds. */
  predicate IsZero(instant: int) {
    0 <= instant < SECOND
  }

  /** The fields are written in the notation and name the second `t`. */
  ghost predicate Names(fields: seq<string>, t: Time) {
    exists e :: WritesAll(fields, e) && Expression(e) && AllMeaningful(e) && NamesTime(e, t)
  }

  /** What a user can see without running the search: the expression names no second after `now` up to the end of the
      fifth year after the upcoming second's. */
  ghost predicate NothingSoon(fields: seq<string>, now: Time) {
    forall t :: Names(fields, t) && Lt(now, t) ==> t.year > CronSchedule.Upcoming(now).year + 5
  }

  ghost predicate IsEarliest(fields: seq<string>, now: Time, t: Time) {
    && Names(fields, t) && Lt(now, t) && t.year <= CronSchedule.Upcoming(now).year + 5
    && forall u :: Names(fields, u) && Lt(now, u) ==> Le(t, u)
  }

  /** What `calcNextRun` returns at the clock reading `now`. A positive interval is multiplied out in 64 bits. */
  ghost predicate IsNextRun(interval: int, fields: seq<string>, now: Time, next: int) {
    if interval > 0 then next == Instant(now) + Wrap64(interval * SECOND)
    else (NothingSoon(fields, now) && next == 0)
         || exists t :: IsEarliest(fields, now, t) && next == Instant(t)
  }

  /** `calcNextRun`; the branch for random intervals comes after the test that catches every positive interval. */
  method CalcNextRun(interval: int, fields: seq<string>, now: Time) returns (next: int)
    requires Valid(now)
    ensures IsNextRun(interval, fields, now, next)
  {
    if interval > 0 {
      next := Instant(now) + Wrap64(interval * SECOND);
    } else {
      var r := NextOf(fields, now);
      match r {
        case BadExpression => next := 0;
        case Never =>
          assert NothingSoon(fields, now);
          next := 0;
        case At(t) =>
          AnswerIsEarliest(fields, now, t);
          next := Instant(t);
      }
    }
  }

  lemma AnswerIsEarliest(fields: seq<string>, now: Time, t: Time)
    requires exists e :: WritesAll(fields, e) && Expression(e) && AllMeaningful(e)
    requires forall e :: WritesAll(fields, e) && Expression(e) && AllMeaningful(e) ==> Answers(e, now, At(t))
    ensures IsEarliest(fields, now, t)
  {
    var e :| WritesAll(fields, e) && Expression(e) && AllMeaningful(e);
    assert Answers(e, now, At(t)) && Names(fields, t);
    forall u | Names(fields, u) && Lt(now, u) ensures Le(t, u) {
      var f :| WritesAll(fields, f) && Expression(f) && AllMeaningful(f) && NamesTime(f, u);
      assert Answers(f, now, At(t));
    }
  }

  /** A clock reading: not before the Unix epoch. */
  predicate IsClock(now: Time) {
    Valid(now) && now.year >= 1970
  }

  lemma EpochIsFarFromZero(t: Time)
    requires IsClock(t)
    ensures Instant(t) > 0x8000_0000_0000_0000 + SECOND
  {
    assert YearStart(1970) == 719_162;
    if t.year > 1970 { YearsAreApart(1970, t.year); }
  }

  /** The next run is unknown exactly when there is no interval and nothing is named soon. */
  lemma NextRunIsZeroIff(interval: int, fields: seq<string>, now: Time, next: int)
    requires IsClock(now) && IsNextRun(interval, fields, now, next)
    ensures IsZero(next) <==> interval <= 0 && NothingSoon(fields, now)
  {
    EpochIsFarFromZero(now);
    if interval <= 0 && !(NothingSoon(fields, now) && next == 0) {
      var t :| IsEarliest(fields, now, t) && next == Instant(t);
      LaterIsFarFromZero(fields, now, t);
    }
  }

  lemma LaterIsFarFromZero(fields: seq<string>, now: Time, t: Time)
    requires IsClock(now) && IsEarliest(fields, now, t)
    ensures Instant(t) >= SECOND && !NothingSoon(fields, now)
  {
    EpochIsFarFromZero(now);
    OrderIsTimeLine(now, t);
  }

  /** An expression that names nothing soon does so for the rest of the year: a later pass can compute the next run only
      in a later year. */
  lemma NothingSoonAllYear(fields: seq<string>, now: Time, later: Time)
    requires Valid(now) && Valid(later) && Le(now, later) && NothingSoon(fields, now)
    requires CronSchedule.Upcoming(later).year == CronSchedule.Upcoming(now).year
    ensures NothingSoon(fields, later)
  {
    forall t | Names(fields, t) && Lt(later, t) ensures t.year > CronSchedule.Upcoming(later).year + 5 {
      LaterStill(now, later, t);
    }
  }

  // ---------------------------------------------------------------- the loop

  /** The settings of a cron, then what the loop keeps about it. */
  datatype Cron = Cron(interval: int, fields: seq<string>, spec: seq<FunctionSpec>, waitForPrev: bool,
                       nextRun: int, prevGraph: Id)

  /** The cron, the state of every stored process graph, and the history of the graphs this cron has stored. */
  datatype System = System(cron: Cron, graphs: map<Id, State>, started: set<Id>)

  predicate Active(s: System, id: Id) {
    id in s.started && id in s.graphs && !Finished(s.graphs[id])
  }

  function Stored(s: System, id: Id): System {
    s.(graphs := s.graphs[id := Waiting], started := s.started + {id})
  }

  /** `startCron`. A bad name is found before the graph is stored, an unknown dependency afterwards; in both cases the
      cron is not updated. */
  ghost function Start(s: System, next: int, id: Id): System {
    if !NamesOk(s.cron.spec) then s
    else if !DependenciesOk(s.cron.spec) then Stored(s, id)
    else Stored(s, id).(cron := s.cron.(nextRun := next, prevGraph := id))
  }

  predicate Starts(s: System, now: Time) {
    && !IsZero(s.cron.nextRun) && Instant(now) > s.cron.nextRun
    && (s.cron.prevGraph !in s.graphs || !s.cron.waitForPrev || Finished(s.graphs[s.cron.prevGraph]))
  }

  /** The body of `triggerCrons` for this cron: the first evaluation only computes the next run. */
  ghost function Trigger(s: System, now: Time, next: int, id: Id): System {
    if IsZero(s.cron.nextRun) then s.(cron := s.cron.(nextRun := next, prevGraph := ""))
    else if Starts(s, now) then Start(s, next, id)
    else s
  }

  datatype Step =
    | Tick(now: Time, next: int, id: Id)
    | Progress(id: Id, st: State)
    | Remove(id: Id)

  /** Graph ids are random: a new one is not in use anywhere. */
  predicate FreshGraph(s: System, id: Id) {
    id !in s.graphs && id !in s.started && id != "" && id != s.cron.prevGraph
  }

  /** The next run of the pass is the computed one. */
  ghost predicate Computed(s: System, x: Step) {
    x.Tick? && IsClock(x.now) && IsNextRun(s.cron.interval, s.cron.fields, x.now, x.next)
  }

  /** The next run is the one that `calcNextRun` computes, a new graph gets a fresh id, and a finished graph keeps its
      state. */
  ghost predicate Legal(s: System, step: Step) {
    match step
    case Tick(now, next, id) => Computed(s, step) && FreshGraph(s, id)
    case Progress(id, st) => id != "" && (id in s.started ==> id in s.graphs)
                             && (id in s.graphs && Finished(s.graphs[id]) ==> st == s.graphs[id])
    case Remove(id) => true
  }

  ghost function Apply(s: System, step: Step): System {
    match step
    case Tick(now, next, id) => Trigger(s, now, next, id)
    case Progress(id, st) => s.(graphs := s.graphs[id := st])
    case Remove(id) => s.(graphs := s.graphs - {id})
  }

  ghost predicate LegalRun(s: System, steps: seq<Step>)
    decreases |steps|
  {
    steps == [] || (Legal(s, steps[0]) && LegalRun(Apply(s, steps[0]), steps[1..]))
  }

  ghost function Execute(s: System, steps: seq<Step>): System
    decreases |steps|
  {
    if steps == [] then s else Execute(Apply(s, steps[0]), steps[1..])
  }

  // ---------------------------------------------------------------- at most one unfinished graph

  /** Starting now would lose track: the specification has an unknown dependency, or nothing is named soon. */
  ghost predicate LosesTrack(c: Cron, now: Time) {
    NamesOk(c.spec) && (!DependenciesOk(c.spec) || (c.interval <= 0 && NothingSoon(c.fields, now)))
  }

  ghost predicate StartsBlindly(s: System, step: Step) {
    step.Tick? && Starts(s, step.now) && LosesTrack(s.cron, step.now)
  }

  ghost predicate NeverStartsBlindly(s: System, steps: seq<Step>)
    decreases |steps|
  {
    steps == [] || (!StartsBlindly(s, steps[0]) && NeverStartsBlindly(Apply(s, steps[0]), steps[1..]))
  }

  ghost predicate AtMostOneActive(s: System) {
    forall a, b :: Active(s, a) && Active(s, b) ==> a == b
  }

  /** The only active graph is the one the cron remembers, and a cron that has not been evaluated has none. */
  ghost predicate Inv(s: System) {
    && s.cron.waitForPrev && "" !in s.graphs
    && (forall id :: Active(s, id) ==> id == s.cron.prevGraph && !IsZero(s.cron.nextRun))
  }

  /** A cron that has started nothing, whatever its settings and whatever else is stored. */
  lemma NewCronSatisfiesInv(c: Cron, graphs: map<Id, State>)
    requires c.waitForPrev && "" !in graphs
    ensures Inv(System(c, graphs, {}))
  {
  }

  /** A step keeps the invariant exactly when it does not start a graph of a specification with an unknown dependency,
      or of a cron whose expression names nothing soon. */
  lemma StepKeepsInvIff(s: System, step: Step)
    requires Inv(s) && Legal(s, step)
    ensures Inv(Apply(s, step)) <==> !StartsBlindly(s, step)
  {
    if step.Tick? {
      NextRunIsZeroIff(s.cron.interval, s.cron.fields, step.now, step.next);
      TickKeepsInvIff(s, step.now, step.next, step.id);
    } else {
      OthersKeepInv(s, step);
    }
  }

  lemma TickKeepsInvIff(s: System, now: Time, next: int, id: Id)
    requires Inv(s) && FreshGraph(s, id)
    ensures Inv(Trigger(s, now, next, id))
            <==> !(Starts(s, now) && NamesOk(s.cron.spec) && (!DependenciesOk(s.cron.spec) || IsZero(next)))
  {
    if IsZero(s.cron.nextRun) {
      assert forall x :: Active(Trigger(s, now, next, id), x) ==> Active(s, x);
    } else if Starts(s, now) {
      assert forall x :: !Active(s, x);
      StartKeepsInvIff(s, next, id);
    }
  }

  lemma StartKeepsInvIff(s: System, next: int, id: Id)
    requires Inv(s) && FreshGraph(s, id) && forall x :: !Active(s, x)
    ensures Inv(Start(s, next, id))
            <==> !(NamesOk(s.cron.spec) && (!DependenciesOk(s.cron.spec) || IsZero(next)))
  {
    var ok := NamesOk(s.cron.spec) && DependenciesOk(s.cron.spec);
    var t := Start(s, next, id);
    if NamesOk(s.cron.spec) {
      assert t.started == s.started + {id} && t.graphs == s.graphs[id := Waiting];
      StoredIsOnlyActive(s, t, id);
      assert Active(t, id);
      if !ok { StoredIsForgotten(s, id); }
    }
  }

  lemma StoredIsOnlyActive(s: System, t: System, id: Id)
    requires id !in s.graphs && forall x :: !Active(s, x)
    requires t.started == s.started + {id} && t.graphs == s.graphs[id := Waiting]
    ensures forall x :: Active(t, x) <==> x == id
  {
    forall x ensures Active(t, x) <==> x == id { assert !Active(s, x); }
  }

  /** Without an update of the cron, the stored graph is not the one it remembers. */
  lemma StoredIsForgotten(s: System, id: Id)
    requires Inv(s) && FreshGraph(s, id) && forall x :: !Active(s, x)
    ensures !Inv(Stored(s, id))
  {
    StoredIsOnlyActive(s, Stored(s, id), id);
    assert Active(Stored(s, id), id);
  }

  lemma OthersKeepInv(s: System, step: Step)
    requires Inv(s) && Legal(s, step) && !step.Tick?
    ensures Inv(Apply(s, step))
  {
    assert forall x :: Active(Apply(s, step), x) ==> Active(s, x);
  }

  /** The invariant holds in every state of the run. */
  ghost predicate InvThroughout(s: System, steps: seq<Step>)
    decreases |steps|
  {
    Inv(s) && (steps == [] || InvThroughout(Apply(s, steps[0]), steps[1..]))
  }

  /** A cron that waits for its previous graph remembers its only unfinished graph in every state of a run exactly when
      the run never makes such a start. */
  lemma {:induction false} RunKeepsInvIff(s: System, steps: seq<Step>)
    requires Inv(s) && LegalRun(s, steps)
    ensures InvThroughout(s, steps) <==> NeverStartsBlindly(s, steps)
    decreases |steps|
  {
    if steps != [] {
      StepKeepsInvIff(s, steps[0]);
      if !StartsBlindly(s, steps[0]) { RunKeepsInvIff(Apply(s, steps[0]), steps[1..]); }
    }
  }

  /** In such a run there is at most one unfinished graph at any time. */
  lemma {:induction false} RunKeepsOneActive(s: System, steps: seq<Step>, k: nat)
    requires Inv(s) && LegalRun(s, steps) && NeverStartsBlindly(s, steps) && k <= |steps|
    ensures AtMostOneActive(Execute(s, steps[..k]))
    decreases |steps|
  {
    if k > 0 {
      StepKeepsInvIff(s, steps[0]);
      assert steps[..k][1..] == steps[1..][..k - 1];
      RunKeepsOneActive(Apply(s, steps[0]), steps[1..], k - 1);
    }
  }

  ghost predicate SameSettings(a: Cron, b: Cron) {
    b == a.(nextRun := b.nextRun, prevGraph := b.prevGraph)
  }

  lemma {:induction false} IntervalNeverStartsBlindly(s: System, steps: seq<Step>)
    requires s.cron.interval > 0 && Accepted(s.cron.spec)
    ensures NeverStartsBlindly(s, steps)
    decreases |steps|
  {
    if NamesOk(s.cron.spec) { AcceptedHasNoUnknownDependency(s.cron.spec); }
    if steps != [] {
      assert SameSettings(s.cron, Apply(s, steps[0]).cron);
      IntervalNeverStartsBlindly(Apply(s, steps[0]), steps[1..]);
    }
  }

  /** A new cron with an interval and a specification that the handler accepts has at most one unfinished graph in every
      state of every run. */
  lemma IntervalCronHasOneActive(c: Cron, graphs: map<Id, State>, steps: seq<Step>, k: nat)
    requires c.waitForPrev && "" !in graphs && c.interval > 0 && Accepted(c.spec)
    requires LegalRun(System(c, graphs, {}), steps) && k <= |steps|
    ensures AtMostOneActive(Execute(System(c, graphs, {}), steps[..k]))
  {
    NewCronSatisfiesInv(c, graphs);
    IntervalNeverStartsBlindly(System(c, graphs, {}), steps);
    RunKeepsOneActive(System(c, graphs, {}), steps, k);
  }

  /** So has a new cron with an expression that, at every clock reading of the run, names something soon. */
  lemma ExpressionCronHasOneActive(c: Cron, graphs: map<Id, State>, steps: seq<Step>, k: nat)
    requires c.waitForPrev && "" !in graphs && Accepted(c.spec)
    requires LegalRun(System(c, graphs, {}), steps) && k <= |steps|
    requires forall i :: 0 <= i < |steps| && steps[i].Tick? ==> !NothingSoon(c.fields, steps[i].now)
    ensures AtMostOneActive(Execute(System(c, graphs, {}), steps[..k]))
  {
    NewCronSatisfiesInv(c, graphs);
    NamedNeverStartsBlindly(System(c, graphs, {}), c, steps);
    RunKeepsOneActive(System(c, graphs, {}), steps, k);
  }

  lemma {:induction false} NamedNeverStartsBlindly(s: System, c: Cron, steps: seq<Step>)
    requires SameSettings(c, s.cron) && Accepted(c.spec)
    requires forall i :: 0 <= i < |steps| && steps[i].Tick? ==> !NothingSoon(c.fields, steps[i].now)
    ensures NeverStartsBlindly(s, steps)
    decreases |steps|
  {
    if NamesOk(c.spec) { AcceptedHasNoUnknownDependency(c.spec); }
    if steps != [] {
      assert SameSettings(c, Apply(s, steps[0]).cron);
      NamedNeverStartsBlindly(Apply(s, steps[0]), c, steps[1..]);
    }
  }

  // ---------------------------------------------------------------- when a cron starts

  /** What a pass does to a cron whose specification can be created. It starts a graph exactly when a computed next run
      has passed and nothing holds it back: no previous graph is stored, or the cron does not wait, or the previous
      graph has succeeded or failed. The first evaluation only computes the next run. */
  lemma PassEffect(s: System, now: Time, next: int, id: Id)
    requires FreshGraph(s, id) && NamesOk(s.cron.spec) && DependenciesOk(s.cron.spec)
    ensures var t := Trigger(s, now, next, id);
      var due := s.cron.nextRun >= 1_000_000_000 || s.cron.nextRun < 0;
      var free := s.cron.prevGraph !in s.graphs || !s.cron.waitForPrev
                  || s.graphs[s.cron.prevGraph] == Success || s.graphs[s.cron.prevGraph] == Failed;
      && (id in t.started <==> due && Instant(now) > s.cron.nextRun && free)
      && (id in t.started ==>
            && t.cron == s.cron.(nextRun := next, prevGraph := id)
            && t.graphs == s.graphs[id := Waiting] && t.started == s.started + {id})
      && (id !in t.started ==>
            && t.graphs == s.graphs && t.started == s.started
            && t.cron == if due then s.cron else s.cron.(nextRun := next, prevGraph := ""))
  {
  }

  /** A cron that does not wait starts at the first pass after its next run. */
  lemma DueCronStarts(s: System, now: Time, next: int, id: Id)
    requires FreshGraph(s, id) && NamesOk(s.cron.spec) && DependenciesOk(s.cron.spec)
    requires !s.cron.waitForPrev && s.cron.nextRun >= 1_000_000_000 && Instant(now) > s.cron.nextRun
    ensures id in Trigger(s, now, next, id).started
  {
    PassEffect(s, now, next, id);
  }

  /** The pass at position `i` of the run stores a graph. */
  ghost predicate StoresAt(s: System, steps: seq<Step>, i: nat) {
    && i < |steps| && steps[i].Tick?
    && steps[i].id in Execute(s, steps[..i + 1]).started && steps[i].id !in Execute(s, steps[..i]).started
  }

  lemma {:induction false} RunPrefix(s: System, steps: seq<Step>, k: nat)
    requires LegalRun(s, steps) && k < |steps|
    ensures Execute(s, steps[..k + 1]) == Apply(Execute(s, steps[..k]), steps[k])
    ensures Legal(Execute(s, steps[..k]), steps[k]) && SameSettings(s.cron, Execute(s, steps[..k]).cron)
    decreases |steps|
  {
    assert steps[..k + 1][1..] == steps[1..][..k];
    if k > 0 {
      assert steps[..k][1..] == steps[1..][..k - 1];
      RunPrefix(Apply(s, steps[0]), steps[1..], k - 1);
    }
  }

  lemma StepOfRun(s: System, steps: seq<Step>, k: nat)
    requires LegalRun(s, steps) && k < |steps| && NamesOk(s.cron.spec) && DependenciesOk(s.cron.spec)
    ensures var a, b := Execute(s, steps[..k]), Execute(s, steps[..k + 1]);
      && (StoresAt(s, steps, k) ==> b.cron.nextRun == steps[k].next)
      && (!StoresAt(s, steps, k) && !IsZero(a.cron.nextRun) ==> b.cron.nextRun == a.cron.nextRun)
  {
    RunPrefix(s, steps, k);
    var a := Execute(s, steps[..k]);
    if steps[k].Tick? { PassEffect(a, steps[k].now, steps[k].next, steps[k].id); }
  }

  lemma StartIsDue(s: System, steps: seq<Step>, k: nat)
    requires LegalRun(s, steps) && NamesOk(s.cron.spec) && DependenciesOk(s.cron.spec) && StoresAt(s, steps, k)
    ensures Instant(steps[k].now) > Execute(s, steps[..k]).cron.nextRun
  {
    RunPrefix(s, steps, k);
    PassEffect(Execute(s, steps[..k]), steps[k].now, steps[k].next, steps[k].id);
  }

  /** Until the next start, the next run is the one computed at the last start. */
  lemma {:induction false} NextRunHolds(s: System, steps: seq<Step>, i: nat, k: nat)
    requires LegalRun(s, steps) && NamesOk(s.cron.spec) && DependenciesOk(s.cron.spec)
    requires StoresAt(s, steps, i) && !IsZero(steps[i].next) && i < k <= |steps|
    requires forall j :: i < j < k ==> !StoresAt(s, steps, j)
    ensures Execute(s, steps[..k]).cron.nextRun == steps[i].next
    decreases k
  {
    StepOfRun(s, steps, k - 1);
    if k > i + 1 { NextRunHolds(s, steps, i, k - 1); }
  }

  /** Between two starts the clock passes the next run that was computed at the first. */
  lemma NextStartIsLater(s: System, steps: seq<Step>, i: nat, j: nat)
    requires LegalRun(s, steps) && NamesOk(s.cron.spec) && DependenciesOk(s.cron.spec)
    requires StoresAt(s, steps, i) && !IsZero(steps[i].next) && i < j && StoresAt(s, steps, j)
    requires forall k :: i < k < j ==> !StoresAt(s, steps, k)
    ensures Instant(steps[j].now) > steps[i].next
  {
    NextRunHolds(s, steps, i, j);
    StartIsDue(s, steps, j);
  }

  /** The clock does not go back. */
  ghost predicate ClockRuns(steps: seq<Step>) {
    forall i, j :: 0 <= i < j < |steps| && steps[i].Tick? && steps[j].Tick? ==>
      Instant(steps[i].now) <= Instant(steps[j].now)
  }

  lemma {:induction false} FirstStartAfter(s: System, steps: seq<Step>, i: nat, j: nat) returns (k: nat)
    requires i < j && StoresAt(s, steps, j)
    ensures i < k <= j && StoresAt(s, steps, k) && forall m :: i < m < k ==> !StoresAt(s, steps, m)
    decreases j
  {
    if m :| i < m < j && StoresAt(s, steps, m) { k := FirstStartAfter(s, steps, i, m); } else { k := j; }
  }

  /** A cron with an interval starts at most once in each interval: any two starts are more than the interval apart. */
  lemma StartsAreApart(s: System, steps: seq<Step>, i: nat, j: nat)
    requires LegalRun(s, steps) && ClockRuns(steps) && NamesOk(s.cron.spec) && DependenciesOk(s.cron.spec)
    requires 0 < s.cron.interval && s.cron.interval * 1_000_000_000 <= 0x7FFF_FFFF_FFFF_FFFF
    requires i < j && StoresAt(s, steps, i) && StoresAt(s, steps, j)
    ensures Instant(steps[j].now) - Instant(steps[i].now) > s.cron.interval * 1_000_000_000
  {
    StartAddsInterval(s, steps, i);
    var k := FirstStartAfter(s, steps, i, j);
    NextStartIsLater(s, steps, i, k);
    LaterReading(steps, k, j);
  }

  lemma LaterReading(steps: seq<Step>, k: nat, j: nat)
    requires ClockRuns(steps) && k <= j < |steps| && steps[k].Tick? && steps[j].Tick?
    ensures Instant(steps[k].now) <= Instant(steps[j].now)
  {
  }

  lemma StartAddsInterval(s: System, steps: seq<Step>, i: nat)
    requires LegalRun(s, steps) && i < |steps| && steps[i].Tick?
    requires 0 < s.cron.interval && s.cron.interval * 1_000_000_000 <= 0x7FFF_FFFF_FFFF_FFFF
    ensures steps[i].next == Instant(steps[i].now) + s.cron.interval * 1_000_000_000 && !IsZero(steps[i].next)
  {
    RunPrefix(s, steps, i);
    IntervalIsAdded(Execute(s, steps[..i]), steps[i]);
  }

  lemma IntervalIsAdded(s: System, x: Step)
    requires Computed(s, x) && 0 < s.cron.interval && s.cron.interval * 1_000_000_000 <= 0x7FFF_FFFF_FFFF_FFFF
    ensures x.next == Instant(x.now) + s.cron.interval * 1_000_000_000 && !IsZero(x.next)
  {
    EpochIsFarFromZero(x.now);
  }

  // ---------------------------------------------------------------- how track is lost

  /** When a cron starts while nothing is named soon, the zero time makes the loop forget the graph it has just started.
      The first pass that computes a next run again, and the first one after that run has come, leave two unfinished
      graphs. */
  lemma UnknownNextRunLosesTrack(s: System, x: Step, y: Step, z: Step)
    requires x.Tick? && y.Tick? && z.Tick? && NamesOk(s.cron.spec) && DependenciesOk(s.cron.spec) && "" !in s.graphs
    requires FreshGraph(s, x.id) && FreshGraph(Apply(s, x), y.id) && FreshGraph(Apply(Apply(s, x), y), z.id)
    requires Starts(s, x.now) && IsZero(x.next) && !IsZero(y.next) && Instant(z.now) > y.next
    ensures !AtMostOneActive(Apply(Apply(Apply(s, x), y), z))
  {
    var s2 := Apply(Apply(s, x), y);
    assert s2.cron.prevGraph == "" && Starts(s2, z.now);
    var s3 := Apply(s2, z);
    assert Active(s3, x.id) && Active(s3, z.id) && x.id != z.id;
  }

  // ---------------------------------------------------------------- a cron that loses track: every 29 February

  const LEAP_DAY: seq<string> := ["0", "0", "0", "29", "2", "*"]

  function LeapDay(): seq<seq<Piece>> {
    [Exactly("0"), Exactly("0"), Exactly("0"), Exactly("29"), Exactly("2"), ANY]
  }

  lemma LeapDayIsWritten()
    ensures WritesAll(LEAP_DAY, LeapDay()) && Expression(LeapDay())
  {
    forall i | 0 <= i < 6 ensures Writes(LEAP_DAY[i], LeapDay()[i]) {
      var ps := LeapDay()[i];
      assert AllWellWritten(ps);
      PrintedFieldPieces(ps);
      assert Print(ps[0]) == LEAP_DAY[i];
      assert Text.Join(PrintAll(ps), ',') == LEAP_DAY[i];
    }
  }

  predicate IsLeapDay(t: Time) {
    Valid(t) && t == Time(t.year, 2, 29, 0, 0, 0, 0)
  }

  lemma LeapDayNames(t: Time)
    ensures Expression(LeapDay()) && AllMeaningful(LeapDay())
    ensures NamesTime(LeapDay(), t) <==> IsLeapDay(t)
  {
    LeapDayIsWritten();
    TwoDigits();
    MidnightNames(t);
    ExactlyNames("2", CronParser.MONTHS, t.month);
    LeapDayOfMonth(t);
  }

  lemma LeapDayOfMonth(t: Time)
    ensures AllWellWritten(LeapDay()[3]) && AllWellWritten(LeapDay()[5])
    ensures Meaningful(LeapDay()[3], CronParser.DOM) && Meaningful(LeapDay()[5], CronParser.DOW)
    ensures Valid(t) ==> (NamesDay(LeapDay()[3], LeapDay()[5], t) <==> t.day == 29)
  {
    TwoDigits();
    ExactlyNames("29", CronParser.DOM, t.day);
    AnyNames(CronParser.DOW, Weekday(t));
  }

  /** Every way of reading the six texts names the same seconds. */
  lemma LeapDayFields(t: Time)
    ensures Names(LEAP_DAY, t) <==> IsLeapDay(t)
  {
    LeapDayIsWritten();
    LeapDayNames(t);
    forall e | WritesAll(LEAP_DAY, e) && Expression(e) && AllMeaningful(e)
      ensures NamesTime(e, t) <==> NamesTime(LeapDay(), t)
    {
      SameMeaning(LEAP_DAY, e, LeapDay(), t);
    }
  }

  lemma LeapGap(y: int)
    requires Leap(y)
    ensures y > 2096 ==> y >= 2104
    ensures y > 2104 ==> y >= 2108
  {
  }

  function LeapDayOf(y: int): Time {
    Time(y, 2, 29, 0, 0, 0, 0)
  }

  lemma LaterLeapDay(now: Time, t: Time)
    requires now in {Time(2096, 2, 29, 0, 0, 1, 0), Time(2099, 1, 1, 0, 0, 0, 0), Time(2104, 2, 29, 0, 0, 1, 0)}
    requires IsLeapDay(t) && Lt(now, t)
    ensures t.year >= if now.year == 2104 then 2108 else 2104
  {
    LeapGap(t.year);
  }

  lemma NothingSoonIn2096()
    ensures NothingSoon(LEAP_DAY, Time(2096, 2, 29, 0, 0, 1, 0))
  {
    var now := Time(2096, 2, 29, 0, 0, 1, 0);
    assert CronSchedule.Upcoming(now).year == 2096;
    forall t | Names(LEAP_DAY, t) && Lt(now, t) ensures t.year > 2101 {
      LeapDayFields(t);
      LaterLeapDay(now, t);
    }
  }

  lemma NextLeapDay(fields: seq<string>, now: Time, y: int)
    requires fields == LEAP_DAY
    requires (now == Time(2099, 1, 1, 0, 0, 0, 0) && y == 2104) || (now == Time(2104, 2, 29, 0, 0, 1, 0) && y == 2108)
    ensures IsEarliest(fields, now, LeapDayOf(y))
  {
    var t := LeapDayOf(y);
    assert CronSchedule.Upcoming(now).year == now.year;
    LeapDayFields(t);
    assert IsLeapDay(t) && Lt(now, t);
    forall u | Names(fields, u) && Lt(now, u) ensures Le(t, u) {
      LeapDayFields(u);
      LaterLeapDay(now, u);
      LeapDaysInOrder(t, u);
    }
  }

  lemma LeapDaysInOrder(t: Time, u: Time)
    requires IsLeapDay(t) && IsLeapDay(u) && t.year <= u.year
    ensures Le(t, u)
  {
  }

  /** The cron starts on 29 February 2096 and cannot compute its next run, since 2100 is no leap year and 2104 is beyond
      the horizon. In 2099 it can again, having forgotten the graph; in 2104 it starts another one beside it. */
  lemma LeapDayCronLosesTrack(spec: seq<FunctionSpec>, a: Id, b: Id, c: Id)
    requires NamesOk(spec) && Accepted(spec) && a != b && a != c && a != "" && b != "" && c != ""
    ensures var s := System(Cron(-1, LEAP_DAY, spec, true, Instant(LeapDayOf(2096)), ""), map[], {});
      var x := Tick(Time(2096, 2, 29, 0, 0, 1, 0), 0, a);
      var y := Tick(Time(2099, 1, 1, 0, 0, 0, 0), Instant(LeapDayOf(2104)), b);
      var z := Tick(Time(2104, 2, 29, 0, 0, 1, 0), Instant(LeapDayOf(2108)), c);
      && Inv(s) && Legal(s, x) && Legal(Apply(s, x), y) && Legal(Apply(Apply(s, x), y), z)
      && !AtMostOneActive(Apply(Apply(Apply(s, x), y), z))
  {
    var s := System(Cron(-1, LEAP_DAY, spec, true, Instant(LeapDayOf(2096)), ""), map[], {});
    AcceptedHasNoUnknownDependency(spec);
    NewCronSatisfiesInv(s.cron, map[]);
    LeapDayRun(s, Tick(Time(2096, 2, 29, 0, 0, 1, 0), 0, a),
               Tick(Time(2099, 1, 1, 0, 0, 0, 0), Instant(LeapDayOf(2104)), b),
               Tick(Time(2104, 2, 29, 0, 0, 1, 0), Instant(LeapDayOf(2108)), c));
  }

  /** The three passes on a system that has started nothing. */
  ghost predicate LeapDayTicks(s: System, x: Step, y: Step, z: Step) {
    && s.graphs == map[] && s.started == {} && s.cron.interval == -1 && s.cron.fields == LEAP_DAY
    && s.cron.nextRun == Instant(LeapDayOf(2096)) && s.cron.prevGraph == ""
    && NamesOk(s.cron.spec) && DependenciesOk(s.cron.spec)
    && x.Tick? && x.now == Time(2096, 2, 29, 0, 0, 1, 0) && x.next == 0
    && y.Tick? && y.now == Time(2099, 1, 1, 0, 0, 0, 0) && y.next == Instant(LeapDayOf(2104))
    && z.Tick? && z.now == Time(2104, 2, 29, 0, 0, 1, 0) && z.next == Instant(LeapDayOf(2108))
    && x.id != y.id && x.id != z.id && x.id != "" && y.id != "" && z.id != ""
  }

  lemma LeapDayStates(s: System, x: Step, y: Step, z: Step)
    requires LeapDayTicks(s, x, y, z)
    ensures Starts(s, x.now) && IsZero(x.next) && !IsZero(y.next) && Instant(z.now) > y.next
    ensures Apply(s, x) == System(s.cron.(nextRun := 0, prevGraph := x.id), map[x.id := Waiting], {x.id})
    ensures Apply(Apply(s, x), y)
            == System(s.cron.(nextRun := y.next, prevGraph := ""), map[x.id := Waiting], {x.id})
  {
    LeapDayIsDue();
  }

  lemma LeapDayFirst(s: System, x: Step, y: Step, z: Step)
    requires LeapDayTicks(s, x, y, z)
    ensures Legal(s, x)
  {
    UnknownIsComputed(s, x);
  }

  lemma LeapDaySecond(s: System, x: Step, y: Step, z: Step)
    requires LeapDayTicks(s, x, y, z)
    ensures Legal(Apply(s, x), y)
  {
    LeapDayStates(s, x, y, z);
    KnownIsComputed(Apply(s, x), y, 2104);
  }

  lemma LeapDayThird(s: System, x: Step, y: Step, z: Step)
    requires LeapDayTicks(s, x, y, z)
    ensures Legal(Apply(Apply(s, x), y), z)
  {
    LeapDayStates(s, x, y, z);
    KnownIsComputed(Apply(Apply(s, x), y), z, 2108);
  }

  lemma UnknownIsComputed(s: System, x: Step)
    requires s.cron.interval == -1 && s.cron.fields == LEAP_DAY
    requires x.Tick? && x.now == Time(2096, 2, 29, 0, 0, 1, 0) && x.next == 0
    ensures Computed(s, x)
  {
    NothingSoonIn2096();
  }

  lemma KnownIsComputed(s: System, x: Step, y: int)
    requires s.cron.interval == -1 && s.cron.fields == LEAP_DAY && x.Tick? && x.next == Instant(LeapDayOf(y))
    requires (x.now == Time(2099, 1, 1, 0, 0, 0, 0) && y == 2104)
             || (x.now == Time(2104, 2, 29, 0, 0, 1, 0) && y == 2108)
    ensures Computed(s, x)
  {
    assert IsClock(x.now);
    NextLeapDayRun(s.cron.interval, s.cron.fields, x.now, y, x.next);
  }

  lemma NextLeapDayRun(interval: int, fields: seq<string>, now: Time, y: int, next: int)
    requires interval <= 0 && fields == LEAP_DAY && next == Instant(LeapDayOf(y))
    requires (now == Time(2099, 1, 1, 0, 0, 0, 0) && y == 2104) || (now == Time(2104, 2, 29, 0, 0, 1, 0) && y == 2108)
    ensures IsNextRun(interval, fields, now, next)
  {
    NextLeapDay(fields, now, y);
    EarliestIsNextRun(interval, fields, now, LeapDayOf(y));
  }

  lemma EarliestIsNextRun(interval: int, fields: seq<string>, now: Time, t: Time)
    requires interval <= 0 && IsEarliest(fields, now, t)
    ensures IsNextRun(interval, fields, now, Instant(t))
  {
  }

  lemma LeapDayRun(s: System, x: Step, y: Step, z: Step)
    requires LeapDayTicks(s, x, y, z)
    ensures Legal(s, x) && Legal(Apply(s, x), y) && Legal(Apply(Apply(s, x), y), z)
    ensures !AtMostOneActive(Apply(Apply(Apply(s, x), y), z))
  {
    assert !AtMostOneActive(Apply(Apply(Apply(s, x), y), z)) by {
      LeapDayStates(s, x, y, z);
      UnknownNextRunLosesTrack(s, x, y, z);
    }
    LeapDayFirst(s, x, y, z);
    LeapDaySecond(s, x, y, z);
    LeapDayThird(s, x, y, z);
  }

  lemma LeapDayIsDue()
    ensures Instant(LeapDayOf(2096)) >= SECOND && Instant(LeapDayOf(2104)) >= SECOND
    ensures Instant(Time(2096, 2, 29, 0, 0, 1, 0)) > Instant(LeapDayOf(2096))
    ensures Instant(Time(2104, 2, 29, 0, 0, 1, 0)) > Instant(LeapDayOf(2104))
  {
  }

  // ---------------------------------------------------------------- the loop over stored state

  class CronStore {
    var s: System
    const db: Tables

    constructor (s: System, db: Tables)
      ensures this.s == s && this.db == db
    {
      this.s, this.db := s, db;
    }

    /** `startCron`; `ids` are the ids of the new processes. */
    method StartCron(now: Time, id: Id, ids: seq<Id>) returns (ghost next: int)
      requires Valid(now) && Fresh(s.cron.spec, ids) && forall x :: x in ids ==> x !in db.processes
      modifies this, db
      ensures IsNextRun(old(s).cron.interval, old(s).cron.fields, now, next)
      ensures s == Start(old(s), next, id)
      ensures NamesOk(old(s).cron.spec) ==>
        db.graphs == old(db.graphs)[id := RootIds(old(s).cron.spec, ids, |old(s).cron.spec|)]
      ensures NamesOk(old(s).cron.spec) && DependenciesOk(old(s).cron.spec) ==>
        Built(old(s).cron.spec, ids, db.processes - old(db.processes).Keys, db.graphs[id])
    {
      var c := s.cron;
      var run := CalcNextRun(c.interval, c.fields, now);
      next := run;
      var err, _ := CreateProcessGraph(db, id, c.spec, ids);
      if err.Some? && err.value != UnknownDependency { return; }
      s := Stored(s, id);
      if err.Some? { return; }
      s := s.(cron := c.(nextRun := run, prevGraph := id));
    }

    method TriggerCron(now: Time, id: Id, ids: seq<Id>) returns (ghost next: int)
      requires Valid(now) && Fresh(s.cron.spec, ids) && forall x :: x in ids ==> x !in db.processes
      modifies this, db
      ensures IsNextRun(old(s).cron.interval, old(s).cron.fields, now, next)
      ensures s == Trigger(old(s), now, next, id)
    {
      var c := s.cron;
      var run := CalcNextRun(c.interval, c.fields, now);
      next := run;
      if IsZero(c.nextRun) {
        s := s.(cron := c.(nextRun := run, prevGraph := ""));
        return;
      }
      if Instant(now) - c.nextRun > 0 {
        if c.prevGraph !in s.graphs {
          next := StartCron(now, id, ids);
          return;
        }
        if c.waitForPrev {
          var st := s.graphs[c.prevGraph];
          if st == Success || st == Failed { next := StartCron(now, id, ids); }
        } else {
          next := StartCron(now, id, ids);
        }
      }
    }
  }
}
