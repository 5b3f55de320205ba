/** Priority times and the selection of the process to hand out
    (pkg/core/process.go, pkg/server/verification.go, pkg/scheduler/scheduler.go,
    pkg/database/postgresql/processes.go). */
module Scheduling {
  import opened ProcessGraph
  import opened Resolve
  import opened Runs
  import opened Calendar
  import opened Quantities
  import opened Text

  // ---------------------------------------------------------------- priority time

  const MIN_PRIORITY: int := -50000
  const MAX_PRIORITY: int := 50000

  /** Nanoseconds in a day. */
  const DAY: int := 86_400_000_000_000

  predicate AcceptedPriority(priority: int) {
    MIN_PRIORITY <= priority <= MAX_PRIORITY
  }

  /** The priorities that are accepted, and a day as the calendar has it. */
  lemma PriorityUnits(priority: int, t: Time)
    requires Valid(t)
    ensures AcceptedPriority(priority) <==> -50000 <= priority <= 50000
    ensures Instant(AddDay(t)) - Instant(t) == DAY
  {
    DayMovesTheInstant(t);
  }

  /** `SetSubmissionTime`, in 64-bit arithmetic. */
  function PriorityTime(priority: int, submitted: int): int {
    Wrap64(Wrap64(priority * -DAY) + submitted)
  }

  /** The mathematical priority time is a 64-bit integer. */
  predicate Fits64(priority: int, submitted: int) {
    MIN_INT64 <= submitted - priority * DAY <= MAX_INT64
  }

  /** Wrapping twice is wrapping once. */
  lemma WrapTwice(a: int, b: int)
    ensures Wrap64(Wrap64(a) + b) == Wrap64(a + b)
  {
    var m := 0x1_0000_0000_0000_0000;
    var k := (a - MIN_INT64) / m;
    assert Wrap64(a) == a - k * m;
    assert (a + b - MIN_INT64) % m == (a + b - MIN_INT64 - k * m) % m;
  }

  /** The arithmetic is exact, for every priority, exactly when the result fits 64 bits. */
  lemma PriorityTimeIsExactIff(priority: int, submitted: int)
    ensures PriorityTime(priority, submitted) == submitted - priority * DAY <==> Fits64(priority, submitted)
  {
    WrapTwice(priority * -DAY, submitted);
    assert priority * -DAY + submitted == submitted - priority * DAY;
  }

  /** Submission times, in nanoseconds, that leave room for every accepted priority. */
  predicate WithinRange(submitted: int) {
    MIN_INT64 + MAX_PRIORITY * DAY <= submitted <= MAX_INT64 - MAX_PRIORITY * DAY
  }

  /** It is exact for all priorities that `VerifyFunctionSpec` accepts exactly when the submission time is in range. */
  lemma AcceptedPrioritiesAreExactIff(submitted: int)
    requires MIN_INT64 <= submitted <= MAX_INT64
    ensures WithinRange(submitted) <==> forall p :: AcceptedPriority(p) ==> Fits64(p, submitted)
  {
    if !WithinRange(submitted) {
      assert !Fits64(if submitted < 0 then MAX_PRIORITY else MIN_PRIORITY, submitted);
    }
  }

  /** Every submission time within 4.9e18 nanoseconds of the epoch is in range. */
  lemma PracticalTimesAreExact(priority: int, submitted: int)
    requires -4_900_000_000_000_000_000 <= submitted <= 4_900_000_000_000_000_000 && AcceptedPriority(priority)
    ensures PriorityTime(priority, submitted) == submitted - priority * DAY
  {
    PriorityTimeIsExactIff(priority, submitted);
  }

  /** Only plain submissions are checked. A function spec of a workflow can ask for a priority that wraps around: in
      2024 it then comes last instead of first. */
  lemma UncheckedPriorityWraps()
    ensures var submitted := 1_704_067_200_000_000_000;
      !AcceptedPriority(130_000) && PriorityTime(130_000, submitted) > PriorityTime(0, submitted)
  {
  }

  /** Where the arithmetic is exact, priority time orders processes by submission, with one unit of priority worth one
      day: equal priorities are first in, first out, and nothing submitted more than the priority gap in days later
      comes first. */
  lemma PriorityOrder(p: int, s: int, q: int, t: int)
    requires Fits64(p, s) && Fits64(q, t)
    ensures PriorityTime(p, s) < PriorityTime(q, t) <==> s - t < (p - q) * DAY
    ensures p == q ==> (PriorityTime(p, s) < PriorityTime(q, t) <==> s < t)
    ensures t - s > (q - p) * DAY ==> PriorityTime(p, s) < PriorityTime(q, t)
  {
    PriorityTimeIsExactIff(p, s);
    PriorityTimeIsExactIff(q, t);
  }

  // ---------------------------------------------------------------- sorting

  /** A row of the process table: the process, and the columns that only the lookups read. */
  datatype Row = Row(id: Id, process: Process, priorityTime: int, executorNames: seq<string>, executorType: string,
                     colony: string, cpu: int, memory: int, storage: int, nodes: int, processes: int,
                     processesPerNode: int)

  ghost predicate Sorted(s: seq<Row>) {
    forall i, j :: 0 <= i < j < |s| ==> s[i].priorityTime <= s[j].priorityTime
  }

  method Swap(a: array<Row>, i: nat, j: nat)
    requires i < a.Length && j < a.Length
    modifies a
    ensures a[..] == old(a[..])[i := old(a[j])][j := old(a[i])]
    ensures multiset(a[..]) == old(multiset(a[..]))
  {
    a[i], a[j] := a[j], a[i];
  }

  /** The rows before `n` except the one at `j` are in order, and the one at `j` is not above those after it. */
  ghost predicate AlmostSorted(s: seq<Row>, n: nat, j: nat) {
    && n <= |s|
    && (forall p, q :: 0 <= p < q < n && p != j && q != j ==> s[p].priorityTime <= s[q].priorityTime)
    && (forall q :: j < q < n && j < |s| ==> s[j].priorityTime <= s[q].priorityTime)
  }

  lemma SiftStep(s: seq<Row>, n: nat, j: nat)
    requires AlmostSorted(s, n, j) && 0 < j < n && s[j].priorityTime < s[j - 1].priorityTime
    ensures AlmostSorted(s[j := s[j - 1]][j - 1 := s[j]], n, j - 1)
  {
  }

  lemma SiftDone(s: seq<Row>, n: nat, j: nat)
    requires AlmostSorted(s, n, j) && j < n && (j > 0 ==> s[j - 1].priorityTime <= s[j].priorityTime)
    ensures Sorted(s[..n])
  {
    forall p | 0 <= p < j ensures s[p].priorityTime <= s[j].priorityTime {
      assert p == j - 1 || s[p].priorityTime <= s[j - 1].priorityTime;
    }
  }

  method SiftDown(a: array<Row>, n: nat)
    requires n < a.Length && Sorted(a[..n])
    modifies a
    ensures Sorted(a[..n + 1])
    ensures multiset(a[..]) == old(multiset(a[..]))
  {
    var j := n;
    while j > 0 && a[j].priorityTime < a[j - 1].priorityTime
      invariant 0 <= j <= n && AlmostSorted(a[..], n + 1, j)
      invariant multiset(a[..]) == old(multiset(a[..]))
    {
      SiftStep(a[..], n + 1, j);
      Swap(a, j, j - 1);
      j := j - 1;
    }
    SiftDone(a[..], n + 1, j);
    assert a[..][..n + 1] == a[..n + 1];
  }

  /** `sort.Sort` with `Less` on priority times: a sorted rearrangement. */
  method SortByPriorityTime(a: array<Row>)
    modifies a
    ensures Sorted(a[..])
    ensures multiset(a[..]) == old(multiset(a[..]))
  {
    for n := 0 to a.Length
      invariant Sorted(a[..n])
      invariant multiset(a[..]) == old(multiset(a[..]))
    {
      SiftDown(a, n);
    }
    assert a[..a.Length] == a[..];
  }

  // ---------------------------------------------------------------- the lowest rows

  ghost predicate NoneAbove(low: multiset<Row>, rest: multiset<Row>) {
    forall x, y :: x in low && y in rest ==> x.priorityTime <= y.priorityTime
  }

  /** `out` lists, in order, `count` rows of `all` (or all of them) that none of the others precedes. */
  ghost predicate Lowest(all: multiset<Row>, count: nat, out: seq<Row>) {
    && Sorted(out) && multiset(out) <= all
    && |out| == (if count < |all| then count else |all|)
    && NoneAbove(multiset(out), all - multiset(out))
  }

  lemma CutSorted(low: seq<Row>, rest: seq<Row>, x: Row, y: Row)
    requires Sorted(low + rest) && x in low && y in rest
    ensures x.priorityTime <= y.priorityTime
  {
    var s := low + rest;
    var i :| 0 <= i < |low| && low[i] == x;
    var j :| 0 <= j < |rest| && rest[j] == y;
    assert s[i] == x && s[|low| + j] == y;
  }

  lemma PartsAreLowest(low: seq<Row>, rest: seq<Row>)
    requires Sorted(low + rest)
    ensures Sorted(low) && multiset(low) <= multiset(low + rest)
    ensures NoneAbove(multiset(low), multiset(low + rest) - multiset(low))
  {
    var s := low + rest;
    assert forall i :: 0 <= i < |low| ==> s[i] == low[i];
    assert multiset(s) - multiset(low) == multiset(rest);
    forall x, y | x in multiset(low) && y in multiset(rest) ensures x.priorityTime <= y.priorityTime {
      CutSorted(low, rest, x, y);
    }
  }

  lemma PrefixIsLowest(s: seq<Row>, count: nat, n: nat)
    requires Sorted(s) && n == if count < |s| then count else |s|
    ensures Lowest(multiset(s), count, s[..n])
  {
    assert s == s[..n] + s[n..];
    PartsAreLowest(s[..n], s[n..]);
    assert |multiset(s)| == |s|;
  }

  /** `Prioritize`: merge the two lookups, sort, keep the first `count`. */
  method Prioritize(byName: seq<Row>, any: seq<Row>, count: nat) returns (r: seq<Row>)
    ensures Lowest(multiset(byName) + multiset(any), count, r)
  {
    var candidates := byName + any;
    if |candidates| == 0 {
      r := [];
      return;
    }
    var a := new Row[|candidates|](i requires 0 <= i < |candidates| => candidates[i]);
    assert a[..] == candidates;
    SortByPriorityTime(a);
    var n := if count < |candidates| then count else |candidates|;
    PrefixIsLowest(a[..], count, n);
    r := a[..n];
    assert r == a[..][..n];
  }

  lemma SubsetSize(a: multiset<Row>, b: multiset<Row>)
    requires a <= b
    ensures |a| <= |b|
  {
    assert b == a + (b - a);
  }

  /** A row that one lookup left out cannot precede a row of the final list. */
  lemma LeftOutComesLater(a: multiset<Row>, aOut: seq<Row>, b: multiset<Row>, count: nat, r: seq<Row>, x: Row, y: Row)
    requires Lowest(a, count, aOut) && Lowest(multiset(aOut) + b, count, r)
    requires x in multiset(r) && y in a - multiset(aOut)
    ensures x.priorityTime <= y.priorityTime
  {
    var low, all, out := multiset(aOut), multiset(aOut) + b, multiset(r);
    if x.priorityTime > y.priorityTime {
      FullLookup(a, aOut, count, y);
      forall e | e in low ensures low[e] <= out[e] && e != x {
        assert e.priorityTime <= y.priorityTime;
        assert e !in all - out;
        assert all[e] >= low[e];
      }
      TooMany(low, out, x);
      assert false;
    }
  }

  /** A lookup that left a row out returned as many rows as it was asked for. */
  lemma FullLookup(a: multiset<Row>, aOut: seq<Row>, count: nat, y: Row)
    requires Lowest(a, count, aOut) && y in a - multiset(aOut)
    ensures |multiset(aOut)| == count
  {
    var low := multiset(aOut);
    assert a == low + (a - low);
    assert |a - low| > 0;
  }

  lemma TooMany(low: multiset<Row>, out: multiset<Row>, x: Row)
    requires x in out && forall e :: e in low ==> low[e] <= out[e] && e != x
    ensures |low| < |out|
  {
    assert low + multiset{x} <= out;
    SubsetSize(low + multiset{x}, out);
  }

  /** Keeping the best of each lookup loses nothing: the result is the best of all eligible rows. */
  lemma BestOfBothIsBest(a: multiset<Row>, aOut: seq<Row>, b: multiset<Row>, bOut: seq<Row>, count: nat, r: seq<Row>)
    requires Lowest(a, count, aOut) && Lowest(b, count, bOut) && Lowest(multiset(aOut) + multiset(bOut), count, r)
    ensures Lowest(a + b, count, r)
  {
    var out, inner := multiset(r), multiset(aOut) + multiset(bOut);
    assert inner <= a + b;
    forall x, y | x in out && y in (a + b) - out ensures x.priorityTime <= y.priorityTime {
      if y in a - multiset(aOut) {
        LeftOutComesLater(a, aOut, multiset(bOut), count, r, x, y);
      } else if y in b - multiset(bOut) {
        assert multiset(bOut) + multiset(aOut) == inner;
        LeftOutComesLater(b, bOut, multiset(aOut), count, r, x, y);
      } else {
        assert y in inner - out;
      }
    }
    SubsetSize(inner, a + b);
    assert |multiset(aOut)| == |aOut| && |multiset(bOut)| == |bOut|;
  }

  // ---------------------------------------------------------------- the two lookups

  datatype Request = Request(colony: string, executorName: string, executorType: string, cpu: int, memory: int)

  /** The limits on nodes and processes that `Prioritize` passes: the largest 8-bit integer. */
  const LIMIT: int := 127

  /** The conditions that both queries share. */
  predicate Fits(row: Row, q: Request) {
    && row.process.state == Waiting && !row.process.isAssigned && !row.process.waitForParents
    && row.executorType == q.executorType && row.colony == q.colony
    && row.cpu <= q.cpu && row.memory <= q.memory && row.storage <= 0
    && row.nodes <= LIMIT && row.processes <= LIMIT && row.processesPerNode <= LIMIT
  }

  /** `FindCandidatesByName` wants processes that name the executor, `FindCandidates` those that name none. */
  datatype Lookup = ByName | ByType | Either

  predicate Keeps(l: Lookup, row: Row, q: Request) {
    Fits(row, q) && match l
      case ByName => q.executorName in row.executorNames
      case ByType => row.executorNames == []
      case Either => row.executorNames == [] || q.executorName in row.executorNames
  }

  function Find(rows: seq<Row>, l: Lookup, q: Request): (r: seq<Row>)
    ensures forall x :: x in r <==> x in rows && Keeps(l, x, q)
  {
    if rows == [] then []
    else (if Keeps(l, rows[0], q) then [rows[0]] else []) + Find(rows[1..], l, q)
  }

  /** The two lookups divide the eligible rows between them. */
  lemma {:induction false} LookupsPartition(rows: seq<Row>, q: Request)
    ensures multiset(Find(rows, Either, q)) == multiset(Find(rows, ByName, q)) + multiset(Find(rows, ByType, q))
  {
    if rows != [] { LookupsPartition(rows[1..], q); }
  }

  /** What an executor may be given, in its own terms: a process that can be handed out, of its type and colony, that
      names this executor or none, and asks for no more than the executor has. */
  predicate Eligible(row: Row, q: Request) {
    && Candidate(row.process)
    && row.colony == q.colony && row.executorType == q.executorType
    && (row.executorNames == [] || q.executorName in row.executorNames)
    && q.cpu >= row.cpu && q.memory >= row.memory
    && row.storage <= 0 && row.nodes <= 127 && row.processes <= 127 && row.processesPerNode <= 127
  }

  /** The two lookups together find exactly what the executor may be given. */
  lemma FoundIffEligible(rows: seq<Row>, q: Request, row: Row)
    ensures row in Find(rows, ByName, q) || row in Find(rows, ByType, q) <==> row in rows && Eligible(row, q)
    ensures row in Find(rows, ByName, q) ==> q.executorName in row.executorNames
    ensures row in Find(rows, ByType, q) ==> row.executorNames == []
  {
  }

  lemma LowestOneIsLeast(all: multiset<Row>, out: seq<Row>)
    requires Lowest(all, 1, out)
    ensures |out| > 0 <==> |all| > 0
    ensures |out| > 0 ==> out[0] in all && forall x :: x in all ==> out[0].priorityTime <= x.priorityTime
  {
    if |out| > 0 {
      assert out == [out[0]] && out[0] in multiset(out);
      forall x | x in all ensures out[0].priorityTime <= x.priorityTime {
        if x !in all - multiset(out) { assert x in multiset(out); }
      }
    }
  }

  /** `row` is eligible, and no eligible row precedes it. */
  ghost predicate IsBest(rows: seq<Row>, q: Request, row: Row) {
    row in rows && Eligible(row, q) && forall x :: x in rows && Eligible(x, q) ==> row.priorityTime <= x.priorityTime
  }

  lemma FoundInMultiset(rows: seq<Row>, q: Request, all: multiset<Row>)
    requires all == multiset(Find(rows, Either, q))
    ensures forall x :: x in all <==> x in rows && Eligible(x, q)
    ensures |all| > 0 <==> exists x :: x in rows && Eligible(x, q)
  {
    assert forall x :: x in all <==> x in Find(rows, Either, q);
    assert |all| == |Find(rows, Either, q)|;
    if |all| > 0 { assert Find(rows, Either, q)[0] in all; }
  }

  lemma FirstIsBest(rows: seq<Row>, q: Request, byName: seq<Row>, byType: seq<Row>, out: seq<Row>)
    requires Lowest(multiset(Find(rows, ByName, q)), 1, byName)
    requires Lowest(multiset(Find(rows, ByType, q)), 1, byType)
    requires Lowest(multiset(byName) + multiset(byType), 1, out)
    ensures |out| > 0 <==> exists x :: x in rows && Eligible(x, q)
    ensures |out| > 0 ==> IsBest(rows, q, out[0])
  {
    var all := multiset(Find(rows, Either, q));
    LookupsPartition(rows, q);
    BestOfBothIsBest(multiset(Find(rows, ByName, q)), byName, multiset(Find(rows, ByType, q)), byType, 1, out);
    LowestOneIsLeast(all, out);
    FoundInMultiset(rows, q, all);
  }

  /** Given lookups that each return their own lowest rows, `Select` picks an eligible process of least priority time
      in the whole database, and reports that there is none exactly when nothing is eligible. */
  method Select(rows: seq<Row>, q: Request, byName: seq<Row>, byType: seq<Row>) returns (found: bool, r: Row)
    requires Lowest(multiset(Find(rows, ByName, q)), 1, byName)
    requires Lowest(multiset(Find(rows, ByType, q)), 1, byType)
    ensures found <==> exists x :: x in rows && Eligible(x, q)
    ensures found ==> IsBest(rows, q, r)
  {
    var prioritized := Prioritize(byName, byType, 1);
    FirstIsBest(rows, q, byName, byType, prioritized);
    if |prioritized| < 1 {
      r := Row("", Process(Failed, false, "", true, [], []), 0, [], "", "", 0, 0, 0, 0, 0, 0);
      return false, r;
    }
    found, r := true, prioritized[0];
  }

  /** What was selected can be assigned: in every state of a run its assignment is an effective step. */
  lemma SelectedCanBeAssigned(w: World, rows: seq<Row>, q: Request, row: Row, executor: string)
    requires Inv(w) && IsBest(rows, q, row) && row.id in w.store && w.store[row.id] == row.process
    ensures Effective(w, Assign(row.id, executor)) && Ready(w.store, row.id)
  {
    assert NothingEarlyAt(w.store, row.id);
  }
}
