/** Generators pack arguments into a queue and submit workflows that consume them
    (pkg/server/generator_controller.go, pkg/database/postgresql/generator_args.go). */
module Generators {
  import opened Collections
  import opened Submission
  import opened SubmittedRuns

  type Id = ProcessGraph.Id

  /** A submitted workflow with the ids of the queued arguments it took and their values, and whether the threshold
      (rather than the timeout) triggered it. */
  datatype Graph = Graph(ids: seq<Id>, args: seq<string>, threshold: bool)

  /** One generator: its settings, its clock fields in Unix seconds, its queued arguments by id, the workflows it has
      submitted, and the history of all arguments ever packed. */
  datatype Generator = Generator(
    trigger: int, timeout: int, firstPack: int, lastRun: int,
    queue: map<Id, string>, graphs: seq<Graph>, packed: map<Id, string>)

  // ---------------------------------------------------------------- steps

  datatype Event =
    | Packed(id: Id, arg: string, now: int)
    | Submitted(ids: seq<Id>, threshold: bool, now: int)

  function Values(queue: map<Id, string>, ids: seq<Id>): seq<string>
    requires forall x :: x in ids ==> x in queue
  {
    seq(|ids|, i requires 0 <= i < |ids| => queue[ids[i]])
  }

  ghost predicate Legal(g: Generator, e: Event) {
    match e
    case Packed(id, arg, now) => id !in g.packed
    case Submitted(ids, threshold, now) =>
      && Distinct(ids) && (forall x :: x in ids ==> x in g.queue)
      && if threshold then |ids| == g.trigger else 1 <= |ids| < g.trigger
  }

  ghost function Apply(g: Generator, e: Event): Generator
    requires Legal(g, e)
  {
    match e
    case Packed(id, arg, now) =>
      g.(queue := g.queue[id := arg], packed := g.packed[id := arg],
         firstPack := if g.firstPack < 0 then now else g.firstPack)
    case Submitted(ids, threshold, now) =>
      g.(queue := g.queue - (set x | x in ids), graphs := g.graphs + [Graph(ids, Values(g.queue, ids), threshold)],
         lastRun := now)
  }

  ghost predicate LegalRun(g: Generator, es: seq<Event>)
    decreases |es|
  {
    es == [] || (Legal(g, es[0]) && LegalRun(Apply(g, es[0]), es[1..]))
  }

  ghost function Execute(g: Generator, es: seq<Event>): Generator
    requires LegalRun(g, es)
    decreases |es|
  {
    if es == [] then g else Execute(Apply(g, es[0]), es[1..])
  }

  lemma {:induction false} ExtendRun(g: Generator, es: seq<Event>, e: Event)
    requires LegalRun(g, es) && Legal(Execute(g, es), e)
    ensures LegalRun(g, es + [e]) && Execute(g, es + [e]) == Apply(Execute(g, es), e)
    decreases |es|
  {
    if es == [] {
      assert es + [e] == [e];
    } else {
      assert (es + [e])[1..] == es[1..] + [e];
      ExtendRun(Apply(g, es[0]), es[1..], e);
    }
  }

  // ---------------------------------------------------------------- conservation

  /** How often an argument was given to a submitted workflow. */
  function Uses(graphs: seq<Graph>, id: Id): nat {
    if graphs == [] then 0 else multiset(graphs[0].ids)[id] + Uses(graphs[1..], id)
  }

  lemma {:induction false} UsesAppend(graphs: seq<Graph>, g: Graph, id: Id)
    ensures Uses(graphs + [g], id) == Uses(graphs, id) + multiset(g.ids)[id]
  {
    if graphs == [] {
      assert graphs + [g] == [g];
    } else {
      assert (graphs + [g])[1..] == graphs[1..] + [g];
      UsesAppend(graphs[1..], g, id);
    }
  }

  lemma {:induction false} DistinctCount(s: seq<Id>, x: Id)
    requires Distinct(s)
    ensures multiset(s)[x] == if x in s then 1 else 0
  {
    if s != [] {
      var n := |s| - 1;
      assert s == s[..n] + [s[n]];
      DistinctCount(s[..n], x);
    }
  }

  /** Every packed argument is queued or went to exactly one workflow, never both; nothing else is queued or used. */
  ghost predicate Conserved(g: Generator) {
    forall id :: Uses(g.graphs, id) + (if id in g.queue then 1 else 0) == (if id in g.packed then 1 else 0)
  }

  ghost predicate GraphOk(g: Generator, graph: Graph) {
    && |graph.args| == |graph.ids|
    && (forall i :: 0 <= i < |graph.ids| ==> graph.ids[i] in g.packed && graph.args[i] == g.packed[graph.ids[i]])
    && if graph.threshold then |graph.ids| == g.trigger else 1 <= |graph.ids| < g.trigger
  }

  ghost predicate Inv(g: Generator) {
    && Conserved(g)
    && (forall id :: id in g.queue ==> id in g.packed && g.queue[id] == g.packed[id])
    && (forall k :: 0 <= k < |g.graphs| ==> GraphOk(g, g.graphs[k]))
  }

  lemma SubmitConserves(g: Generator, ids: seq<Id>, threshold: bool, now: int)
    requires Conserved(g) && Legal(g, Submitted(ids, threshold, now))
    ensures Conserved(Apply(g, Submitted(ids, threshold, now)))
  {
    var h := Apply(g, Submitted(ids, threshold, now));
    forall id ensures Uses(h.graphs, id) + (if id in h.queue then 1 else 0) == (if id in h.packed then 1 else 0) {
      UsesAppend(g.graphs, h.graphs[|g.graphs|], id);
      DistinctCount(ids, id);
      assert id in h.queue <==> id in g.queue && id !in ids;
    }
  }

  lemma PackConserves(g: Generator, id: Id, arg: string, now: int)
    requires Conserved(g) && Legal(g, Packed(id, arg, now))
    ensures Conserved(Apply(g, Packed(id, arg, now)))
  {
    var h := Apply(g, Packed(id, arg, now));
    forall x ensures Uses(h.graphs, x) + (if x in h.queue then 1 else 0) == (if x in h.packed then 1 else 0) {
      assert Uses(g.graphs, x) + (if x in g.queue then 1 else 0) == (if x in g.packed then 1 else 0);
    }
  }

  lemma StepKeepsInv(g: Generator, e: Event)
    requires Inv(g) && Legal(g, e)
    ensures Inv(Apply(g, e))
  {
    var h := Apply(g, e);
    match e
    case Packed(id, arg, now) =>
      PackConserves(g, id, arg, now);
      forall k | 0 <= k < |h.graphs| ensures GraphOk(h, h.graphs[k]) { assert GraphOk(g, g.graphs[k]); }
    case Submitted(ids, threshold, now) =>
      SubmitConserves(g, ids, threshold, now);
      forall k | 0 <= k < |h.graphs| ensures GraphOk(h, h.graphs[k]) {
        if k < |g.graphs| { assert GraphOk(g, g.graphs[k]); }
      }
  }

  /** Conservation over every run of pack and submit steps. */
  lemma {:induction false} RunKeepsInv(g: Generator, es: seq<Event>)
    requires Inv(g) && LegalRun(g, es)
    ensures Inv(Execute(g, es))
    decreases |es|
  {
    if es != [] {
      StepKeepsInv(g, es[0]);
      RunKeepsInv(Apply(g, es[0]), es[1..]);
    }
  }

  lemma NewGeneratorSatisfiesInv(trigger: int, timeout: int, firstPack: int, lastRun: int)
    ensures Inv(Generator(trigger, timeout, firstPack, lastRun, map[], [], map[]))
  {
  }

  /** Conservation from the start: after every run of a new generator. */
  lemma NewGeneratorConserves(g: Generator, es: seq<Event>)
    requires g.queue == map[] && g.graphs == [] && g.packed == map[] && LegalRun(g, es)
    ensures Inv(Execute(g, es))
  {
    NewGeneratorSatisfiesInv(g.trigger, g.timeout, g.firstPack, g.lastRun);
    RunKeepsInv(g, es);
  }

  // ---------------------------------------------------------------- do the arguments reach a process?

  /** The creation of a graph gives the submitted arguments to its root processes and to no other. */
  predicate Receives(f: FunctionSpec, args: seq<string>) {
    args != [] && f.dependencies == []
  }

  /** The arguments of a submitted graph reach a process exactly when its specification has a root. */
  lemma ArgumentsReachIff(g: Generator, k: nat, spec: seq<FunctionSpec>, ids: seq<Id>)
    requires Inv(g) && g.trigger >= 1 && k < |g.graphs| && Fresh(spec, ids)
    ensures (exists i :: 0 <= i < |spec| && Receives(spec[i], g.graphs[k].args)) <==> RootIds(spec, ids, |spec|) != []
  {
    assert GraphOk(g, g.graphs[k]) && g.graphs[k].args != [];
    var roots := RootIds(spec, ids, |spec|);
    RootIdsMeaning(spec, ids, |spec|);
    if roots != [] {
      assert roots[0] in roots;
      var j :| 0 <= j < |spec| && ids[j] == roots[0] && spec[j].dependencies == [];
      assert Receives(spec[j], g.graphs[k].args);
    }
    if i :| 0 <= i < |spec| && Receives(spec[i], g.graphs[k].args) { assert ids[i] in roots; }
  }

  /** They always do when the specification is accepted and acyclic and has any function spec at all. */
  lemma AcyclicHasRoot(spec: seq<FunctionSpec>, ids: seq<Id>)
    requires Fresh(spec, ids) && DependenciesOk(spec) && SpecAcyclic(spec) && spec != []
    ensures RootIds(spec, ids, |spec|) != []
  {
    var rank :| SpecRanks(spec, rank);
    var m := LeastSpec(spec, rank, |spec|);
    if spec[m].dependencies != [] {
      DependencyRanksBelow(spec, rank, m);
      assert false;
    }
    RootIdsMeaning(spec, ids, |spec|);
    assert ids[m] in RootIds(spec, ids, |spec|);
  }

  lemma DependencyRanksBelow(spec: seq<FunctionSpec>, rank: map<string, nat>, i: nat)
    requires SpecRanks(spec, rank) && DependenciesOk(spec) && i < |spec| && spec[i].dependencies != []
    ensures exists j :: 0 <= j < |spec| && rank[spec[j].nodeName] < rank[spec[i].nodeName]
  {
    var d := spec[i].dependencies[0];
    assert d in spec[i].dependencies && HasName(spec, d);
    var j :| 0 <= j < |spec| && spec[j].nodeName == d;
    assert rank[spec[j].nodeName] < rank[spec[i].nodeName];
  }

  lemma {:induction false} LeastSpec(spec: seq<FunctionSpec>, rank: map<string, nat>, n: nat) returns (m: nat)
    requires SpecRanks(spec, rank) && 0 < n <= |spec|
    ensures m < n && forall i :: 0 <= i < n ==> rank[spec[m].nodeName] <= rank[spec[i].nodeName]
  {
    m := 0;
    if n > 1 {
      var l := LeastSpec(spec, rank, n - 1);
      m := if rank[spec[l].nodeName] <= rank[spec[n - 1].nodeName] then l else n - 1;
    }
  }

  /** A specification that loses them: two function specs that depend on each other. */
  lemma RootlessLosesArguments(args: seq<string>)
    ensures var spec := [FunctionSpec("a", ["b"]), FunctionSpec("b", ["a"])];
      Accepted(spec) && forall i :: 0 <= i < |spec| ==> !Receives(spec[i], args)
  {
    var spec := [FunctionSpec("a", ["b"]), FunctionSpec("b", ["a"])];
    assert spec[0].nodeName == "a" && spec[1].nodeName == "b";
    assert HasName(spec, "a") && HasName(spec, "b");
  }

  // ---------------------------------------------------------------- the handlers

  /** `SELECT ... LIMIT n` without an order: some `n` of the rows. */
  method PickRows(queue: map<Id, string>, n: nat) returns (ids: seq<Id>)
    requires n <= |queue|
    ensures |ids| == n && Distinct(ids) && forall x :: x in ids ==> x in queue
  {
    ids := [];
    var rest := queue.Keys;
    assert |rest| == |queue|;
    while |ids| < n
      invariant |ids| <= n && |rest| == |queue| - |ids| && rest <= queue.Keys
      invariant Distinct(ids) && forall x :: x in ids ==> x in queue && x !in rest
    {
      assert rest != {};
      var x :| x in rest;
      ids, rest := ids + [x], rest - {x};
    }
  }

  /** The loop that deletes the used arguments one by one. */
  method RemoveRows(queue: map<Id, string>, rows: seq<Id>) returns (left: map<Id, string>)
    requires Distinct(rows) && forall x :: x in rows ==> x in queue
    ensures left == queue - (set x | x in rows)
    ensures |left| == |queue| - |rows|
  {
    left := queue;
    for i := 0 to |rows|
      invariant left.Keys <= queue.Keys && forall x :: x in left ==> left[x] == queue[x]
      invariant forall x :: x in queue ==> (x in left <==> x !in rows[..i])
      invariant |left| == |queue| - i
    {
      assert rows[i] in left;
      RemoveOne(left, rows[i]);
      left := left - {rows[i]};
    }
    assert rows[..|rows|] == rows;
  }

  lemma RemoveOne(m: map<Id, string>, x: Id)
    requires x in m
    ensures |m - {x}| == |m| - 1
  {
    assert (m - {x}).Keys == m.Keys - {x};
    assert |m.Keys| == |m| && |(m - {x}).Keys| == |m - {x}|;
  }

  /** The timeout of the generator has passed: counted from its last run, or from the first pack if it has never run. */
  predicate Overdue(g: Generator, now: int) {
    && g.timeout > 0
    && if g.lastRun > 0 then now - g.lastRun > g.timeout else g.firstPack > 0 && now - g.firstPack > g.timeout
  }

  /** With a timeout of a minute and a last run at 1000, the deadline is 1060; so it is for a first pack then. */
  lemma OverdueAfterAMinute(g: Generator, now: int)
    requires g.timeout == 60 && ((g.lastRun == 1000) || (g.lastRun <= 0 && g.firstPack == 1000))
    ensures Overdue(g, now) <==> now > 1060
  {
  }

  /** A pass has something to submit: a full batch, or any argument at all once the timeout has passed. */
  predicate Submits(g: Generator, now: int) {
    |g.queue| >= g.trigger || (|g.queue| >= 1 && Overdue(g, now))
  }

  /** What a pass in which every creation succeeds does: full batches leave the remainder, a timeout leaves nothing, and
      otherwise everything stays. */
  ghost predicate PassTo(g: Generator, now: int, h: Generator, es: seq<Event>) {
    && Batched(g, es, h) && g.trigger >= 1
    && (|g.queue| >= g.trigger ==> |es| == |g.queue| / g.trigger && |h.queue| == |g.queue| % g.trigger)
    && (|g.queue| < g.trigger && Submits(g, now) ==> |es| == 1 && |h.queue| == 0)
    && (!Submits(g, now) ==> es == [] && h == g)
    && (es != [] ==> h.lastRun == now)
  }

  /** When fewer arguments than the trigger are queued, none of them outlives a pass after the deadline: each has gone
      to exactly one graph. */
  lemma OverdueArgumentsLeave(g: Generator, now: int, h: Generator, es: seq<Event>, id: Id)
    requires Inv(g) && PassTo(g, now, h, es) && Overdue(g, now) && |g.queue| < g.trigger && id in g.queue
    ensures id !in h.queue && Uses(h.graphs, id) == 1
  {
    assert |g.queue| >= 1;
    RunKeepsInv(g, es);
    SubmissionsKeepHistory(g, es);
    assert h.queue == map[] && id in h.packed;
  }

  lemma {:induction false} SubmissionsKeepHistory(g: Generator, es: seq<Event>)
    requires LegalRun(g, es) && forall i :: 0 <= i < |es| ==> es[i].Submitted?
    ensures Execute(g, es).packed == g.packed
    decreases |es|
  {
    if es != [] {
      assert es[0].Submitted?;
      SubmissionsKeepHistory(Apply(g, es[0]), es[1..]);
    }
  }

  /** With more, a pass takes full batches and may leave a remainder past the deadline; the next pass after the deadline
      of that remainder takes it, unless more is packed in between. */
  lemma SecondPassEmpties(g: Generator, now: int, h: Generator, es: seq<Event>, later: int, k: Generator,
                          fs: seq<Event>)
    requires PassTo(g, now, h, es) && PassTo(h, later, k, fs) && Overdue(h, later)
    ensures k.queue == map[]
  {
    assert |h.queue| < h.trigger;
    if |h.queue| == 0 { assert k == h; }
  }

  /** Such a remainder: three arguments with a trigger of two leave one, whatever the deadline. */
  lemma RemainderStays(g: Generator, now: int, h: Generator, es: seq<Event>)
    requires PassTo(g, now, h, es) && g.trigger == 2 && |g.queue| == 3
    ensures |es| == 1 && |h.queue| == 1
  {
  }

  /** The run `es` of submissions leads from `g0` to `g`. */
  ghost predicate Batched(g0: Generator, es: seq<Event>, g: Generator) {
    && LegalRun(g0, es) && g == Execute(g0, es) && g.trigger == g0.trigger
    && forall i :: 0 <= i < |es| ==> es[i].Submitted?
  }

  lemma ExtendBatched(g0: Generator, es: seq<Event>, e: Event)
    requires LegalRun(g0, es) && Batched(g0, es, Execute(g0, es)) && e.Submitted? && Legal(Execute(g0, es), e)
    ensures Batched(g0, es + [e], Apply(Execute(g0, es), e))
  {
    ExtendRun(g0, es, e);
  }

  class Handlers {
    var g: Generator

    constructor (g: Generator)
      ensures this.g == g
    {
      this.g := g;
    }

    method Pack(id: Id, arg: string, now: int)
      requires id !in g.packed
      modifies this
      ensures g == Apply(old(g), Packed(id, arg, now))
      ensures g.queue == old(g).queue[id := arg] && g.packed == old(g).packed[id := arg] && g.graphs == old(g).graphs
      ensures g.firstPack == (if old(g).firstPack < 0 then now else old(g).firstPack) && g.lastRun == old(g).lastRun
    {
      g := g.(queue := g.queue[id := arg], packed := g.packed[id := arg]);
      if g.firstPack < 0 { g := g.(firstPack := now); }
    }

    /** `created` says whether parsing the specification and creating the graph succeeded. */
    method SubmitWorkflow(counter: nat, threshold: bool, now: int, created: bool) returns (ghost ids: seq<Id>)
      requires counter <= |g.queue|
      requires if threshold then counter == g.trigger else 1 <= counter < g.trigger
      modifies this
      ensures !created ==> g == old(g)
      ensures created ==> |ids| == counter && Legal(old(g), Submitted(ids, threshold, now))
      ensures created ==> g == Apply(old(g), Submitted(ids, threshold, now))
      ensures created ==> |g.queue| == old(|g.queue|) - counter && g.lastRun == now
      ensures g.trigger == old(g).trigger && g.timeout == old(g).timeout && g.firstPack == old(g).firstPack
    {
      if !created { return []; }
      var rows := PickRows(g.queue, counter);
      ids := rows;
      g := g.(graphs := g.graphs + [Graph(rows, Values(g.queue, rows), threshold)]);
      var left := RemoveRows(g.queue, rows);
      g := g.(queue := left, lastRun := now);
    }

    /** The body of `triggerGenerators` for this generator. `creates(i)` says whether the `i`-th submission of the pass
        succeeds. A trigger of zero divides by zero. */
    method TriggerPass(now: int, creates: nat -> bool) returns (crashed: bool, allCreated: bool, ghost es: seq<Event>)
      modifies this
      ensures crashed <==> old(g.trigger) == 0
      ensures Batched(old(g), es, g)
      ensures old(g).trigger >= 1 ==> (es != [] || !allCreated <==> Submits(old(g), now))
      ensures allCreated && old(g).trigger >= 1 ==> PassTo(old(g), now, g, es)
      ensures old(g).trigger < 0 ==> es == []
    {
      es, crashed, allCreated := [], false, true;
      var counter := |g.queue|;
      var timedOut := false;
      if g.lastRun <= 0 {
        if g.firstPack > 0 { timedOut := now > g.firstPack + g.timeout; }
      } else {
        timedOut := now > g.lastRun + g.timeout;
      }
      if counter >= g.trigger {
        if g.trigger == 0 { return true, false, []; }
        if g.trigger < 0 { return; }
        es, allCreated := SubmitBatches(counter, now, creates);
      } else if counter >= 1 && g.timeout > 0 && timedOut {
        allCreated := creates(0);
        ghost var ids := SubmitWorkflow(counter, false, now, allCreated);
        if allCreated {
          es := [Submitted(ids, false, now)];
          assert es[1..] == [];
        }
      }
    }

    /** The loop that submits one workflow for every full batch. */
    method SubmitBatches(counter: nat, now: int, creates: nat -> bool) returns (ghost es: seq<Event>, allCreated: bool)
      requires g.trigger >= 1 && counter == |g.queue|
      modifies this
      ensures Batched(old(g), es, g)
      ensures allCreated ==> |es| == counter / g.trigger && |g.queue| == counter % g.trigger
      ensures allCreated && es != [] ==> g.lastRun == now
      ensures counter >= g.trigger ==> es != [] || !allCreated
    {
      es, allCreated := [], true;
      var times := counter / g.trigger;
      BatchBounds(counter, g.trigger, times);
      for i := 0 to times
        invariant Batched(old(g), es, g)
        invariant allCreated ==> |es| == i && (es != [] ==> g.lastRun == now)
        invariant |g.queue| >= Times(times - i, g.trigger)
        invariant allCreated ==> |g.queue| - Times(times - i, g.trigger) == counter - Times(times, g.trigger)
      {
        assert Times(times - i, g.trigger) == Times(times - (i + 1), g.trigger) + g.trigger;
        var created := creates(i);
        ghost var ids := SubmitWorkflow(g.trigger, true, now, created);
        if created {
          ExtendBatched(old(g), es, Submitted(ids, true, now));
          es := es + [Submitted(ids, true, now)];
        } else {
          allCreated := false;
        }
      }
    }
  }

  function Times(n: nat, batch: nat): nat {
    if n == 0 then 0 else Times(n - 1, batch) + batch
  }

  lemma {:induction false} TimesIsProduct(n: nat, batch: nat)
    ensures Times(n, batch) == n * batch
  {
    if n > 0 {
      TimesIsProduct(n - 1, batch);
      assert n * batch == (n - 1) * batch + batch;
    }
  }

  lemma BatchBounds(counter: nat, trigger: nat, times: nat)
    requires trigger >= 1 && times == counter / trigger
    ensures Times(times, trigger) <= counter < Times(times, trigger) + trigger
    ensures counter - Times(times, trigger) == counter % trigger
  {
    TimesIsProduct(times, trigger);
  }
}
