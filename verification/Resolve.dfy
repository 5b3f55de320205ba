/** `Resolve`: one walk over a process graph that counts states, releases processes whose parents are done,
    spreads failure and computes the state of the graph (pkg/core/processgraph.go). */
module Resolve {
  import opened Collections
  import opened ProcessGraph

  /** Why a walk ended early: a process to visit is not stored, which is an error, or a listed parent is not, which
      dereferences a nil pointer and takes the server down. */
  datatype Cause = MissingProcess(id: Id) | NilParent(id: Id)

  datatype Tally = Tally(processes: nat, waiting: nat, running: nat, successful: nat, failed: nat) {
    function Count(st: State): Tally {
      Tally(processes + 1,
            waiting + (if st == Waiting then 1 else 0),
            running + (if st == Running then 1 else 0),
            successful + (if st == Success then 1 else 0),
            failed + (if st == Failed then 1 else 0))
    }

    function GraphState(): State {
      if failed >= 1 then Failed
      else if successful == processes then Success
      else if successful > 0 || running >= 1 then Running
      else Waiting
    }
  }

  const NO_TALLY := Tally(0, 0, 0, 0, 0)

  // ---------------------------------------------------------------- what the walk does, as functions

  function FailAll(store: Store, ids: seq<Id>): (r: Store)
    ensures r.Keys == store.Keys
  {
    map x | x in store :: if x in ids then store[x].(state := Failed) else store[x]
  }

  function ClearFlag(store: Store, id: Id): Store
    requires id in store
  {
    store[id := store[id].(waitForParents := false)]
  }

  datatype Scan = Scanned(store: Store, finished: nat) | Aborted(store: Store, cause: Cause)

  /** The loop over the parents of a visited process: `finished` counts the successful ones, a failed one
      makes a nested walk fail the whole graph. */
  function ScanParents(roots: seq<Id>, store: Store, parents: seq<Id>, finished: nat): (s: Scan)
    ensures s.store.Keys == store.Keys
  {
    if parents == [] then
      Scanned(store, finished)
    else if parents[0] !in store then
      Aborted(store, NilParent(parents[0]))
    else if store[parents[0]].state == Success then
      ScanParents(roots, store, parents[1..], finished + 1)
    else if store[parents[0]].state == Failed then
      var w := Visit(store, roots);
      if w.Missing? then Aborted(FailAll(store, w.order), MissingProcess(w.id))
      else ScanParents(roots, FailAll(store, w.order), parents[1..], finished)
    else
      ScanParents(roots, store, parents[1..], finished)
  }

  function VisitProcess(roots: seq<Id>, store: Store, id: Id): (s: Scan)
    requires id in store
    ensures s.store.Keys == store.Keys
  {
    var s := ScanParents(roots, store, store[id].parents, 0);
    if s.Scanned? && s.finished == |store[id].parents| then Scanned(ClearFlag(s.store, id), s.finished) else s
  }

  /** How `Resolve` ends: normally, with an error that its caller sees, or with a crash that nobody handles. */
  datatype Resolution =
    | Resolved(store: Store, tally: Tally)
    | Stopped(store: Store, id: Id)
    | Crashed(store: Store, parent: Id)

  function Ended(store: Store, cause: Cause): Resolution {
    match cause
    case MissingProcess(id) => Stopped(store, id)
    case NilParent(parent) => Crashed(store, parent)
  }

  function ResolveWork(roots: seq<Id>, store: Store, work: seq<Id>, order: seq<Id>, tally: Tally): Resolution
    decreases store.Keys - Elems(order), |work|
  {
    if work == [] then
      Resolved(store, tally)
    else if work[0] !in store then
      Stopped(store, work[0])
    else if work[0] in order then
      ResolveWork(roots, store, work[1..], order, tally)
    else
      var s := VisitProcess(roots, store, work[0]);
      if s.Aborted? then Ended(s.store, s.cause)
      else
        assert work[0] in store.Keys - Elems(order) && work[0] in Elems(order + [work[0]]);
        ResolveWork(roots, s.store, store[work[0]].children + work[1..], order + [work[0]],
                    tally.Count(store[work[0]].state))
  }

  function ResolveAll(roots: seq<Id>, store: Store): Resolution {
    ResolveWork(roots, store, roots, [], NO_TALLY)
  }

  // ---------------------------------------------------------------- what it is meant to do

  ghost predicate Ready(store: Store, x: Id) requires x in store {
    forall p :: p in store[x].parents ==> p in store && store[p].state == Success
  }

  ghost predicate HasFailedParent(store: Store, x: Id) requires x in store {
    exists p :: p in store[x].parents && p in store && store[p].state == Failed
  }

  ghost function ReleaseReady(store: Store, ids: seq<Id>): (r: Store)
    ensures r.Keys == store.Keys
  {
    map x | x in store :: if x in ids && Ready(store, x) then store[x].(waitForParents := false) else store[x]
  }

  /** The state of a graph as a function of the states of its processes. */
  ghost function StateOfGraph(store: Store, ids: set<Id>): State
    requires ids <= store.Keys
  {
    if exists x :: x in ids && store[x].state == Failed then Failed
    else if forall x :: x in ids ==> store[x].state == Success then Success
    else if exists x :: x in ids && (store[x].state == Success || store[x].state == Running) then Running
    else Waiting
  }

  /** Every reachable process is stored, and so are its parents. */
  ghost predicate Complete(store: Store, roots: seq<Id>) {
    && (forall x :: Reachable(store, roots, x) ==> x in store)
    && (forall x, p :: Reachable(store, roots, x) && x in store && p in store[x].parents ==> p in store)
  }

  ghost predicate ParentsReachable(store: Store, roots: seq<Id>) {
    forall x, p :: Reachable(store, roots, x) && x in store && p in store[x].parents ==> Reachable(store, roots, p)
  }

  /** Two stores that differ at most in states and release flags. */
  ghost predicate SameShape(a: Store, b: Store) {
    && a.Keys == b.Keys
    && forall x :: x in a ==>
        && a[x].parents == b[x].parents && a[x].children == b[x].children
        && a[x].isAssigned == b[x].isAssigned && a[x].executor == b[x].executor
  }

  lemma {:induction false} TraverseSameShape(a: Store, b: Store, work: seq<Id>, order: seq<Id>)
    requires SameShape(a, b)
    ensures Traverse(a, work, order) == Traverse(b, work, order)
    decreases a.Keys - Elems(order), |work|
  {
    if work == [] || work[0] !in a {
    } else if work[0] in order {
      TraverseSameShape(a, b, work[1..], order);
    } else {
      assert work[0] in a.Keys - Elems(order) && work[0] in Elems(order + [work[0]]);
      TraverseSameShape(a, b, a[work[0]].children + work[1..], order + [work[0]]);
    }
  }

  /** The same processes; a state may have become failed, links are untouched. */
  ghost predicate OnlyFails(a: Store, b: Store) {
    SameShape(a, b) && forall x :: x in a ==> b[x].state == a[x].state || b[x].state == Failed
  }

  lemma {:induction false} ScanOnlyFails(roots: seq<Id>, store: Store, parents: seq<Id>, finished: nat)
    ensures OnlyFails(store, ScanParents(roots, store, parents, finished).store)
    decreases |parents|
  {
    if parents == [] || parents[0] !in store {
    } else if store[parents[0]].state == Failed {
      var w := Visit(store, roots);
      if w.Done? { ScanOnlyFails(roots, FailAll(store, w.order), parents[1..], finished); }
    } else {
      ScanOnlyFails(roots, store, parents[1..], finished + (if store[parents[0]].state == Success then 1 else 0));
    }
  }

  /** Whether it finishes or stops half-way, `Resolve` changes no link and turns no state into anything but failed. */
  lemma {:induction false} ResolveOnlyFails(roots: seq<Id>, store: Store, work: seq<Id>, order: seq<Id>, tally: Tally)
    ensures OnlyFails(store, ResolveWork(roots, store, work, order, tally).store)
    decreases store.Keys - Elems(order), |work|
  {
    if work == [] || work[0] !in store {
    } else if work[0] in order {
      ResolveOnlyFails(roots, store, work[1..], order, tally);
    } else {
      ScanOnlyFails(roots, store, store[work[0]].parents, 0);
      var s := VisitProcess(roots, store, work[0]);
      assert OnlyFails(store, s.store);
      if s.Scanned? {
        assert work[0] in store.Keys - Elems(order) && work[0] in Elems(order + [work[0]]);
        ResolveOnlyFails(roots, s.store, store[work[0]].children + work[1..], order + [work[0]],
                         tally.Count(store[work[0]].state));
      }
    }
  }

  // ---------------------------------------------------------------- one visit

  /** The effect of one visit when the nested walk finishes: fail everything if a parent has failed,
      release the process if all parents succeeded. */
  ghost function VisitEffect(store: Store, total: seq<Id>, x: Id): Store
    requires x in store
  {
    if HasFailedParent(store, x) then FailAll(store, total)
    else if Ready(store, x) then ClearFlag(store, x)
    else store
  }

  lemma {:induction false} ScanOutcome(roots: seq<Id>, store: Store, parents: seq<Id>, finished: nat, total: seq<Id>)
    requires Visit(store, roots) == Done(total)
    requires forall p :: p in parents ==> p in store
    ensures var s := ScanParents(roots, store, parents, finished);
      && s.Scanned?
      && s.store == (if exists p :: p in parents && store[p].state == Failed then FailAll(store, total) else store)
      && s.finished <= finished + |parents|
      && (s.finished == finished + |parents| <==> forall p :: p in parents ==> store[p].state == Success)
    decreases |parents|
  {
    if parents != [] {
      assert forall p :: p in parents <==> p == parents[0] || p in parents[1..];
      if store[parents[0]].state == Failed {
        FailedStoreScan(roots, store, total);
        ScanOutcome(roots, FailAll(store, total), parents[1..], finished, total);
      } else {
        var more := if store[parents[0]].state == Success then finished + 1 else finished;
        ScanOutcome(roots, store, parents[1..], more, total);
      }
    }
  }

  lemma FailedStoreScan(roots: seq<Id>, store: Store, total: seq<Id>)
    requires Visit(store, roots) == Done(total)
    ensures Visit(FailAll(store, total), roots) == Done(total)
    ensures FailAll(FailAll(store, total), total) == FailAll(store, total)
  {
    TraverseSameShape(store, FailAll(store, total), roots, []);
  }

  lemma VisitOutcome(roots: seq<Id>, store: Store, x: Id, total: seq<Id>)
    requires Visit(store, roots) == Done(total) && x in store
    requires forall p :: p in store[x].parents ==> p in store
    ensures VisitProcess(roots, store, x).Scanned?
    ensures VisitProcess(roots, store, x).store == VisitEffect(store, total, x)
  {
    ScanOutcome(roots, store, store[x].parents, 0, total);
  }

  // ---------------------------------------------------------------- no reachable process has a failed parent

  function TallyOf(store: Store, order: seq<Id>): Tally
    requires forall x :: x in order ==> x in store
  {
    Tally(|order|, CountState(store, order, Waiting), CountState(store, order, Running),
          CountState(store, order, Success), CountState(store, order, Failed))
  }

  lemma TallyAppend(store: Store, order: seq<Id>, x: Id)
    requires forall y :: y in order ==> y in store
    requires x in store
    ensures TallyOf(store, order + [x]) == TallyOf(store, order).Count(store[x].state)
  {
    CountAppend(store, order, x, Waiting);
    CountAppend(store, order, x, Running);
    CountAppend(store, order, x, Success);
    CountAppend(store, order, x, Failed);
  }

  ghost predicate Calm(store: Store, total: seq<Id>) {
    forall x :: x in total ==> x in store && !HasFailedParent(store, x)
  }

  lemma {:induction false} TraverseExtends(store: Store, work: seq<Id>, order: seq<Id>)
    ensures order <= Traverse(store, work, order).order
    decreases store.Keys - Elems(order), |work|
  {
    if work == [] || work[0] !in store {
    } else if work[0] in order {
      TraverseExtends(store, work[1..], order);
    } else {
      assert work[0] in store.Keys - Elems(order) && work[0] in Elems(order + [work[0]]);
      TraverseExtends(store, store[work[0]].children + work[1..], order + [work[0]]);
    }
  }

  lemma CalmStep(s0: Store, order: seq<Id>, total: seq<Id>, w: Id)
    requires w in s0 && !HasFailedParent(s0, w)
    ensures ReleaseReady(s0, order + [w]) == VisitEffect(ReleaseReady(s0, order), total, w)
  {
    var s := ReleaseReady(s0, order);
    assert !HasFailedParent(s, w);
    assert Ready(s, w) <==> Ready(s0, w);
  }

  lemma {:induction false} ResolveCalm(roots: seq<Id>, s0: Store, work: seq<Id>, order: seq<Id>, total: seq<Id>)
    requires Visit(s0, roots) == Done(total) && Traverse(s0, work, order) == Done(total)
    requires Calm(s0, total)
    requires forall x, p :: x in total && x in s0 && p in s0[x].parents ==> p in s0
    requires forall x :: x in order ==> x in s0
    ensures forall x :: x in total ==> x in s0
    ensures ResolveWork(roots, ReleaseReady(s0, order), work, order, TallyOf(s0, order))
            == Resolved(ReleaseReady(s0, total), TallyOf(s0, total))
    decreases s0.Keys - Elems(order), |work|
  {
    var s := ReleaseReady(s0, order);
    if work == [] || work[0] !in s0 {
    } else if work[0] in order {
      ResolveCalm(roots, s0, work[1..], order, total);
    } else {
      var w := work[0];
      assert w in s0.Keys - Elems(order) && w in Elems(order + [w]);
      TraverseExtends(s0, s0[w].children + work[1..], order + [w]);
      assert w in total by { assert w == total[|order|]; }
      TraverseSameShape(s0, s, roots, []);
      VisitOutcome(roots, s, w, total);
      CalmStep(s0, order, total, w);
      TallyAppend(s0, order, w);
      ResolveCalm(roots, s0, s0[w].children + work[1..], order + [w], total);
    }
  }

  // ---------------------------------------------------------------- some reachable process has a failed parent

  ghost predicate AllFailed(store: Store, total: seq<Id>) {
    forall x :: x in total && x in store ==> store[x].state == Failed
  }

  ghost predicate SameStates(a: Store, b: Store) {
    forall x :: x in a && x in b ==> a[x].state == b[x].state
  }

  /** All parents lie outside the graph and succeeded, so that spreading a failure does not concern them. */
  ghost predicate ReadyOutside(s0: Store, total: seq<Id>, x: Id) {
    x in s0 && forall p :: p in s0[x].parents ==> p in s0 && p !in total && s0[p].state == Success
  }

  /** What holds during a walk that meets, or has met, a failed parent. */
  ghost predicate StormInvariant(s0: Store, s: Store, order: seq<Id>, total: seq<Id>) {
    && SameShape(s0, s)
    && (forall x :: x in s ==> (s[x].waitForParents ==> s0[x].waitForParents))
    && (forall x :: x in s && x !in total ==> s[x] == s0[x])
    && (forall x :: x in order && x in s && ReadyOutside(s0, total, x) ==> !s[x].waitForParents)
    && (AllFailed(s, total) || (SameStates(s0, s) && Calm(s0, order)))
  }

  lemma StormStep(s0: Store, s: Store, order: seq<Id>, total: seq<Id>, x: Id)
    requires StormInvariant(s0, s, order, total)
    requires x in total && x in s
    requires forall y :: y in order ==> y in s0
    ensures StormInvariant(s0, VisitEffect(s, total, x), order + [x], total)
  {
    var t := VisitEffect(s, total, x);
    assert SameShape(s0, t);
    if ReadyOutside(s0, total, x) { assert Ready(s, x) && !HasFailedParent(s, x); }
    if !AllFailed(s, total) && !HasFailedParent(s, x) {
      assert !HasFailedParent(s0, x);
      assert SameStates(s0, t) && Calm(s0, order + [x]);
    }
  }

  lemma {:induction false} ResolveStorm(roots: seq<Id>, s0: Store, s: Store, work: seq<Id>, order: seq<Id>,
                                        tally: Tally, total: seq<Id>)
    requires Visit(s0, roots) == Done(total) && Traverse(s0, work, order) == Done(total)
    requires forall x, p :: x in total && x in s0 && p in s0[x].parents ==> p in s0
    requires forall x :: x in order ==> x in s0
    requires StormInvariant(s0, s, order, total)
    requires tally.failed >= CountState(s0, order, Failed)
    ensures forall x :: x in total ==> x in s0
    ensures var r := ResolveWork(roots, s, work, order, tally);
      r.Resolved? && StormInvariant(s0, r.store, total, total) && r.tally.failed >= CountState(s0, total, Failed)
    decreases s0.Keys - Elems(order), |work|
  {
    if work == [] || work[0] !in s0 {
    } else if work[0] in order {
      ResolveStorm(roots, s0, s, work[1..], order, tally, total);
    } else {
      var w := work[0];
      assert w in s0.Keys - Elems(order) && w in Elems(order + [w]);
      TraverseExtends(s0, s0[w].children + work[1..], order + [w]);
      assert w in total by { assert w == total[|order|]; }
      TraverseSameShape(s0, s, roots, []);
      VisitOutcome(roots, s, w, total);
      StormStep(s0, s, order, total, w);
      CountAppend(s0, order, w, Failed);
      ResolveStorm(roots, s0, VisitEffect(s, total, w), s0[w].children + work[1..], order + [w],
                   tally.Count(s[w].state), total);
    }
  }

  // ---------------------------------------------------------------- the main results about Resolve

  ghost function ReachableSet(store: Store, roots: seq<Id>): (r: set<Id>)
    requires Complete(store, roots)
    ensures forall x :: x in r <==> Reachable(store, roots, x)
    ensures r <= store.Keys
  {
    set x | x in store && Reachable(store, roots, x)
  }

  ghost predicate FailureSpreads(store: Store, roots: seq<Id>) {
    exists x :: Reachable(store, roots, x) && x in store && HasFailedParent(store, x)
  }

  lemma CompleteWalk(store: Store, roots: seq<Id>) returns (total: seq<Id>)
    requires Complete(store, roots)
    ensures Visit(store, roots) == Done(total)
    ensures Elems(total) == ReachableSet(store, roots)
    ensures forall x, p :: x in total && x in store && p in store[x].parents ==> p in store
    ensures Calm(store, total) <==> !FailureSpreads(store, roots)
  {
    VisitIsExact(store, roots);
    total := Visit(store, roots).order;
  }

  /** `ResolveEffect` in terms of the walk: `total` lists the processes of the graph. */
  lemma ResolveOutcome(roots: seq<Id>, store: Store, total: seq<Id>)
    requires Visit(store, roots) == Done(total)
    requires forall x :: x in total ==> x in store
    requires forall x, p :: x in total && x in store && p in store[x].parents ==> p in store
    ensures var r := ResolveAll(roots, store);
      && r.Resolved? && SameShape(store, r.store)
      && (forall x :: x in store ==> (r.store[x].waitForParents ==> store[x].waitForParents))
      && (forall x :: x in store && x !in total ==> r.store[x] == store[x])
      && (!Calm(store, total) ==>
            forall x :: x in store ==> r.store[x].state == if x in total then Failed else store[x].state)
      && (Calm(store, total) ==> r.store == ReleaseReady(store, total))
  {
    if Calm(store, total) {
      ResolveCalm(roots, store, roots, [], total);
      assert ReleaseReady(store, []) == store;
    } else {
      ResolveStorm(roots, store, store, roots, [], NO_TALLY, total);
    }
  }

  /** `Resolve` does not fail on a complete graph. If some reachable process has a failed parent, every reachable
      process ends up failed; otherwise no state changes and the flag is cleared for exactly the reachable
      processes whose parents all succeeded. Nothing outside the graph is touched, and no flag is ever set. */
  lemma ResolveEffect(roots: seq<Id>, store: Store)
    requires Complete(store, roots)
    ensures var r := ResolveAll(roots, store);
      && r.Resolved? && SameShape(store, r.store)
      && (forall x :: x in store ==> (r.store[x].waitForParents ==> store[x].waitForParents))
      && (forall x :: x in store && !Reachable(store, roots, x) ==> r.store[x] == store[x])
      && (FailureSpreads(store, roots) ==>
            forall x :: x in store ==>
              r.store[x].state == if Reachable(store, roots, x) then Failed else store[x].state)
      && (!FailureSpreads(store, roots) ==>
            forall x :: x in store ==>
              r.store[x] == if Reachable(store, roots, x) && Ready(store, x)
                            then store[x].(waitForParents := false) else store[x])
  {
    var total := CompleteWalk(store, roots);
    ResolveOutcome(roots, store, total);
  }

  lemma TallyGivesGraphState(store: Store, total: seq<Id>)
    requires forall x :: x in total ==> x in store
    ensures TallyOf(store, total).GraphState() == StateOfGraph(store, Elems(total))
  {
    CountMeaning(store, total, Failed);
    CountMeaning(store, total, Success);
    CountMeaning(store, total, Running);
  }

  lemma StateOfGraphDependsOnStates(a: Store, b: Store, ids: set<Id>)
    requires ids <= a.Keys && a.Keys == b.Keys && SameStates(a, b)
    ensures StateOfGraph(a, ids) == StateOfGraph(b, ids)
  {
    assert forall x :: x in ids ==> a[x].state == b[x].state;
  }

  lemma CalmGraphState(roots: seq<Id>, store: Store, total: seq<Id>)
    requires Visit(store, roots) == Done(total) && Calm(store, total)
    requires forall x, p :: x in total && x in store && p in store[x].parents ==> p in store
    ensures var r := ResolveAll(roots, store);
      r.Resolved? && r.store.Keys == store.Keys && r.tally.GraphState() == StateOfGraph(r.store, Elems(total))
  {
    ResolveCalm(roots, store, roots, [], total);
    assert ReleaseReady(store, []) == store;
    TallyGivesGraphState(store, total);
    StateOfGraphDependsOnStates(store, ReleaseReady(store, total), Elems(total));
  }

  lemma StormGraphState(roots: seq<Id>, store: Store, total: seq<Id>, x: Id, p: Id)
    requires Visit(store, roots) == Done(total)
    requires forall y, q :: y in total && y in store && q in store[y].parents ==> q in store
    requires x in total && x in store && p in store[x].parents && p in store && store[p].state == Failed && p in total
    ensures var r := ResolveAll(roots, store);
      && r.Resolved? && r.store.Keys == store.Keys && Elems(total) <= store.Keys
      && r.tally.GraphState() == StateOfGraph(r.store, Elems(total))
  {
    ResolveStorm(roots, store, store, roots, [], NO_TALLY, total);
    var r := ResolveAll(roots, store);
    CountMeaning(store, total, Failed);
    assert HasFailedParent(store, x);
    assert AllFailed(r.store, total);
    assert p in Elems(total) && r.store[p].state == Failed;
  }

  lemma ResolveGraphStateOutcome(roots: seq<Id>, store: Store, total: seq<Id>)
    requires Visit(store, roots) == Done(total)
    requires forall x :: x in total ==> x in store
    requires forall x, p :: x in total && x in store && p in store[x].parents ==> p in store
    requires forall x, p :: x in total && x in store && p in store[x].parents ==> p in total
    ensures var r := ResolveAll(roots, store);
      && r.Resolved? && r.store.Keys == store.Keys
      && r.tally.GraphState() == StateOfGraph(r.store, Elems(total))
  {
    if Calm(store, total) {
      CalmGraphState(roots, store, total);
    } else {
      var x :| x in total && HasFailedParent(store, x);
      var p :| p in store[x].parents && p in store && store[p].state == Failed;
      StormGraphState(roots, store, total, x, p);
    }
  }

  /** When every listed parent is reachable, the computed graph state is the fixed function of the resulting states. */
  lemma ResolveGraphState(roots: seq<Id>, store: Store)
    requires Complete(store, roots) && ParentsReachable(store, roots)
    ensures var r := ResolveAll(roots, store);
      && r.Resolved? && r.store.Keys == store.Keys
      && r.tally.GraphState() == StateOfGraph(r.store, ReachableSet(store, roots))
  {
    var total := CompleteWalk(store, roots);
    forall x, p | x in total && x in store && p in store[x].parents ensures p in total {
      assert x in Elems(total) && p in ReachableSet(store, roots);
    }
    ResolveGraphStateOutcome(roots, store, total);
  }

  // ---------------------------------------------------------------- failed parents outside the graph

  /** What makes a walk in this order count a failure: a failed process, or one with a failed parent that is not the
      last, since the failure has spread by the time the next process is counted. */
  ghost predicate FailureCounted(store: Store, order: seq<Id>) {
    exists i :: 0 <= i < |order| && order[i] in store
      && (store[order[i]].state == Failed || (i < |order| - 1 && HasFailedParent(store, order[i])))
  }

  /** The states so far: as at the start until a failed parent has been met, all failed from then on. */
  ghost predicate Spreading(s0: Store, s: Store, order: seq<Id>, total: seq<Id>) {
    && SameShape(s0, s)
    && if Calm(s0, order) then SameStates(s0, s) else AllFailed(s, total)
  }

  lemma SpreadingStep(s0: Store, s: Store, order: seq<Id>, total: seq<Id>, w: Id)
    requires Spreading(s0, s, order, total) && w in s && (forall x :: x in order ==> x in s0)
    ensures Spreading(s0, VisitEffect(s, total, w), order + [w], total)
  {
    var t := VisitEffect(s, total, w);
    assert SameShape(s0, t);
    assert Calm(s0, order + [w]) <==> Calm(s0, order) && !HasFailedParent(s0, w) by {
      assert w in order + [w];
    }
    if Calm(s0, order) { assert HasFailedParent(s, w) <==> HasFailedParent(s0, w); }
  }

  lemma CountedStep(s0: Store, s: Store, order: seq<Id>, total: seq<Id>, w: Id)
    requires Spreading(s0, s, order, total) && w in total && w in s && (forall x :: x in order ==> x in s0)
    ensures FailureCounted(s0, order + [w]) <==> FailureCounted(s0, order) || s[w].state == Failed
  {
    var more := order + [w];
    assert more[|order|] == w && forall i :: 0 <= i < |order| ==> more[i] == order[i];
    if FailureCounted(s0, order) {
      var i :| 0 <= i < |order| && order[i] in s0
        && (s0[order[i]].state == Failed || (i < |order| - 1 && HasFailedParent(s0, order[i])));
      assert more[i] in s0;
    }
    if !Calm(s0, order) {
      var x :| x in order && HasFailedParent(s0, x);
      var i :| 0 <= i < |order| && order[i] == x;
      assert more[i] in s0 && HasFailedParent(s0, more[i]);
    }
  }

  lemma {:induction false} ResolveCountsFailures(roots: seq<Id>, s0: Store, s: Store, work: seq<Id>, order: seq<Id>,
                                                 tally: Tally, total: seq<Id>)
    requires Visit(s0, roots) == Done(total) && Traverse(s0, work, order) == Done(total)
    requires forall x, p :: x in total && x in s0 && p in s0[x].parents ==> p in s0
    requires forall x :: x in order ==> x in s0
    requires Spreading(s0, s, order, total) && (tally.failed > 0 <==> FailureCounted(s0, order))
    ensures var r := ResolveWork(roots, s, work, order, tally);
      r.Resolved? && (r.tally.failed > 0 <==> FailureCounted(s0, total))
    decreases s0.Keys - Elems(order), |work|
  {
    if work == [] || work[0] !in s0 {
    } else if work[0] in order {
      ResolveCountsFailures(roots, s0, s, work[1..], order, tally, total);
    } else {
      var w := work[0];
      assert w in s0.Keys - Elems(order) && w in Elems(order + [w]);
      TraverseExtends(s0, s0[w].children + work[1..], order + [w]);
      assert w in total by { assert w == total[|order|]; }
      TraverseSameShape(s0, s, roots, []);
      VisitOutcome(roots, s, w, total);
      SpreadingStep(s0, s, order, total, w);
      CountedStep(s0, s, order, total, w);
      ResolveCountsFailures(roots, s0, VisitEffect(s, total, w), s0[w].children + work[1..], order + [w],
                            tally.Count(s[w].state), total);
    }
  }

  /** The computed graph state can be wrong in one way only: no process of the graph had failed, and the last process
      visited is the only one with a failed parent, which then lies outside the graph. */
  ghost predicate OverlooksFailure(store: Store, total: seq<Id>) {
    && !FailureCounted(store, total)
    && |total| > 0 && total[|total| - 1] in store && HasFailedParent(store, total[|total| - 1])
  }

  /** Without any hypothesis on where parents are: the computed graph state is the fixed function of the resulting
      process states exactly when the walk does not overlook a failure at its last visit. */
  lemma ResolveGraphStateIff(roots: seq<Id>, store: Store)
    requires Complete(store, roots)
    ensures var r := ResolveAll(roots, store);
      && r.Resolved? && r.store.Keys == store.Keys
      && (r.tally.GraphState() == StateOfGraph(r.store, ReachableSet(store, roots))
          <==> !OverlooksFailure(store, Visit(store, roots).order))
  {
    var total := CompleteWalk(store, roots);
    assert forall x :: x in total ==> x in Elems(total);
    if Calm(store, total) {
      CalmGraphState(roots, store, total);
      assert |total| > 0 ==> total[|total| - 1] in total;
    } else {
      SpreadGraphState(roots, store, total);
    }
  }

  lemma SpreadGraphState(roots: seq<Id>, store: Store, total: seq<Id>)
    requires Visit(store, roots) == Done(total) && !Calm(store, total)
    requires forall x :: x in total ==> x in store
    requires forall x, p :: x in total && x in store && p in store[x].parents ==> p in store
    ensures var r := ResolveAll(roots, store);
      && r.Resolved? && r.store.Keys == store.Keys && Elems(total) <= r.store.Keys
      && (r.tally.GraphState() == StateOfGraph(r.store, Elems(total)) <==> !OverlooksFailure(store, total))
  {
    ResolveCountsFailures(roots, store, store, roots, [], NO_TALLY, total);
    SpreadIsFailed(roots, store, total);
    OverlookedIsUncounted(store, total);
  }

  lemma SpreadIsFailed(roots: seq<Id>, store: Store, total: seq<Id>)
    requires Visit(store, roots) == Done(total) && !Calm(store, total)
    requires forall x :: x in total ==> x in store
    requires forall x, p :: x in total && x in store && p in store[x].parents ==> p in store
    ensures var r := ResolveAll(roots, store).store;
      r.Keys == store.Keys && Elems(total) <= r.Keys && StateOfGraph(r, Elems(total)) == Failed
  {
    ResolveOutcome(roots, store, total);
    var x :| x in total && HasFailedParent(store, x);
    assert x in Elems(total) && ResolveAll(roots, store).store[x].state == Failed;
  }

  lemma OverlookedIsUncounted(store: Store, total: seq<Id>)
    requires !Calm(store, total) && forall x :: x in total ==> x in store
    ensures OverlooksFailure(store, total) <==> !FailureCounted(store, total)
  {
    var x :| x in total && HasFailedParent(store, x);
    var i :| 0 <= i < |total| && total[i] == x;
    if !FailureCounted(store, total) { assert i == |total| - 1; }
  }

  /** Such a graph: its root is running, and its other process depends on a failed process of another graph as well, as
      append mode with a named child of this graph makes it. Both processes fail, but the graph is computed as running,
      because both were counted before the failure spread. */
  lemma UnreachableParentHidesFailure()
    ensures var a := Process(Running, true, "e", false, [], ["c"]);
      var c := Process(Waiting, false, "", true, ["a", "n"], []);
      var n := Process(Failed, true, "e", false, [], ["c"]);
      var store := map["a" := a, "c" := c, "n" := n];
      var r := ResolveAll(["a"], store);
      && r.Resolved? && "a" in r.store && r.store["a"].state == Failed && "c" in r.store && r.store["c"].state == Failed
      && r.tally.GraphState() == Running
  {
    var a := Process(Running, true, "e", false, [], ["c"]);
    var c := Process(Waiting, false, "", true, ["a", "n"], []);
    var n := Process(Failed, true, "e", false, [], ["c"]);
    var store: Store := map["a" := a, "c" := c, "n" := n];
    assert a.children + ["a"][1..] == ["c"] && c.children + ["c"][1..] == [] && [] + ["a"] == ["a"];
    assert ["a"] + ["c"] == ["a", "c"] && ["a", "n"][1..] == ["n"] && ["n"][1..] == [];
    var failed := SecondVisitFails(store, a, c, n);
    var tally := NO_TALLY.Count(Running);
    assert ResolveWork(["a"], failed, [], ["a", "c"], tally.Count(Waiting)) == Resolved(failed, tally.Count(Waiting));
    assert ResolveWork(["a"], store, ["c"], ["a"], tally) == Resolved(failed, tally.Count(Waiting));
    assert ClearFlag(store, "a") == store;
    assert VisitProcess(["a"], store, "a") == Scanned(store, 0);
    assert ResolveWork(["a"], store, ["a"], [], NO_TALLY) == Resolved(failed, tally.Count(Waiting));
  }

  lemma SecondVisitFails(store: Store, a: Process, c: Process, n: Process) returns (failed: Store)
    requires a == Process(Running, true, "e", false, [], ["c"])
    requires c == Process(Waiting, false, "", true, ["a", "n"], [])
    requires n.state == Failed && store == map["a" := a, "c" := c, "n" := n]
    ensures failed == FailAll(store, ["a", "c"]) && VisitProcess(["a"], store, "c") == Scanned(failed, 0)
  {
    failed := FailAll(store, ["a", "c"]);
    assert a.children + ["a"][1..] == ["c"] && c.children + ["c"][1..] == [] && [] + ["a"] == ["a"];
    assert ["a"] + ["c"] == ["a", "c"] && ["a", "n"][1..] == ["n"] && ["n"][1..] == [];
    assert Traverse(store, [], ["a", "c"]) == Done(["a", "c"]);
    assert Traverse(store, ["c"], ["a"]) == Done(["a", "c"]);
    assert Visit(store, ["a"]) == Done(["a", "c"]);
    assert ScanParents(["a"], failed, [], 0) == Scanned(failed, 0);
    assert ScanParents(["a"], store, ["n"], 0) == Scanned(failed, 0);
    assert ScanParents(["a"], store, ["a", "n"], 0) == Scanned(failed, 0);
  }

  /** A walk whose visits change nothing changes nothing. */
  lemma {:induction false} ResolveStill(roots: seq<Id>, s: Store, work: seq<Id>, order: seq<Id>, tally: Tally,
                                        total: seq<Id>)
    requires Visit(s, roots) == Done(total) && Traverse(s, work, order) == Done(total)
    requires forall x, p :: x in total && x in s && p in s[x].parents ==> p in s
    requires forall x :: x in total && x in s ==> VisitEffect(s, total, x) == s
    ensures ResolveWork(roots, s, work, order, tally).Resolved?
    ensures ResolveWork(roots, s, work, order, tally).store == s
    decreases s.Keys - Elems(order), |work|
  {
    if work == [] || work[0] !in s {
    } else if work[0] in order {
      ResolveStill(roots, s, work[1..], order, tally, total);
    } else {
      var w := work[0];
      assert w in s.Keys - Elems(order) && w in Elems(order + [w]);
      TraverseExtends(s, s[w].children + work[1..], order + [w]);
      assert w in total by { assert w == total[|order|]; }
      VisitOutcome(roots, s, w, total);
      ResolveStill(roots, s, s[w].children + work[1..], order + [w], tally.Count(s[w].state), total);
    }
  }

  lemma ReachableSameShape(a: Store, b: Store, roots: seq<Id>)
    requires SameShape(a, b)
    ensures forall x :: Reachable(a, roots, x) <==> Reachable(b, roots, x)
  {
    forall x ensures Reachable(a, roots, x) <==> Reachable(b, roots, x) {
      if Reachable(a, roots, x) {
        var p :| PathTo(a, roots, x, p);
        assert PathTo(b, roots, x, p);
      }
      if Reachable(b, roots, x) {
        var p :| PathTo(b, roots, x, p);
        assert PathTo(a, roots, x, p);
      }
    }
  }

  lemma StillWhenAllFailed(s: Store, total: seq<Id>, x: Id)
    requires x in s && AllFailed(s, total)
    requires ReadyOutside(s, total, x) ==> !s[x].waitForParents
    ensures VisitEffect(s, total, x) == s
  {
    assert FailAll(s, total) == s;
    if Ready(s, x) { assert ReadyOutside(s, total, x) && ClearFlag(s, x) == s; }
  }

  lemma StillWhenReleased(s: Store, total: seq<Id>, x: Id)
    requires x in s && !HasFailedParent(s, x)
    requires Ready(s, x) ==> !s[x].waitForParents
    ensures VisitEffect(s, total, x) == s
  {
    assert Ready(s, x) ==> ClearFlag(s, x) == s;
  }

  /** A resolved graph is one that no further visit changes. */
  lemma ResolvedIsStill(roots: seq<Id>, store: Store, total: seq<Id>, x: Id)
    requires Complete(store, roots)
    requires Visit(store, roots) == Done(total) && x in total && x in store
    requires Elems(total) == ReachableSet(store, roots)
    ensures x in ResolveAll(roots, store).store
    ensures VisitEffect(ResolveAll(roots, store).store, total, x) == ResolveAll(roots, store).store
  {
    var s := ResolveAll(roots, store).store;
    ResolveEffect(roots, store);
    assert Reachable(store, roots, x);
    if FailureSpreads(store, roots) {
      var _ := CompleteWalk(store, roots);
      ResolveStorm(roots, store, store, roots, [], NO_TALLY, total);
      assert ReadyOutside(s, total, x) ==> ReadyOutside(store, total, x);
      StillWhenAllFailed(s, total, x);
    } else {
      assert SameStates(store, s);
      assert !HasFailedParent(s, x) && (Ready(s, x) ==> Ready(store, x));
      StillWhenReleased(s, total, x);
    }
  }

  lemma CompleteSameShape(a: Store, b: Store, roots: seq<Id>)
    requires SameShape(a, b) && Complete(a, roots)
    ensures Complete(b, roots) && ReachableSet(a, roots) == ReachableSet(b, roots)
  {
    ReachableSameShape(a, b, roots);
  }

  /** Once a failure has spread, or when there was none to spread, the walk overlooks nothing. */
  lemma ResolvedOverlooksNothing(roots: seq<Id>, store: Store, total: seq<Id>)
    requires Complete(store, roots) && Visit(store, roots) == Done(total)
    ensures !OverlooksFailure(ResolveAll(roots, store).store, total)
  {
    var _ := CompleteWalk(store, roots);
    assert forall x :: x in total ==> x in Elems(total);
    ResolveOutcome(roots, store, total);
    var s := ResolveAll(roots, store).store;
    if |total| > 0 {
      var last := total[|total| - 1];
      assert last in total;
      if Calm(store, total) {
        assert !HasFailedParent(store, last) && SameStates(store, s) && s[last].parents == store[last].parents;
      } else {
        assert s[last].state == Failed;
      }
    }
  }

  /** Resolving a second time changes no process. It changes the state of the graph exactly when the first time
      overlooked a failure. */
  lemma ResolveIsIdempotent(roots: seq<Id>, store: Store)
    requires Complete(store, roots)
    ensures var r := ResolveAll(roots, store);
      var again := ResolveAll(roots, r.store);
      && r.Resolved? && again.Resolved? && again.store == r.store
      && (again.tally.GraphState() == r.tally.GraphState()
          <==> !OverlooksFailure(store, Visit(store, roots).order))
  {
    var total := CompleteWalk(store, roots);
    var s := ResolveAll(roots, store).store;
    ResolveEffect(roots, store);
    CompleteSameShape(store, s, roots);
    TraverseSameShape(store, s, roots, []);
    forall x | x in total && x in s ensures VisitEffect(s, total, x) == s {
      ResolvedIsStill(roots, store, total, x);
    }
    ResolveStill(roots, s, roots, [], NO_TALLY, total);
    ResolveGraphStateIff(roots, store);
    ResolveGraphStateIff(roots, s);
    ResolvedOverlooksNothing(roots, store, total);
  }

  // ---------------------------------------------------------------- Resolve as it runs over the database

  /** The rows of one process graph. */
  class Database {
    var processes: Store
    var graphState: State

    constructor (processes: Store, graphState: State)
      ensures this.processes == processes && this.graphState == graphState
    {
      this.processes, this.graphState := processes, graphState;
    }
  }

  class Counters {
    var tally: Tally

    constructor ()
      ensures tally == NO_TALLY
    {
      tally := NO_TALLY;
    }
  }

  /** The nested walk that marks what it visits as failed; `s0` is the store it started from. */
  method FailFrom(db: Database, id: Id, v: Visits, ghost rest: seq<Id>, ghost s0: Store) returns (missing: Option<Id>)
    requires v.Valid() && db.processes == FailAll(s0, v.order)
    modifies v, db`processes
    ensures v.Valid() && old(v.seen) <= v.seen && db.processes == FailAll(s0, v.order)
    ensures Traverse(s0, [id] + rest, old(v.order))
            == if missing.None? then Traverse(s0, rest, v.order) else Missing(missing.value, v.order)
    decreases db.processes.Keys - v.seen
  {
    assert ([id] + rest)[1..] == rest;
    if id !in db.processes { return Some(id); }
    if id in v.seen { return None; }
    ghost var before := v.order;
    var process := db.processes[id];
    v.Mark(id);
    db.processes := db.processes[id := process.(state := Failed)];
    assert db.processes == FailAll(s0, v.order);
    var children := process.children;
    assert children[0..] == children;
    for i := 0 to |children|
      invariant v.Valid() && old(v.seen) + {id} <= v.seen && db.processes == FailAll(s0, v.order)
      invariant Traverse(s0, [id] + rest, before) == Traverse(s0, children[i..] + rest, v.order)
    {
      assert children[i..] + rest == [children[i]] + (children[i + 1..] + rest);
      missing := FailFrom(db, children[i], v, children[i + 1..] + rest, s0);
      if missing.Some? { return; }
    }
    assert children[|children|..] + rest == rest;
    missing := None;
  }

  method FailGraph(db: Database, roots: seq<Id>) returns (missing: Option<Id>)
    modifies db`processes
    ensures var w := Visit(old(db.processes), roots);
      && db.processes == FailAll(old(db.processes), w.order)
      && missing == if w.Missing? then Some(w.id) else None
  {
    var v := new Visits();
    ghost var s0 := db.processes;
    assert FailAll(s0, []) == s0;
    assert roots[0..] == roots;
    for i := 0 to |roots|
      invariant v.Valid() && db.processes == FailAll(s0, v.order)
      invariant Visit(s0, roots) == Traverse(s0, roots[i..], v.order)
    {
      assert roots[i..] == [roots[i]] + roots[i + 1..];
      missing := FailFrom(db, roots[i], v, roots[i + 1..], s0);
      if missing.Some? { return; }
    }
    missing := None;
  }

  /** The visiting function of `Resolve`. */
  method ResolveOne(db: Database, roots: seq<Id>, id: Id, process: Process, c: Counters) returns (cause: Option<Cause>)
    requires id in db.processes && process == db.processes[id]
    modifies db`processes, c
    ensures var s := VisitProcess(roots, old(db.processes), id);
      && db.processes == s.store
      && cause == if s.Aborted? then Some(s.cause) else None
    ensures c.tally == old(c.tally).Count(process.state)
  {
    ghost var s0 := db.processes;
    c.tally := c.tally.Count(process.state);
    var finished := 0;
    var parents := process.parents;
    assert parents[0..] == parents;
    for i := 0 to |parents|
      invariant db.processes.Keys == s0.Keys && finished <= i
      invariant c.tally == old(c.tally).Count(process.state)
      invariant ScanParents(roots, s0, parents, 0) == ScanParents(roots, db.processes, parents[i..], finished)
    {
      assert parents[i..][0] == parents[i] && parents[i..][1..] == parents[i + 1..];
      if parents[i] !in db.processes { return Some(NilParent(parents[i])); }
      var parent := db.processes[parents[i]];
      if parent.state == Success {
        finished := finished + 1;
      } else if parent.state == Failed {
        var missing := FailGraph(db, roots);
        if missing.Some? { return Some(MissingProcess(missing.value)); }
      }
    }
    if finished == |parents| {
      db.processes := db.processes[id := db.processes[id].(waitForParents := false)];
    }
    cause := None;
  }

  method ResolveFrom(db: Database, roots: seq<Id>, id: Id, v: Visits, c: Counters, ghost rest: seq<Id>)
    returns (cause: Option<Cause>)
    requires v.Valid()
    modifies v, db`processes, c
    ensures v.Valid() && old(v.seen) <= v.seen && db.processes.Keys == old(db.processes.Keys)
    ensures ResolveWork(roots, old(db.processes), [id] + rest, old(v.order), old(c.tally))
            == if cause.None? then ResolveWork(roots, db.processes, rest, v.order, c.tally)
               else Ended(db.processes, cause.value)
    decreases db.processes.Keys - v.seen
  {
    assert ([id] + rest)[1..] == rest;
    if id !in db.processes { return Some(MissingProcess(id)); }
    if id in v.seen { return None; }
    ghost var start := ResolveWork(roots, db.processes, [id] + rest, v.order, c.tally);
    var process := db.processes[id];
    v.Mark(id);
    cause := ResolveOne(db, roots, id, process, c);
    if cause.Some? { return; }
    var children := process.children;
    assert children[0..] == children;
    for i := 0 to |children|
      invariant v.Valid() && old(v.seen) + {id} <= v.seen && db.processes.Keys == old(db.processes.Keys)
      invariant start == ResolveWork(roots, db.processes, children[i..] + rest, v.order, c.tally)
    {
      assert children[i..] + rest == [children[i]] + (children[i + 1..] + rest);
      cause := ResolveFrom(db, roots, children[i], v, c, children[i + 1..] + rest);
      if cause.Some? { return; }
    }
    assert children[|children|..] + rest == rest;
    cause := None;
  }

  method ResolveGraph(db: Database, roots: seq<Id>) returns (cause: Option<Cause>)
    modifies db
    ensures var r := ResolveAll(roots, old(db.processes));
      && db.processes == r.store
      && (r.Resolved? ==> cause.None? && db.graphState == r.tally.GraphState())
      && (r.Stopped? ==> cause == Some(MissingProcess(r.id)) && db.graphState == old(db.graphState))
      && (r.Crashed? ==> cause == Some(NilParent(r.parent)) && db.graphState == old(db.graphState))
  {
    var v := new Visits();
    var c := new Counters();
    ghost var start := ResolveAll(roots, db.processes);
    assert roots[0..] == roots;
    for i := 0 to |roots|
      invariant v.Valid() && db.graphState == old(db.graphState)
      invariant start == ResolveWork(roots, db.processes, roots[i..], v.order, c.tally)
    {
      assert roots[i..] == [roots[i]] + roots[i + 1..];
      cause := ResolveFrom(db, roots, roots[i], v, c, roots[i + 1..]);
      if cause.Some? { return; }
    }
    db.graphState := c.tally.GraphState();
    cause := None;
  }
}
