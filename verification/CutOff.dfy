/** When a graph is shown as successful although some process has not succeeded: exactly when that process is cut off
    from the roots and the rest of the graph can be completed without it. */
module CutOff {
  import opened Collections
  import opened ProcessGraph
  import opened Resolve
  import opened IncompleteGraphs
  import opened Workflow
  import opened Runs
  import opened Submission
  import opened SubmittedRuns
  import opened Cycles

  // ---------------------------------------------------------------- reachability through the steps of a run

  lemma {:induction false} ReachableByEdges(a: Store, b: Store, roots: seq<Id>, p: seq<Id>, x: Id)
    requires PathTo(a, roots, x, p)
    requires forall y, c :: y in a && c in a[y].children && Reachable(b, roots, y) ==> Reachable(b, roots, c)
    ensures Reachable(b, roots, x)
    decreases |p|
  {
    if |p| == 1 {
      RootIsReachable(b, roots, x);
    } else {
      var q := p[..|p| - 1];
      assert forall i :: 0 <= i < |q| ==> q[i] == p[i];
      ReachableByEdges(a, b, roots, q, q[|q| - 1]);
      assert p[|p| - 2 + 1] in a[p[|p| - 2]].children;
    }
  }

  lemma SameChildrenReach(a: Store, b: Store, roots: seq<Id>, x: Id)
    requires Reachable(a, roots, x)
    requires forall y :: y in a ==> y in b && forall c :: c in a[y].children ==> c in b[y].children
    ensures Reachable(b, roots, x)
  {
    var p :| PathTo(a, roots, x, p);
    forall y, c | y in a && c in a[y].children && Reachable(b, roots, y) ensures Reachable(b, roots, c) {
      ChildIsReachable(b, roots, y, c);
    }
    ReachableByEdges(a, b, roots, p, x);
  }

  lemma {:induction false} RewireKeepsChildren(store: Store, parent: Id, newId: Id, kids: seq<Id>)
    ensures var r := Rewire(store, parent, newId, kids);
      r.Keys == store.Keys && forall x :: x in store ==> r[x].children == store[x].children
    decreases |kids|
  {
    if kids != [] && kids[0] in store {
      var kid := store[kids[0]];
      RewireKeepsChildren(store[kids[0] := kid.(parents := Without(kid.parents, parent) + [newId])], parent, newId,
                          kids[1..]);
    }
  }

  lemma InsertReach(store: Store, roots: seq<Id>, parent: Id, newId: Id, x: Id)
    requires parent in store && newId !in store && Reachable(store, roots, x)
    ensures Reachable(InsertChild(store, parent, newId), roots, x)
  {
    var kids := store[parent].children;
    var s := store[newId := NewChild(parent).(children := kids)];
    var t := s[parent := s[parent].(children := [newId])];
    RewireKeepsChildren(t, parent, newId, kids);
    var r := InsertChild(store, parent, newId);
    forall y, c | y in store && c in store[y].children && Reachable(r, roots, y) ensures Reachable(r, roots, c) {
      if y == parent {
        ChildIsReachable(r, roots, parent, newId);
        ChildIsReachable(r, roots, newId, c);
      } else {
        ChildIsReachable(r, roots, y, c);
      }
    }
    var p :| PathTo(store, roots, x, p);
    ReachableByEdges(store, r, roots, p, x);
  }

  // ---------------------------------------------------------------- a reachable held process prevents success

  lemma {:induction false} ResolveCountsHeld(roots: seq<Id>, s: Store, work: seq<Id>, order: seq<Id>, tally: Tally,
                                             ring: set<Id>, x: Id, total: seq<Id>)
    requires Held(s, ring) && x in ring && Traverse(s, work, order) == Done(total) && x in total
    requires tally.successful + (if x in order then 1 else 0) <= tally.processes
    ensures var r := ResolveWork(roots, s, work, order, tally);
      r.Resolved? ==> r.tally.successful < r.tally.processes
    decreases s.Keys - Elems(order), |work|
  {
    if work == [] || work[0] !in s {
    } else if work[0] in order {
      ResolveCountsHeld(roots, s, work[1..], order, tally, ring, x, total);
    } else {
      var w := work[0];
      var v := VisitProcess(roots, s, w);
      VisitKeepsHeld(roots, s, ring, w);
      ScanOnlyFails(roots, s, s[w].parents, 0);
      assert SameShape(s, v.store);
      if v.Scanned? {
        assert w in s.Keys - Elems(order) && w in Elems(order + [w]);
        TraverseSameShape(s, v.store, s[w].children + work[1..], order + [w]);
        assert HeldAt(s, ring, x);
        ResolveCountsHeld(roots, v.store, s[w].children + work[1..], order + [w], tally.Count(s[w].state), ring, x,
                          total);
      }
    }
  }

  lemma ResolveNotSuccess(roots: seq<Id>, s: Store, ring: set<Id>, x: Id)
    requires Held(s, ring) && x in ring && Reachable(s, roots, x)
    ensures var r := ResolveAll(roots, s); r.Resolved? ==> r.tally.GraphState() != Success
  {
    ResolveEndsIff(roots, s);
    if ResolveAll(roots, s).Resolved? {
      var total := CompleteWalk(s, roots);
      assert x in Elems(total);
      ResolveCountsHeld(roots, s, roots, [], NO_TALLY, ring, x, total);
    }
  }

  /** What holds of a run on a graph with a held process that the walk reaches. */
  ghost predicate Blocked(w: World, ring: set<Id>, x: Id) {
    Held(w.store, ring) && x in ring && Reachable(w.store, w.roots, x) && w.graphState != Success
  }

  lemma AfterResolveBlocked(w: World, id: Id, s: Store, ring: set<Id>, x: Id)
    requires Held(s, ring) && x in ring && Reachable(s, w.roots, x) && w.graphState != Success
    ensures Blocked(AfterResolve(w, id, ResolveAll(w.roots, s)), ring, x)
  {
    var r := ResolveAll(w.roots, s);
    ResolveNotSuccess(w.roots, s, ring, x);
    ResolveKeepsHeld(w.roots, s, w.roots, [], NO_TALLY, ring);
    DefunctKeepsHeld(w, id, r, ring);
    ResolveOnlyFails(w.roots, s, w.roots, [], NO_TALLY);
    SameChildrenReach(s, AfterResolve(w, id, r).store, w.roots, x);
  }

  lemma {:induction false} RetryBlocked(w: World, id: Id, s: Store, n: nat, ring: set<Id>, x: Id)
    requires n > 0 && Held(s, ring) && x in ring && Reachable(s, w.roots, x) && w.graphState != Success
    ensures Blocked(AfterResolve(w, id, ResolveRetry(w.roots, s, n)), ring, x)
    decreases n
  {
    var r := ResolveAll(w.roots, s);
    if r.Stopped? && n > 1 {
      ResolveKeepsHeld(w.roots, s, w.roots, [], NO_TALLY, ring);
      ResolveOnlyFails(w.roots, s, w.roots, [], NO_TALLY);
      SameChildrenReach(s, r.store, w.roots, x);
      RetryBlocked(w, id, r.store, n - 1, ring, x);
    } else {
      AfterResolveBlocked(w, id, s, ring, x);
    }
  }

  lemma ChangeBlocked(w: World, id: Id, p: Process, ring: set<Id>, x: Id)
    requires Blocked(w, ring, x) && id in w.store && p.parents == w.store[id].parents
    requires p.children == w.store[id].children && (id in ring ==> p.state == Failed)
    ensures Blocked(AfterResolve(w, id, ResolveAll(w.roots, w.store[id := p])), ring, x)
    ensures Blocked(AfterResolve(w, id, ResolveRetry(w.roots, w.store[id := p], MAX_RETRIES)), ring, x)
    ensures Blocked(w.(store := w.store[id := p]), ring, x)
  {
    var s := w.store[id := p];
    SetKeepsHeld(w.store, ring, id, p);
    SameChildrenReach(w.store, s, w.roots, x);
    AfterResolveBlocked(w, id, s, ring, x);
    RetryBlocked(w, id, s, MAX_RETRIES, ring, x);
  }

  lemma StepStaysBlocked(w: World, step: Step, ring: set<Id>, x: Id)
    requires Blocked(w, ring, x)
    ensures Blocked(Apply(w, step), ring, x)
  {
    match step
    case Assign(id, executor) =>
      HandlerStaysBlocked(w, id, executor, ring, x);
    case TimeoutUnassign(id) =>
      HandlerStaysBlocked(w, id, "", ring, x);
    case CloseSuccessful(id) =>
      CloseStaysBlocked(w, id, ring, x);
    case CloseFailed(id) =>
      CloseStaysBlocked(w, id, ring, x);
    case Insert(parent, id, executor) =>
      if MayAddChild(w.store, parent, id, executor) { GrowthStaysBlocked(w, parent, id, ring, x); }
    case Append(parent, id, executor) =>
      if MayAddChild(w.store, parent, id, executor) { GrowthStaysBlocked(w, parent, id, ring, x); }
  }

  lemma HandlerStaysBlocked(w: World, id: Id, executor: string, ring: set<Id>, x: Id)
    requires Blocked(w, ring, x)
    ensures Blocked(Apply(w, Assign(id, executor)), ring, x) && Blocked(Apply(w, TimeoutUnassign(id)), ring, x)
  {
    assert id in ring ==> HeldAt(w.store, ring, id);
    if id in w.store && Candidate(w.store[id]) { ChangeBlocked(w, id, Assigned(w.store[id], executor), ring, x); }
    if id in w.store && w.store[id].state == Running { ChangeBlocked(w, id, Unassigned(w.store[id]), ring, x); }
  }

  lemma CloseStaysBlocked(w: World, id: Id, ring: set<Id>, x: Id)
    requires Blocked(w, ring, x)
    ensures Blocked(Apply(w, CloseSuccessful(id)), ring, x) && Blocked(Apply(w, CloseFailed(id)), ring, x)
  {
    assert id in ring ==> HeldAt(w.store, ring, id);
    if id in w.store && CanSucceed(w.store[id]) { ChangeBlocked(w, id, w.store[id].(state := Success), ring, x); }
    if id in w.store && CanFail(w.store[id]) { ChangeBlocked(w, id, w.store[id].(state := Failed), ring, x); }
  }

  lemma GrowthStaysBlocked(w: World, parent: Id, id: Id, ring: set<Id>, x: Id)
    requires Blocked(w, ring, x) && parent in w.store && w.store[parent].state == Running && id !in w.store
    ensures Blocked(w.(store := InsertChild(w.store, parent, id)), ring, x)
    ensures Blocked(w.(store := AppendChild(w.store, parent, id)), ring, x)
  {
    AddChildKeepsHeld(w.store, ring, parent, id);
    InsertReach(w.store, w.roots, parent, id, x);
    SameChildrenReach(w.store, AppendChild(w.store, parent, id), w.roots, x);
  }

  /** A graph with a held process that can be reached from the roots is never shown as successful. */
  lemma {:induction false} RunStaysBlocked(w: World, steps: seq<Step>, ring: set<Id>, x: Id)
    requires Blocked(w, ring, x)
    ensures Blocked(Execute(w, steps), ring, x)
    decreases |steps|
  {
    if steps != [] {
      StepStaysBlocked(w, steps[0], ring, x);
      RunStaysBlocked(Apply(w, steps[0]), steps[1..], ring, x);
    }
  }

  // ---------------------------------------------------------------- part of a graph on its own

  ghost function Restrict(s: Store, part: set<Id>): Store {
    map x | x in s && x in part :: s[x]
  }

  /** The roots and all links of the part stay in it. */
  ghost predicate Closed(s: Store, roots: seq<Id>, part: set<Id>) {
    && part <= s.Keys && (forall r :: r in roots ==> r in part)
    && (forall x, c :: x in part && c in s[x].children ==> c in part)
    && (forall x, p :: x in part && p in s[x].parents ==> p in part)
  }

  lemma {:induction false} TraverseFrame(s: Store, roots: seq<Id>, part: set<Id>, work: seq<Id>, order: seq<Id>)
    requires Closed(s, roots, part) && (forall x :: x in work ==> x in part) && (forall x :: x in order ==> x in part)
    ensures Traverse(Restrict(s, part), work, order) == Traverse(s, work, order)
    ensures Traverse(s, work, order).Done? && forall x :: x in Traverse(s, work, order).order ==> x in part
    decreases s.Keys - Elems(order), |work|
  {
    if work == [] {
    } else if work[0] in order {
      TraverseFrame(s, roots, part, work[1..], order);
    } else {
      assert work[0] in part && work[0] in s.Keys - Elems(order) && work[0] in Elems(order + [work[0]]);
      TraverseFrame(s, roots, part, s[work[0]].children + work[1..], order + [work[0]]);
    }
  }

  /** The second store has the links of the first and differs from it only inside the part. */
  ghost predicate ChangedInside(a: Store, b: Store, part: set<Id>) {
    SameShape(a, b) && forall x :: x in a && x !in part ==> b[x] == a[x]
  }

  lemma {:induction false} ScanFrame(roots: seq<Id>, s: Store, part: set<Id>, parents: seq<Id>, finished: nat)
    requires Closed(s, roots, part) && forall p :: p in parents ==> p in part
    ensures var full := ScanParents(roots, s, parents, finished);
      && full.Scanned? && ChangedInside(s, full.store, part)
      && ScanParents(roots, Restrict(s, part), parents, finished) == Scanned(Restrict(full.store, part), full.finished)
    decreases |parents|
  {
    if parents != [] {
      assert parents[0] in part;
      if s[parents[0]].state == Failed {
        TraverseFrame(s, roots, part, roots, []);
        var order := Visit(s, roots).order;
        RestrictFail(s, part, order);
        ScanFrame(roots, FailAll(s, order), part, parents[1..], finished);
      } else {
        ScanFrame(roots, s, part, parents[1..], if s[parents[0]].state == Success then finished + 1 else finished);
      }
    }
  }

  lemma RestrictFail(s: Store, part: set<Id>, order: seq<Id>)
    ensures Restrict(FailAll(s, order), part) == FailAll(Restrict(s, part), order)
  {
  }

  lemma VisitFrame(roots: seq<Id>, s: Store, part: set<Id>, x: Id)
    requires Closed(s, roots, part) && x in part
    ensures var full := VisitProcess(roots, s, x);
      && full.Scanned? && ChangedInside(s, full.store, part)
      && VisitProcess(roots, Restrict(s, part), x) == Scanned(Restrict(full.store, part), full.finished)
  {
    ScanFrame(roots, s, part, s[x].parents, 0);
    var full := ScanParents(roots, s, s[x].parents, 0);
    RestrictClear(full.store, part, x);
  }

  lemma RestrictClear(s: Store, part: set<Id>, x: Id)
    requires x in s && x in part
    ensures Restrict(ClearFlag(s, x), part) == ClearFlag(Restrict(s, part), x)
  {
  }

  lemma {:induction false} WorkFrame(roots: seq<Id>, s: Store, part: set<Id>, work: seq<Id>, order: seq<Id>,
                                     tally: Tally)
    requires Closed(s, roots, part) && forall x :: x in work ==> x in part
    ensures var full := ResolveWork(roots, s, work, order, tally);
      && full.Resolved? && ChangedInside(s, full.store, part)
      && ResolveWork(roots, Restrict(s, part), work, order, tally) == Resolved(Restrict(full.store, part), full.tally)
    decreases s.Keys - Elems(order), |work|
  {
    if work == [] {
    } else if work[0] in order {
      WorkFrame(roots, s, part, work[1..], order, tally);
    } else {
      var x := work[0];
      assert x in part && x in s.Keys - Elems(order) && x in Elems(order + [x]);
      VisitFrame(roots, s, part, x);
      var v := VisitProcess(roots, s, x);
      WorkFrame(roots, v.store, part, s[x].children + work[1..], order + [x], tally.Count(s[x].state));
    }
  }

  /** `Resolve` on a closed part does to it what it does to the part on its own, and nothing to the rest. */
  lemma ResolveFrame(roots: seq<Id>, s: Store, part: set<Id>)
    requires Closed(s, roots, part)
    ensures var full := ResolveAll(roots, s);
      && full.Resolved? && ChangedInside(s, full.store, part)
      && ResolveAll(roots, Restrict(s, part)) == Resolved(Restrict(full.store, part), full.tally)
  {
    WorkFrame(roots, s, part, roots, [], NO_TALLY);
  }

  ghost function RestrictWorld(w: World, part: set<Id>): World {
    w.(store := Restrict(w.store, part))
  }

  /** The same links, and the same rows outside the part. */
  ghost predicate OnlyPartMoved(a: Store, b: Store, part: set<Id>) {
    && a.Keys == b.Keys
    && (forall x :: x in a ==> a[x].parents == b[x].parents && a[x].children == b[x].children)
    && (forall x :: x in a && x !in part ==> b[x] == a[x])
  }

  lemma ChangeFrame(w: World, part: set<Id>, id: Id, p: Process)
    requires Closed(w.store, w.roots, part) && id in part
    requires p.parents == w.store[id].parents && p.children == w.store[id].children
    ensures var s := w.store[id := p];
      var r := ResolveAll(w.roots, s);
      && r.Resolved? && OnlyPartMoved(w.store, r.store, part)
      && ResolveAll(w.roots, Restrict(w.store, part)[id := p]) == Resolved(Restrict(r.store, part), r.tally)
  {
    var s := w.store[id := p];
    assert Closed(s, w.roots, part);
    ResolveFrame(w.roots, s, part);
    assert Restrict(s, part) == Restrict(w.store, part)[id := p];
  }

  lemma StepFrame(w: World, part: set<Id>, step: Step)
    requires Closed(w.store, w.roots, part) && Effective(RestrictWorld(w, part), step)
    ensures RestrictWorld(Apply(w, step), part) == Apply(RestrictWorld(w, part), step)
    ensures OnlyPartMoved(w.store, Apply(w, step).store, part) && Apply(w, step).roots == w.roots
  {
    match step
    case Assign(id, executor) => ChangeFrame(w, part, id, Assigned(w.store[id], executor));
    case CloseSuccessful(id) => ChangeFrame(w, part, id, w.store[id].(state := Success));
    case CloseFailed(id) => ChangeFrame(w, part, id, w.store[id].(state := Failed));
  }

  lemma {:induction false} RunFrame(w: World, part: set<Id>, steps: seq<Step>)
    requires Closed(w.store, w.roots, part) && EffectiveRun(RestrictWorld(w, part), steps)
    ensures RestrictWorld(Execute(w, steps), part) == Execute(RestrictWorld(w, part), steps)
    ensures OnlyPartMoved(w.store, Execute(w, steps).store, part)
    decreases |steps|
  {
    if steps != [] {
      StepFrame(w, part, steps[0]);
      var v := Apply(w, steps[0]);
      assert Closed(v.store, v.roots, part);
      RunFrame(v, part, steps[1..]);
    }
  }

  // ---------------------------------------------------------------- completing the rest

  lemma ChangeShowsState(w: World, id: Id, p: Process)
    requires Inv(w) && id in w.store && p.parents == w.store[id].parents && p.children == w.store[id].children
    ensures var r := ResolveAll(w.roots, w.store[id := p]);
      r.Resolved? && r.tally.GraphState() == StateOfGraph(r.store, r.store.Keys)
  {
    SetStateShape(w.store, w.roots, id, p);
    ResolveWellFormed(w.store[id := p], w.roots);
  }

  lemma StepShowsState(w: World, step: Step)
    requires Inv(w) && Effective(w, step)
    ensures var v := Apply(w, step); v.graphState == StateOfGraph(v.store, v.store.Keys)
  {
    match step
    case Assign(id, executor) => ChangeShowsState(w, id, Assigned(w.store[id], executor));
    case CloseSuccessful(id) => ChangeShowsState(w, id, w.store[id].(state := Success));
    case CloseFailed(id) => ChangeShowsState(w, id, w.store[id].(state := Failed));
  }

  lemma {:induction false} RunShowsState(w: World, steps: seq<Step>)
    requires Inv(w) && EffectiveRun(w, steps) && steps != []
    ensures var v := Execute(w, steps); v.graphState == StateOfGraph(v.store, v.store.Keys)
    decreases |steps|
  {
    StepShowsState(w, steps[0]);
    StepKeepsInv(w, steps[0]);
    if steps[1..] != [] { RunShowsState(Apply(w, steps[0]), steps[1..]); }
  }

  lemma {:induction false} ReachableIsStored(s: Store, roots: seq<Id>, p: seq<Id>, x: Id)
    requires (forall y, c :: y in s && c in s[y].children ==> c in s) && (forall r :: r in roots ==> r in s)
    requires PathTo(s, roots, x, p)
    ensures x in s
  {
    if |p| > 1 { assert p[|p| - 2 + 1] in s[p[|p| - 2]].children; }
  }

  lemma BuiltIsComplete(spec: seq<FunctionSpec>, ids: seq<Id>, s: Store, roots: seq<Id>)
    requires Built(spec, ids, s, roots)
    ensures Complete(s, roots)
  {
    forall y | y in s
      ensures forall c :: c in s[y].children ==> c in s
      ensures forall p :: p in s[y].parents ==> p in s
    {
      var k :| 0 <= k < |ids| && ids[k] == y;
      assert RowBuilt(spec, ids, s, k);
      forall p | p in s[y].parents ensures p in s {
        var n :| 0 <= n < |s[y].parents| && s[y].parents[n] == p;
        assert ParentBuilt(spec, ids, s[y], k, n);
      }
    }
    forall x | Reachable(s, roots, x) ensures x in s {
      var p :| PathTo(s, roots, x, p);
      ReachableIsStored(s, roots, p, x);
    }
  }

  // ---------------------------------------------------------------- shown as successful

  /** Some process cannot be reached from the roots; what can be reached depends on nothing else and has no cycle. */
  ghost predicate HasCutOff(s: Store, roots: seq<Id>)
    requires Complete(s, roots)
  {
    && (exists u :: u in s && !Reachable(s, roots, u))
    && ParentsReachable(s, roots)
    && Acyclic(Restrict(s, ReachableSet(s, roots)))
  }

  ghost predicate ShowsSuccess(w: World, steps: seq<Step>) {
    Execute(w, steps).graphState == Success && !AllSuccess(Execute(w, steps).store)
  }

  lemma ReachableIsClosed(s: Store, roots: seq<Id>)
    requires Complete(s, roots) && ParentsReachable(s, roots)
    ensures Closed(s, roots, ReachableSet(s, roots))
  {
    var part := ReachableSet(s, roots);
    forall r | r in roots ensures r in part { RootIsReachable(s, roots, r); }
    forall x, c | x in part && c in s[x].children ensures c in part { ChildIsReachable(s, roots, x, c); }
  }

  lemma PartSatisfiesInv(s: Store, roots: seq<Id>, part: set<Id>)
    requires MutuallyInverse(s) && RootsAreParentless(s, roots) && Closed(s, roots, part)
    requires Acyclic(Restrict(s, part)) && forall x :: x in s ==> IsNew(s[x])
    ensures Inv(World(Restrict(s, part), roots, Waiting))
  {
    var t := Restrict(s, part);
    assert MutuallyInverse(t) && RootsAreParentless(t, roots);
    NewIsInOrder(t);
  }

  /** The rest of the graph is completed without the process that is cut off; if there is no rest, failing the process
      is enough. */
  lemma CutOffShowsSuccess(spec: seq<FunctionSpec>, ids: seq<Id>, s: Store, roots: seq<Id>) returns (steps: seq<Step>)
    requires Fresh(spec, ids) && NamesOk(spec) && Built(spec, ids, s, roots)
    requires Complete(s, roots) && HasCutOff(s, roots)
    ensures ShowsSuccess(World(s, roots, Waiting), steps)
  {
    var w := World(s, roots, Waiting);
    var part := ReachableSet(s, roots);
    var u :| u in s && !Reachable(s, roots, u);
    BuiltIsNew(spec, ids, s, roots);
    if roots == [] {
      steps := [CloseFailed(u)];
      RootlessShowsSuccess(s, u);
      assert steps[1..] == [];
    } else {
      BuiltIsInverse(spec, ids, s, roots);
      BuiltRoots(spec, ids, s, roots);
      ReachableIsClosed(s, roots);
      PartSatisfiesInv(s, roots, part);
      steps := CanFinish(RestrictWorld(w, part));
      RunFrame(w, part, steps);
      RootIsReachable(s, roots, roots[0]);
      FinishedPartShowsSuccess(w, part, steps, roots[0], u);
    }
  }

  lemma RootlessShowsSuccess(s: Store, u: Id)
    requires u in s && CanFail(s[u])
    ensures var w := Apply(World(s, [], Waiting), CloseFailed(u));
      w.graphState == Success && u in w.store && w.store[u].state == Failed
  {
  }

  lemma FinishedPartShowsSuccess(w: World, part: set<Id>, steps: seq<Step>, r: Id, u: Id)
    requires Inv(RestrictWorld(w, part)) && EffectiveRun(RestrictWorld(w, part), steps)
    requires (forall x :: x in w.store ==> w.store[x].state == Waiting) && r in part && r in w.store
    requires u in w.store && u !in part && OnlyPartMoved(w.store, Execute(w, steps).store, part)
    requires RestrictWorld(Execute(w, steps), part) == Execute(RestrictWorld(w, part), steps)
    requires var e := Execute(RestrictWorld(w, part), steps).store;
      AllFinished(e) && SameFailures(Restrict(w.store, part), e)
    ensures ShowsSuccess(w, steps)
  {
    var e := Execute(RestrictWorld(w, part), steps);
    assert r in Restrict(w.store, part) && r in e.store && steps != [];
    RunShowsState(RestrictWorld(w, part), steps);
    assert AllSuccess(e.store);
    StateOfGraphIsSound(e.store);
  }

  // ---------------------------------------------------------------- and not otherwise

  /** A process that cannot be reached depends on another one. */
  lemma CutOffIsHeld(s: Store, roots: seq<Id>, u: Id) returns (q: Id)
    requires MutuallyInverse(s) && RootsAreParentless(s, roots) && u in s && !Reachable(s, roots, u)
    ensures q in s[u].parents && q in s && !Reachable(s, roots, q)
  {
    if s[u].parents == [] {
      RootIsReachable(s, roots, u);
      assert false;
    } else {
      q := s[u].parents[0];
      assert q in s[u].parents && u in s[q].children;
      if Reachable(s, roots, q) { ChildIsReachable(s, roots, q, u); }
    }
  }

  lemma UnreachableRing(s: Store, roots: seq<Id>, x: Id, p: Id) returns (ring: set<Id>)
    requires MutuallyInverse(s) && RootsAreParentless(s, roots) && (forall y :: y in s ==> IsNew(s[y]))
    requires x in s && p in s[x].parents && p in s && !Reachable(s, roots, p)
    ensures Held(s, ring) && x in ring
  {
    var cut := set u | u in s && !Reachable(s, roots, u);
    ring := cut + {x};
    forall y | y in ring ensures HeldAt(s, ring, y) {
      assert IsNew(s[y]);
      if y == x {
        assert p in ring && s[x].parents != [];
      } else {
        var q := CutOffIsHeld(s, roots, y);
        assert q in ring;
      }
    }
  }

  lemma RingOfPart(s: Store, part: set<Id>, c: seq<Id>)
    requires IsCycle(Restrict(s, part), c) && forall y :: y in s ==> IsNew(s[y])
    ensures Held(s, Elems(c)) && c[0] in Elems(c) && c[0] in part
  {
    forall x | x in Elems(c) ensures HeldAt(s, Elems(c), x) {
      var i :| 0 <= i < |c| && c[i] == x;
      var j := if i + 1 < |c| then i + 1 else 0;
      assert c[j] in Restrict(s, part)[c[i]].parents && c[j] in Elems(c);
      assert IsNew(s[x]);
    }
  }

  /** Unless something is cut off, a new graph has the invariant of a run or a held process within reach. */
  lemma NotCutOffIsHonest(s: Store, roots: seq<Id>, steps: seq<Step>)
    requires MutuallyInverse(s) && RootsAreParentless(s, roots) && (forall x :: x in s ==> IsNew(s[x]))
    requires Complete(s, roots) && !HasCutOff(s, roots)
    ensures !ShowsSuccess(World(s, roots, Waiting), steps)
  {
    var part := ReachableSet(s, roots);
    if !ParentsReachable(s, roots) {
      OutsideParentIsHonest(s, roots, steps);
    } else if !Acyclic(Restrict(s, part)) {
      CycleInReachIsHonest(s, roots, part, steps);
    } else {
      NothingOutside(s, roots, part);
      WholeIsHonest(s, roots, steps);
    }
  }

  lemma NothingOutside(s: Store, roots: seq<Id>, part: set<Id>)
    requires forall u :: u in s ==> Reachable(s, roots, u)
    requires forall u :: Reachable(s, roots, u) ==> u in part
    ensures Restrict(s, part) == s
  {
  }

  lemma OutsideParentIsHonest(s: Store, roots: seq<Id>, steps: seq<Step>)
    requires MutuallyInverse(s) && RootsAreParentless(s, roots) && (forall x :: x in s ==> IsNew(s[x]))
    requires !ParentsReachable(s, roots)
    ensures !ShowsSuccess(World(s, roots, Waiting), steps)
  {
    var x, p :| Reachable(s, roots, x) && x in s && p in s[x].parents && !Reachable(s, roots, p);
    var ring := UnreachableRing(s, roots, x, p);
    RunStaysBlocked(World(s, roots, Waiting), steps, ring, x);
  }

  lemma CycleInReachIsHonest(s: Store, roots: seq<Id>, part: set<Id>, steps: seq<Step>)
    requires (forall x :: x in s ==> IsNew(s[x])) && (forall x :: x in part ==> Reachable(s, roots, x))
    requires !Acyclic(Restrict(s, part))
    ensures !ShowsSuccess(World(s, roots, Waiting), steps)
  {
    AcyclicIffNoCycle(Restrict(s, part));
    var c :| IsCycle(Restrict(s, part), c);
    RingOfPart(s, part, c);
    RunStaysBlocked(World(s, roots, Waiting), steps, Elems(c), c[0]);
  }

  lemma WholeIsHonest(s: Store, roots: seq<Id>, steps: seq<Step>)
    requires MutuallyInverse(s) && RootsAreParentless(s, roots) && Acyclic(s) && (forall x :: x in s ==> IsNew(s[x]))
    ensures !ShowsSuccess(World(s, roots, Waiting), steps)
  {
    NewIsInOrder(s);
    RunKeepsInv(World(s, roots, Waiting), steps);
  }

  /** Some run of a submitted specification shows the graph as successful although a process has not succeeded, exactly
      when a process is cut off from the roots and the rest can be completed without it. */
  lemma ShowsSuccessIff(spec: seq<FunctionSpec>, ids: seq<Id>, s: Store, roots: seq<Id>)
    requires Fresh(spec, ids) && NamesOk(spec) && Built(spec, ids, s, roots)
    ensures Complete(s, roots)
    ensures (exists steps :: ShowsSuccess(World(s, roots, Waiting), steps)) <==> HasCutOff(s, roots)
  {
    BuiltIsComplete(spec, ids, s, roots);
    BuiltIsNew(spec, ids, s, roots);
    BuiltIsInverse(spec, ids, s, roots);
    BuiltRoots(spec, ids, s, roots);
    if HasCutOff(s, roots) {
      var steps := CutOffShowsSuccess(spec, ids, s, roots);
    } else {
      forall steps ensures !ShowsSuccess(World(s, roots, Waiting), steps) {
        NotCutOffIsHonest(s, roots, steps);
      }
    }
  }

  lemma EmptyOrInhabited(s: seq<Id>)
    ensures s == [] || exists x :: x in Elems(s)
  {
    if s != [] { assert s[0] in Elems(s); }
  }

  /** Such a specification: two processes that depend on each other. It is accepted and has no root. When one of the two
      has waited too long and is closed as failed, the graph is shown as successful. */
  lemma CyclicSpecificationLooksFinished(ids: seq<Id>, s: Store, roots: seq<Id>, x: Id)
    requires Built([FunctionSpec("a", ["b"]), FunctionSpec("b", ["a"])], ids, s, roots) && x in s
    ensures var spec := [FunctionSpec("a", ["b"]), FunctionSpec("b", ["a"])];
      NamesOk(spec) && Accepted(spec) && roots == []
    ensures var w := Apply(World(s, roots, Waiting), CloseFailed(x));
      w.graphState == Success && x in w.store && w.store[x].state == Failed
  {
    var spec := [FunctionSpec("a", ["b"]), FunctionSpec("b", ["a"])];
    assert spec[0].nodeName == "a" && spec[1].nodeName == "b";
    assert HasName(spec, "a") && HasName(spec, "b");
    assert Elems(roots) == {};
    EmptyOrInhabited(roots);
    BuiltIsNew(spec, ids, s, roots);
    RootlessShowsSuccess(s, x);
  }
}
