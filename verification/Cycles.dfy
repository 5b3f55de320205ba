/** Processes that depend on each other in a ring are never released, on any graph and in any run; hence a submitted
    specification can be completed exactly when it is acyclic. */
module Cycles {
  import opened Collections
  import opened ProcessGraph
  import opened Resolve
  import opened Workflow
  import opened Runs
  import opened Submission
  import opened SubmittedRuns

  /** A member of a ring: it has failed or is held back, and depends on another member. */
  ghost predicate HeldAt(store: Store, ring: set<Id>, x: Id) {
    && x in store
    && (store[x].state == Failed || (store[x].state == Waiting && store[x].waitForParents))
    && exists p :: p in store[x].parents && p in ring
  }

  ghost predicate Held(store: Store, ring: set<Id>) {
    forall x {:trigger HeldAt(store, ring, x)} :: x in ring ==> HeldAt(store, ring, x)
  }

  // ---------------------------------------------------------------- Resolve

  /** While one parent of the list has not succeeded, the count of successful parents stays short of the list. */
  lemma {:induction false} ScanFallsShort(roots: seq<Id>, store: Store, parents: seq<Id>, finished: nat, p: Id)
    requires p in parents && p in store && store[p].state != Success
    ensures var s := ScanParents(roots, store, parents, finished); s.Scanned? ==> s.finished < finished + |parents|
    decreases |parents|
  {
    if parents[0] !in store {
    } else if store[parents[0]].state == Failed {
      var w := Visit(store, roots);
      if w.Done? { ScanRest(roots, FailAll(store, w.order), parents, finished, p); }
    } else if parents[0] == p {
      ScanIsBounded(roots, store, parents[1..], finished);
    } else {
      ScanFallsShort(roots, store, parents[1..], finished + (if store[parents[0]].state == Success then 1 else 0), p);
    }
  }

  /** After a failed parent, which does not count, the rest of the list cannot make up for it. */
  lemma ScanRest(roots: seq<Id>, store: Store, parents: seq<Id>, finished: nat, p: Id)
    requires parents != []
    ensures var s := ScanParents(roots, store, parents[1..], finished); s.Scanned? ==> s.finished < finished + |parents|
  {
    ScanIsBounded(roots, store, parents[1..], finished);
  }

  lemma {:induction false} ScanIsBounded(roots: seq<Id>, store: Store, parents: seq<Id>, finished: nat)
    ensures var s := ScanParents(roots, store, parents, finished); s.Scanned? ==> s.finished <= finished + |parents|
    decreases |parents|
  {
    if parents == [] || parents[0] !in store {
    } else if store[parents[0]].state == Failed {
      var w := Visit(store, roots);
      if w.Done? { ScanIsBounded(roots, FailAll(store, w.order), parents[1..], finished); }
    } else {
      ScanIsBounded(roots, store, parents[1..], finished + (if store[parents[0]].state == Success then 1 else 0));
    }
  }

  /** Failing processes and leaving flags alone keeps a ring held. */
  lemma FailingKeepsHeld(a: Store, b: Store, ring: set<Id>)
    requires Held(a, ring) && OnlyFails(a, b)
    requires forall x :: x in ring && x in a ==> b[x].waitForParents == a[x].waitForParents
    ensures Held(b, ring)
  {
    forall x | x in ring ensures HeldAt(b, ring, x) {
      assert HeldAt(a, ring, x);
    }
  }

  lemma {:induction false} ScanKeepsFlags(roots: seq<Id>, store: Store, parents: seq<Id>, finished: nat)
    ensures forall x :: x in store ==>
              ScanParents(roots, store, parents, finished).store[x].waitForParents == store[x].waitForParents
    decreases |parents|
  {
    if parents == [] || parents[0] !in store {
    } else if store[parents[0]].state == Failed {
      var w := Visit(store, roots);
      if w.Done? { ScanKeepsFlags(roots, FailAll(store, w.order), parents[1..], finished); }
    } else {
      ScanKeepsFlags(roots, store, parents[1..], finished + (if store[parents[0]].state == Success then 1 else 0));
    }
  }

  lemma VisitKeepsHeld(roots: seq<Id>, store: Store, ring: set<Id>, x: Id)
    requires Held(store, ring) && x in store
    ensures Held(VisitProcess(roots, store, x).store, ring)
  {
    ScanOnlyFails(roots, store, store[x].parents, 0);
    ScanKeepsFlags(roots, store, store[x].parents, 0);
    if x in ring {
      assert HeldAt(store, ring, x);
      var p :| p in store[x].parents && p in ring;
      assert HeldAt(store, ring, p);
      ScanFallsShort(roots, store, store[x].parents, 0, p);
    }
    FailingKeepsHeld(store, VisitProcess(roots, store, x).store, ring);
  }

  lemma {:induction false} ResolveKeepsHeld(roots: seq<Id>, store: Store, work: seq<Id>, order: seq<Id>, tally: Tally,
                                            ring: set<Id>)
    requires Held(store, ring)
    ensures Held(ResolveWork(roots, store, work, order, tally).store, ring)
    decreases store.Keys - Elems(order), |work|
  {
    if work == [] || work[0] !in store {
    } else if work[0] in order {
      ResolveKeepsHeld(roots, store, work[1..], order, tally, ring);
    } else {
      VisitKeepsHeld(roots, store, ring, work[0]);
      var s := VisitProcess(roots, store, work[0]);
      if s.Scanned? {
        assert work[0] in store.Keys - Elems(order) && work[0] in Elems(order + [work[0]]);
        ResolveKeepsHeld(roots, s.store, store[work[0]].children + work[1..], order + [work[0]],
                         tally.Count(store[work[0]].state), ring);
      }
    }
  }

  lemma {:induction false} RetryKeepsHeld(roots: seq<Id>, store: Store, n: nat, ring: set<Id>)
    requires n > 0 && Held(store, ring)
    ensures Held(ResolveRetry(roots, store, n).store, ring)
    decreases n
  {
    ResolveKeepsHeld(roots, store, roots, [], NO_TALLY, ring);
    var r := ResolveAll(roots, store);
    if r.Stopped? && n > 1 { RetryKeepsHeld(roots, r.store, n - 1, ring); }
  }

  // ---------------------------------------------------------------- every step

  lemma SetKeepsHeld(store: Store, ring: set<Id>, id: Id, p: Process)
    requires Held(store, ring) && id in store && p.parents == store[id].parents
    requires id in ring ==> p.state == Failed
    ensures Held(store[id := p], ring)
  {
    forall x | x in ring ensures HeldAt(store[id := p], ring, x) { assert HeldAt(store, ring, x); }
  }

  lemma DefunctKeepsHeld(w: World, id: Id, r: Resolution, ring: set<Id>)
    requires Held(r.store, ring)
    ensures Held(AfterResolve(w, id, r).store, ring)
  {
    if r.Stopped? && id in r.store { SetKeepsHeld(r.store, ring, id, r.store[id].(state := Failed)); }
  }

  /** Rewiring replaces a parent outside the ring, so every member keeps its parent inside. */
  lemma {:induction false} RewireKeepsHeld(store: Store, ring: set<Id>, parent: Id, newId: Id, kids: seq<Id>)
    requires Held(store, ring) && parent !in ring
    ensures Held(Rewire(store, parent, newId, kids), ring)
    decreases |kids|
  {
    if kids != [] && kids[0] in store {
      var kid := store[kids[0]];
      var s := store[kids[0] := kid.(parents := Without(kid.parents, parent) + [newId])];
      forall x | x in ring ensures HeldAt(s, ring, x) {
        assert HeldAt(store, ring, x);
        var p :| p in store[x].parents && p in ring;
        assert p in s[x].parents;
      }
      RewireKeepsHeld(s, ring, parent, newId, kids[1..]);
    }
  }

  lemma AddChildKeepsHeld(store: Store, ring: set<Id>, parent: Id, newId: Id)
    requires Held(store, ring) && parent in store && store[parent].state == Running && newId !in store
    ensures Held(InsertChild(store, parent, newId), ring) && Held(AppendChild(store, parent, newId), ring)
  {
    var kids := store[parent].children;
    assert parent in ring ==> HeldAt(store, ring, parent);
    var s := store[newId := NewChild(parent).(children := kids)];
    var t := s[parent := s[parent].(children := [newId])];
    forall x | x in ring ensures HeldAt(t, ring, x) && HeldAt(AppendChild(store, parent, newId), ring, x) {
      assert HeldAt(store, ring, x);
    }
    RewireKeepsHeld(t, ring, parent, newId, kids);
  }

  lemma ChangeKeepsHeld(w: World, ring: set<Id>, id: Id, p: Process)
    requires Held(w.store, ring) && id in w.store && p.parents == w.store[id].parents
    requires id in ring ==> p.state == Failed
    ensures Held(AfterResolve(w, id, ResolveAll(w.roots, w.store[id := p])).store, ring)
    ensures Held(AfterResolve(w, id, ResolveRetry(w.roots, w.store[id := p], MAX_RETRIES)).store, ring)
  {
    var s := w.store[id := p];
    SetKeepsHeld(w.store, ring, id, p);
    ResolveKeepsHeld(w.roots, s, w.roots, [], NO_TALLY, ring);
    DefunctKeepsHeld(w, id, ResolveAll(w.roots, s), ring);
    RetryKeepsHeld(w.roots, s, MAX_RETRIES, ring);
    DefunctKeepsHeld(w, id, ResolveRetry(w.roots, s, MAX_RETRIES), ring);
  }

  lemma HandlerKeepsHeld(w: World, ring: set<Id>, id: Id, executor: string)
    requires Held(w.store, ring)
    ensures Held(Apply(w, Assign(id, executor)).store, ring) && Held(Apply(w, TimeoutUnassign(id)).store, ring)
  {
    assert id in ring ==> HeldAt(w.store, ring, id);
    if id in w.store && Candidate(w.store[id]) { ChangeKeepsHeld(w, ring, id, Assigned(w.store[id], executor)); }
    if id in w.store && w.store[id].state == Running { SetKeepsHeld(w.store, ring, id, Unassigned(w.store[id])); }
  }

  lemma CloseKeepsHeld(w: World, ring: set<Id>, id: Id)
    requires Held(w.store, ring)
    ensures Held(Apply(w, CloseSuccessful(id)).store, ring) && Held(Apply(w, CloseFailed(id)).store, ring)
  {
    assert id in ring ==> HeldAt(w.store, ring, id);
    if id in w.store && CanSucceed(w.store[id]) { ChangeKeepsHeld(w, ring, id, w.store[id].(state := Success)); }
    if id in w.store && CanFail(w.store[id]) { ChangeKeepsHeld(w, ring, id, w.store[id].(state := Failed)); }
  }

  lemma StepKeepsHeld(w: World, step: Step, ring: set<Id>)
    requires Held(w.store, ring)
    ensures Held(Apply(w, step).store, ring)
  {
    match step
    case Assign(id, executor) =>
      HandlerKeepsHeld(w, ring, id, executor);
    case TimeoutUnassign(id) =>
      HandlerKeepsHeld(w, ring, id, "");
    case CloseSuccessful(id) =>
      CloseKeepsHeld(w, ring, id);
    case CloseFailed(id) =>
      CloseKeepsHeld(w, ring, id);
    case Insert(parent, id, executor) =>
      if MayAddChild(w.store, parent, id, executor) { AddChildKeepsHeld(w.store, ring, parent, id); }
    case Append(parent, id, executor) =>
      if MayAddChild(w.store, parent, id, executor) { AddChildKeepsHeld(w.store, ring, parent, id); }
  }

  /** No run on any graph, well formed or not, ever releases or starts a member of a held ring. */
  lemma {:induction false} RunKeepsHeld(w: World, steps: seq<Step>, ring: set<Id>)
    requires Held(w.store, ring)
    ensures Held(Execute(w, steps).store, ring)
    decreases |steps|
  {
    if steps != [] {
      StepKeepsHeld(w, steps[0], ring);
      RunKeepsHeld(Apply(w, steps[0]), steps[1..], ring);
    }
  }

  // ---------------------------------------------------------------- submitted graphs

  /** A cycle of a freshly built graph is a held ring. */
  lemma CycleIsHeld(spec: seq<FunctionSpec>, ids: seq<Id>, s: Store, roots: seq<Id>, c: seq<Id>)
    requires Built(spec, ids, s, roots) && IsCycle(s, c)
    ensures Held(s, Elems(c))
  {
    forall x | x in Elems(c) ensures HeldAt(s, Elems(c), x) {
      var i :| 0 <= i < |c| && c[i] == x;
      var j := if i + 1 < |c| then i + 1 else 0;
      assert c[j] in s[c[i]].parents && c[j] in Elems(c);
      var k :| 0 <= k < |ids| && ids[k] == x;
      assert RowBuilt(spec, ids, s, k);
    }
  }

  /** A ranking of the built processes ranks the function specs. */
  lemma BuiltAcyclicIff(spec: seq<FunctionSpec>, ids: seq<Id>, s: Store, roots: seq<Id>)
    requires Fresh(spec, ids) && NamesOk(spec) && Built(spec, ids, s, roots)
    ensures Acyclic(s) <==> SpecAcyclic(spec)
  {
    if SpecAcyclic(spec) { BuiltIsAcyclic(spec, ids, s, roots); }
    if Acyclic(s) {
      var rank :| Ranks(s, rank);
      forall i | 0 <= i < |spec| ensures ids[i] in rank { assert RowBuilt(spec, ids, s, i); }
      ByNameRanks(spec, ids, s, roots, rank);
    }
  }

  lemma ByNameRanks(spec: seq<FunctionSpec>, ids: seq<Id>, s: Store, roots: seq<Id>, rank: map<Id, nat>)
    requires Fresh(spec, ids) && NamesOk(spec) && Built(spec, ids, s, roots) && Ranks(s, rank)
    requires forall i :: 0 <= i < |spec| ==> ids[i] in rank
    ensures SpecRanks(spec, ByName(spec, ids, rank))
  {
    var byName := ByName(spec, ids, rank);
    forall i, d | 0 <= i < |spec| && d in spec[i].dependencies && d in byName
      ensures spec[i].nodeName in byName && byName[d] < byName[spec[i].nodeName]
    {
      NameRankFalls(spec, ids, s, roots, rank, i, d);
    }
    forall i | 0 <= i < |spec| ensures spec[i].nodeName in byName { assert HasName(spec, spec[i].nodeName); }
  }

  ghost function ByName(spec: seq<FunctionSpec>, ids: seq<Id>, rank: map<Id, nat>): (r: map<string, nat>)
    requires |ids| == |spec| && forall i :: 0 <= i < |spec| ==> ids[i] in rank
    ensures forall n :: n in r <==> HasName(spec, n)
    ensures forall n :: n in r ==> r[n] == rank[ids[Index(spec, n)]]
  {
    map n | n in (set i | 0 <= i < |spec| :: spec[i].nodeName) :: rank[ids[Index(spec, n)]]
  }

  lemma NameRankFalls(spec: seq<FunctionSpec>, ids: seq<Id>, s: Store, roots: seq<Id>, rank: map<Id, nat>, i: nat,
                      d: string)
    requires Fresh(spec, ids) && NamesOk(spec) && Built(spec, ids, s, roots) && Ranks(s, rank)
    requires i < |spec| && d in spec[i].dependencies && HasName(spec, d)
    requires forall i :: 0 <= i < |spec| ==> ids[i] in rank
    ensures HasName(spec, spec[i].nodeName)
    ensures ByName(spec, ids, rank)[d] < ByName(spec, ids, rank)[spec[i].nodeName]
  {
    var j := Index(spec, d);
    ParentIffDependency(spec, ids, s, roots, i, j);
    assert RowBuilt(spec, ids, s, j);
    assert HasName(spec, spec[i].nodeName) && Index(spec, spec[i].nodeName) == i;
  }

  ghost function Index(spec: seq<FunctionSpec>, n: string): (i: nat)
    requires HasName(spec, n)
    ensures i < |spec| && spec[i].nodeName == n
  {
    var i :| 0 <= i < |spec| && spec[i].nodeName == n;
    i
  }

  /** In every run of a submitted cyclic specification some process is never released and never starts. */
  lemma CyclicIsNeverCompleted(spec: seq<FunctionSpec>, ids: seq<Id>, s: Store, roots: seq<Id>, steps: seq<Step>)
    returns (ring: set<Id>)
    requires Fresh(spec, ids) && NamesOk(spec) && Built(spec, ids, s, roots) && !SpecAcyclic(spec)
    ensures ring != {} && ring <= Elems(ids)
    ensures Held(Execute(World(s, roots, Waiting), steps).store, ring)
    ensures !AllSuccess(Execute(World(s, roots, Waiting), steps).store)
  {
    BuiltAcyclicIff(spec, ids, s, roots);
    AcyclicIffNoCycle(s);
    var c :| IsCycle(s, c);
    ring := Elems(c);
    assert c[0] in ring;
    CycleIsHeld(spec, ids, s, roots, c);
    var w := World(s, roots, Waiting);
    RunKeepsHeld(w, steps, ring);
    assert HeldAt(Execute(w, steps).store, ring, c[0]);
  }

  ghost predicate Completable(w: World) {
    exists steps :: AllSuccess(Execute(w, steps).store)
  }

  /** A submitted specification can be completed exactly when it is acyclic. */
  lemma CompletableIffAcyclic(spec: seq<FunctionSpec>, ids: seq<Id>, s: Store, roots: seq<Id>)
    requires Fresh(spec, ids) && NamesOk(spec) && Built(spec, ids, s, roots)
    ensures Completable(World(s, roots, Waiting)) <==> SpecAcyclic(spec)
  {
    var w := World(s, roots, Waiting);
    if SpecAcyclic(spec) {
      SubmittedSatisfiesInv(spec, ids, s, roots);
      BuiltIsNew(spec, ids, s, roots);
      var steps := CanFinish(w);
      assert AllSuccess(Execute(w, steps).store);
    } else {
      forall steps ensures !AllSuccess(Execute(w, steps).store) {
        var _ := CyclicIsNeverCompleted(spec, ids, s, roots, steps);
      }
    }
  }
}
