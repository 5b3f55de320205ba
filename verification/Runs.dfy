/** The steps of a workflow run and the properties of every run
    (pkg/server/colonies_controller.go, pkg/server/colonies_controller_worker.go,
    pkg/database/postgresql/processes.go). */
module Runs {
  import opened Collections
  import opened ProcessGraph
  import opened Resolve
  import opened Workflow

  /** One process graph: its processes, its root ids and its stored state. */
  datatype World = World(store: Store, roots: seq<Id>, graphState: State)

  // ---------------------------------------------------------------- database transitions

  /** What the two candidate lookups select. */
  predicate Candidate(p: Process) {
    p.state == Waiting && !p.isAssigned && !p.waitForParents
  }

  predicate CanSucceed(p: Process) {
    p.state != Failed && p.state != Waiting
  }

  predicate CanFail(p: Process) {
    p.state != Success && p.state != Failed
  }

  function Assigned(p: Process, executor: string): Process {
    p.(state := Running, isAssigned := true, executor := executor)
  }

  function Unassigned(p: Process): Process {
    p.(state := Waiting, isAssigned := false, executor := "")
  }

  // ---------------------------------------------------------------- controller steps

  const MAX_RETRIES: nat := 10

  /** `Resolve`, tried up to `n` times. A crash is not retried: it takes the server down. */
  function ResolveRetry(roots: seq<Id>, store: Store, n: nat): Resolution
    requires n > 0
    decreases n
  {
    var r := ResolveAll(roots, store);
    if r.Stopped? && n > 1 then ResolveRetry(roots, r.store, n - 1) else r
  }

  /** Success and a crash end the attempts at once. */
  lemma OnlyErrorsAreRetried(roots: seq<Id>, store: Store, n: nat)
    requires n > 0 && !ResolveAll(roots, store).Stopped?
    ensures ResolveRetry(roots, store, n) == ResolveAll(roots, store)
  {
  }

  /** `handleDefunctProcessgraph`: fail the process, then the graph. */
  function Defunct(w: World, id: Id): World {
    if id in w.store && CanFail(w.store[id])
    then w.(store := w.store[id := w.store[id].(state := Failed)], graphState := Failed)
    else w
  }

  /** What a handler makes of the outcome; after a crash the database is left as it is. */
  function AfterResolve(w: World, id: Id, r: Resolution): World {
    match r
    case Resolved(store, tally) => w.(store := store, graphState := tally.GraphState())
    case Stopped(store, _) => Defunct(w.(store := store), id)
    case Crashed(store, _) => w.(store := store)
  }

  datatype Step =
    | Assign(id: Id, executor: string)
    | TimeoutUnassign(id: Id)
    | CloseSuccessful(id: Id)
    | CloseFailed(id: Id)
    | Insert(parent: Id, id: Id, executor: string)
    | Append(parent: Id, id: Id, executor: string)

  /** The checks that `addChild` makes before it writes; a duplicate id is refused by the database. */
  predicate MayAddChild(store: Store, parent: Id, id: Id, executor: string) {
    parent in store && store[parent].state == Running && store[parent].executor == executor && id !in store
  }

  /** One handler, as an atomic step. A refused step changes nothing. */
  function Apply(w: World, step: Step): World {
    match step
    case Assign(id, executor) =>
      if id in w.store && Candidate(w.store[id]) then
        AfterResolve(w, id, ResolveRetry(w.roots, w.store[id := Assigned(w.store[id], executor)], MAX_RETRIES))
      else w
    case TimeoutUnassign(id) =>
      if id in w.store && w.store[id].state == Running then w.(store := w.store[id := Unassigned(w.store[id])]) else w
    case CloseSuccessful(id) =>
      if id in w.store && CanSucceed(w.store[id]) then
        AfterResolve(w, id, ResolveAll(w.roots, w.store[id := w.store[id].(state := Success)]))
      else w
    case CloseFailed(id) =>
      if id in w.store && CanFail(w.store[id]) then
        AfterResolve(w, id, ResolveAll(w.roots, w.store[id := w.store[id].(state := Failed)]))
      else w
    case Insert(parent, id, executor) =>
      if MayAddChild(w.store, parent, id, executor) then w.(store := InsertChild(w.store, parent, id)) else w
    case Append(parent, id, executor) =>
      if MayAddChild(w.store, parent, id, executor) then w.(store := AppendChild(w.store, parent, id)) else w
  }

  function Execute(w: World, steps: seq<Step>): World
    decreases |steps|
  {
    if steps == [] then w else Execute(Apply(w, steps[0]), steps[1..])
  }

  // ---------------------------------------------------------------- the invariant of a run

  /** A process that has started, or could be handed out, has only successful parents. */
  ghost predicate NothingEarlyAt(store: Store, x: Id) {
    && x in store
    && (store[x].state == Running || store[x].state == Success ==> Ready(store, x))
    && (store[x].state == Waiting && !store[x].waitForParents ==> Ready(store, x))
    && (store[x].state == Waiting ==> !store[x].isAssigned)
    && (store[x].state == Running ==> !store[x].waitForParents)
  }

  /** A waiting process whose parents all succeeded has been released. */
  ghost predicate ReleasedAt(store: Store, x: Id) {
    x in store && (store[x].state == Waiting && Ready(store, x) ==> !store[x].waitForParents)
  }

  /** What holds of the processes before `Resolve` has caught up: nothing started or was released early. */
  ghost predicate NothingEarly(store: Store) {
    forall x {:trigger NothingEarlyAt(store, x)} :: x in store ==> NothingEarlyAt(store, x)
  }

  ghost predicate ReleasedInTime(store: Store) {
    forall x {:trigger ReleasedAt(store, x)} :: x in store ==> ReleasedAt(store, x)
  }

  ghost predicate SomeFailed(store: Store) {
    exists x :: x in store && store[x].state == Failed
  }

  ghost predicate AllSuccess(store: Store) {
    forall x :: x in store ==> store[x].state == Success
  }

  /** A failed parent has failed everything. */
  ghost predicate FailuresSpread(store: Store) {
    (exists x :: x in store && HasFailedParent(store, x)) ==> forall x :: x in store ==> store[x].state == Failed
  }

  ghost predicate Inv(w: World) {
    && WellFormed(w.store, w.roots)
    && FailuresSpread(w.store)
    && NothingEarly(w.store)
    && ReleasedInTime(w.store)
    && (w.graphState == Failed ==> SomeFailed(w.store))
    && (w.graphState == Success ==> AllSuccess(w.store))
  }

  lemma WellFormedWalk(store: Store, roots: seq<Id>) returns (total: seq<Id>)
    requires WellFormed(store, roots)
    ensures Visit(store, roots) == Done(total) && Elems(total) == store.Keys
  {
    WellFormedReachesAll(store, roots);
    total := CompleteWalk(store, roots);
  }

  /** `Resolve` on a well-formed graph, without reference to reachability. */
  lemma ResolveWellFormed(store: Store, roots: seq<Id>)
    requires WellFormed(store, roots)
    ensures var r := ResolveAll(roots, store);
      && r.Resolved? && SameShape(store, r.store)
      && ((exists x :: x in store && HasFailedParent(store, x)) ==>
            forall x :: x in store ==> r.store[x].state == Failed)
      && ((forall x :: x in store ==> !HasFailedParent(store, x)) ==>
            forall x :: x in store ==>
              r.store[x] == if Ready(store, x) then store[x].(waitForParents := false) else store[x])
      && r.tally.GraphState() == StateOfGraph(r.store, r.store.Keys)
  {
    var total := WellFormedWalk(store, roots);
    assert forall x :: x in store <==> x in total by { assert forall x :: x in Elems(total) <==> x in total; }
    ResolveOutcome(roots, store, total);
    ResolveGraphStateOutcome(roots, store, total);
  }

  lemma StateOfGraphIsSound(store: Store)
    ensures StateOfGraph(store, store.Keys) == Failed <==> SomeFailed(store)
    ensures StateOfGraph(store, store.Keys) == Success <==> AllSuccess(store)
    ensures StateOfGraph(store, store.Keys) == Waiting
            <==> !AllSuccess(store) && forall x :: x in store ==> store[x].state == Waiting
  {
    if SomeFailed(store) {
      var x :| x in store && store[x].state == Failed;
      assert x in store.Keys;
    }
  }

  lemma ReleaseRestores(store: Store, r: Store)
    requires NothingEarly(store) && r.Keys == store.Keys
    requires forall x :: x in store ==>
               r[x] == if Ready(store, x) then store[x].(waitForParents := false) else store[x]
    ensures NothingEarly(r) && ReleasedInTime(r)
  {
    forall x | x in r ensures NothingEarlyAt(r, x) && ReleasedAt(r, x) {
      assert NothingEarlyAt(store, x);
      assert forall p :: p in store[x].parents && p in store ==> r[p].state == store[p].state;
      assert Ready(store, x) <==> Ready(r, x);
    }
  }

  lemma AllFailedRestores(r: Store)
    requires forall x :: x in r ==> r[x].state == Failed
    ensures NothingEarly(r) && ReleasedInTime(r)
  {
  }

  /** Where nothing has a failed parent and nothing fails, nothing gets a failed parent. */
  lemma CalmStaysCalm(store: Store, r: Store)
    requires forall x :: x in store ==> !HasFailedParent(store, x)
    requires forall x :: x in r ==> x in store && r[x].parents == store[x].parents
    requires forall x :: x in r && r[x].state == Failed ==> store[x].state == Failed
    ensures forall x :: x in r ==> !HasFailedParent(r, x)
  {
    forall x | x in r ensures !HasFailedParent(r, x) {
      assert !HasFailedParent(store, x);
    }
  }

  lemma ResolveKeepsOrder(store: Store, roots: seq<Id>)
    requires WellFormed(store, roots) && NothingEarly(store)
    ensures var r := ResolveAll(roots, store).store;
      WellFormed(r, roots) && NothingEarly(r) && ReleasedInTime(r) && FailuresSpread(r)
  {
    ResolveWellFormed(store, roots);
    var r := ResolveAll(roots, store).store;
    WellFormedSameShape(store, r, roots);
    if forall x :: x in store ==> !HasFailedParent(store, x) {
      ReleaseRestores(store, r);
      CalmStaysCalm(store, r);
    } else {
      AllFailedRestores(r);
    }
  }

  /** From a state where nothing happened early, `Resolve` restores the whole invariant. */
  lemma ResolveRestores(w: World, id: Id, store: Store)
    requires WellFormed(store, w.roots) && NothingEarly(store)
    ensures ResolveRetry(w.roots, store, MAX_RETRIES) == ResolveAll(w.roots, store)
    ensures Inv(AfterResolve(w, id, ResolveAll(w.roots, store)))
  {
    ResolveWellFormed(store, w.roots);
    ResolveKeepsOrder(store, w.roots);
    StateOfGraphIsSound(ResolveAll(w.roots, store).store);
  }

  lemma SetStateShape(store: Store, roots: seq<Id>, id: Id, p: Process)
    requires WellFormed(store, roots) && id in store
    requires p.parents == store[id].parents && p.children == store[id].children
    ensures WellFormed(store[id := p], roots)
  {
    var rank :| Ranks(store, rank);
    var s := store[id := p];
    assert Ranks(s, rank);
    forall x, y | x in s && y in s[x].children ensures y in s && x in s[y].parents {
      assert y in store[x].children;
    }
    forall x, y | y in s && x in s[y].parents ensures x in s && y in s[x].children {
      assert x in store[y].parents;
    }
  }

  /** Changing the state of a process that had not succeeded disturbs none of its dependants. */
  lemma SetStateNothingEarly(w: World, id: Id, p: Process)
    requires Inv(w) && id in w.store
    requires p.parents == w.store[id].parents && p.children == w.store[id].children
    requires w.store[id].state == Success ==> p.state == Success
    requires p.state == Running || p.state == Success ==> Ready(w.store, id)
    requires p.state == Waiting ==> !p.isAssigned && Ready(w.store, id)
    requires p.state == Running ==> !p.waitForParents
    ensures NothingEarly(w.store[id := p])
  {
    var s := w.store[id := p];
    forall x | x in s ensures NothingEarlyAt(s, x) {
      assert NothingEarlyAt(w.store, x);
      if Ready(w.store, x) { StaysReady(w.store, id, p, x); }
    }
  }

  lemma StaysReady(store: Store, id: Id, p: Process, x: Id)
    requires id in store && x in store && Ready(store, x)
    requires p.parents == store[id].parents && (store[id].state == Success ==> p.state == Success)
    ensures Ready(store[id := p], x)
  {
    var s := store[id := p];
    forall q | q in s[x].parents ensures q in s && s[q].state == Success {
      assert q in store[x].parents;
    }
  }

  // ---------------------------------------------------------------- every step keeps the invariant

  lemma SetAndResolve(w: World, id: Id, p: Process)
    requires Inv(w) && id in w.store
    requires p.parents == w.store[id].parents && p.children == w.store[id].children
    requires w.store[id].state == Success ==> p.state == Success
    requires p.state == Running || p.state == Success ==> Ready(w.store, id)
    requires p.state == Running ==> !p.waitForParents
    requires p.state != Waiting
    ensures ResolveRetry(w.roots, w.store[id := p], MAX_RETRIES) == ResolveAll(w.roots, w.store[id := p])
    ensures Inv(AfterResolve(w, id, ResolveAll(w.roots, w.store[id := p])))
  {
    SetStateShape(w.store, w.roots, id, p);
    SetStateNothingEarly(w, id, p);
    ResolveRestores(w, id, w.store[id := p]);
  }

  lemma UnassignKeepsInv(w: World, id: Id)
    requires Inv(w)
    ensures Inv(Apply(w, TimeoutUnassign(id)))
  {
    if id in w.store && w.store[id].state == Running {
      var p := Unassigned(w.store[id]);
      assert NothingEarlyAt(w.store, id);
      SetStateShape(w.store, w.roots, id, p);
      SetStateNothingEarly(w, id, p);
      UnassignReleased(w, id);
      CalmStaysCalm(w.store, w.store[id := p]);
      GraphStateKept(w, id, p);
    }
  }

  lemma UnassignReleased(w: World, id: Id)
    requires Inv(w) && id in w.store && w.store[id].state == Running
    ensures ReleasedInTime(w.store[id := Unassigned(w.store[id])])
  {
    var s := w.store[id := Unassigned(w.store[id])];
    forall x | x in s ensures ReleasedAt(s, x) {
      assert NothingEarlyAt(w.store, id) && ReleasedAt(w.store, x);
      if x != id && Ready(s, x) {
        forall q | q in w.store[x].parents ensures q in w.store && w.store[q].state == Success {
          assert q in s[x].parents;
        }
      }
    }
  }

  lemma GraphStateKept(w: World, id: Id, p: Process)
    requires Inv(w) && id in w.store && w.store[id].state == Running
    ensures w.graphState == Failed ==> SomeFailed(w.store[id := p])
    ensures w.graphState == Success ==> AllSuccess(w.store[id := p])
  {
    if w.graphState == Failed {
      var f :| f in w.store && w.store[f].state == Failed;
      assert f in w.store[id := p] && w.store[id := p][f].state == Failed;
    }
  }

  lemma AppendReadiness(w: World, parent: Id, id: Id, x: Id)
    requires Inv(w) && parent in w.store && w.store[parent].state == Running && id !in w.store
    requires x in w.store
    ensures Ready(AppendChild(w.store, parent, id), x) <==> Ready(w.store, x)
  {
    var s := AppendChild(w.store, parent, id);
    assert s[x].parents == w.store[x].parents;
    assert forall q :: q in w.store ==> s[q].state == w.store[q].state;
    assert forall q :: q in w.store[x].parents ==> q in w.store;
  }

  lemma AppendOrder(w: World, parent: Id, id: Id)
    requires Inv(w) && parent in w.store && w.store[parent].state == Running && id !in w.store
    ensures NothingEarly(AppendChild(w.store, parent, id)) && ReleasedInTime(AppendChild(w.store, parent, id))
  {
    var s := AppendChild(w.store, parent, id);
    forall x | x in s ensures NothingEarlyAt(s, x) && ReleasedAt(s, x) {
      if x == id {
        assert parent in s[id].parents;
      } else {
        assert NothingEarlyAt(w.store, x) && ReleasedAt(w.store, x);
        AppendReadiness(w, parent, id, x);
      }
    }
  }

  /** A waiting process added while another is running gives nobody a failed parent. */
  lemma GrowthStaysCalm(w: World, s: Store, id: Id)
    requires Inv(w) && exists x :: x in w.store && w.store[x].state == Running
    requires id in s && id !in w.store && s[id].state == Waiting && s.Keys == w.store.Keys + {id}
    requires forall x :: x in w.store ==> s[x].state == w.store[x].state
    requires forall x, p :: x in w.store && p in s[x].parents ==> p in w.store[x].parents || p == id
    requires forall p :: p in s[id].parents ==> p in w.store && w.store[p].state == Running
    ensures FailuresSpread(s)
  {
    assert !HasFailedParent(s, id);
    forall x | x in w.store ensures !HasFailedParent(s, x) {
      assert !HasFailedParent(w.store, x);
    }
  }

  lemma AppendKeepsInv(w: World, parent: Id, id: Id)
    requires Inv(w) && parent in w.store && w.store[parent].state == Running && id !in w.store
    ensures Inv(w.(store := AppendChild(w.store, parent, id)))
  {
    AppendKeepsWellFormed(w.store, w.roots, parent, id);
    AppendOrder(w, parent, id);
    GrowthStaysCalm(w, AppendChild(w.store, parent, id), id);
    GraphStateAfterGrowth(w, AppendChild(w.store, parent, id));
  }

  /** The graph state of a world with a running process stays truthful when processes are added. */
  lemma GraphStateAfterGrowth(w: World, s: Store)
    requires Inv(w) && (forall x :: x in w.store ==> x in s && s[x].state == w.store[x].state)
    requires exists x :: x in w.store && w.store[x].state == Running
    ensures w.graphState == Failed ==> SomeFailed(s)
    ensures w.graphState == Success ==> AllSuccess(s)
  {
    if w.graphState == Failed {
      var f :| f in w.store && w.store[f].state == Failed;
      assert s[f].state == Failed;
    }
  }

  lemma InsertReadiness(w: World, parent: Id, id: Id, x: Id)
    requires Inv(w) && parent in w.store && w.store[parent].state == Running && id !in w.store
    requires x in w.store
    ensures x in InsertChild(w.store, parent, id)
    ensures var p, q := InsertChild(w.store, parent, id)[x], w.store[x];
      p.state == q.state && p.isAssigned == q.isAssigned && p.waitForParents == q.waitForParents
    ensures Ready(InsertChild(w.store, parent, id), x) <==> Ready(w.store, x)
  {
    InsertEffect(w.store, w.roots, parent, id);
    var s := InsertChild(w.store, parent, id);
    if x in w.store[parent].children {
      assert parent in w.store[x].parents && !Ready(w.store, x);
      NotOwnChild(w.store, w.roots, parent);
      assert id in s[x].parents && s[id].state == Waiting && !Ready(s, x);
    } else {
      assert s[x].parents == w.store[x].parents;
      assert forall q :: q in w.store ==> s[q].state == w.store[q].state;
      assert forall q :: q in w.store[x].parents ==> q in w.store;
    }
  }

  lemma InsertOrder(w: World, parent: Id, id: Id)
    requires Inv(w) && parent in w.store && w.store[parent].state == Running && id !in w.store
    ensures NothingEarly(InsertChild(w.store, parent, id)) && ReleasedInTime(InsertChild(w.store, parent, id))
    ensures forall x :: x in w.store ==>
              x in InsertChild(w.store, parent, id) && InsertChild(w.store, parent, id)[x].state == w.store[x].state
  {
    InsertEffect(w.store, w.roots, parent, id);
    var s := InsertChild(w.store, parent, id);
    forall x | x in s ensures NothingEarlyAt(s, x) && ReleasedAt(s, x) {
      if x == id {
        assert parent in s[id].parents && s[parent].state == Running;
      } else {
        assert NothingEarlyAt(w.store, x) && ReleasedAt(w.store, x);
        InsertReadiness(w, parent, id, x);
      }
    }
  }

  lemma InsertKeepsInv(w: World, parent: Id, id: Id)
    requires Inv(w) && parent in w.store && w.store[parent].state == Running && id !in w.store
    ensures Inv(w.(store := InsertChild(w.store, parent, id)))
  {
    InsertKeepsWellFormed(w.store, w.roots, parent, id);
    InsertOrder(w, parent, id);
    InsertEffect(w.store, w.roots, parent, id);
    GrowthStaysCalm(w, InsertChild(w.store, parent, id), id);
    GraphStateAfterGrowth(w, InsertChild(w.store, parent, id));
  }

  lemma AssignKeepsInv(w: World, id: Id, executor: string)
    requires Inv(w)
    ensures Inv(Apply(w, Assign(id, executor)))
  {
    if id in w.store && Candidate(w.store[id]) {
      assert NothingEarlyAt(w.store, id);
      SetAndResolve(w, id, Assigned(w.store[id], executor));
    }
  }

  lemma CloseKeepsInv(w: World, id: Id)
    requires Inv(w)
    ensures Inv(Apply(w, CloseSuccessful(id))) && Inv(Apply(w, CloseFailed(id)))
  {
    if id in w.store && CanSucceed(w.store[id]) {
      assert NothingEarlyAt(w.store, id);
      SetAndResolve(w, id, w.store[id].(state := Success));
    }
    if id in w.store && CanFail(w.store[id]) { SetAndResolve(w, id, w.store[id].(state := Failed)); }
  }

  lemma AddChildKeepsInv(w: World, parent: Id, id: Id, executor: string)
    requires Inv(w)
    ensures Inv(Apply(w, Insert(parent, id, executor))) && Inv(Apply(w, Append(parent, id, executor)))
  {
    if MayAddChild(w.store, parent, id, executor) {
      InsertKeepsInv(w, parent, id);
      AppendKeepsInv(w, parent, id);
    }
  }

  /** Every step of a run keeps the invariant. */
  lemma StepKeepsInv(w: World, step: Step)
    requires Inv(w)
    ensures Inv(Apply(w, step))
  {
    match step
    case Assign(id, executor) =>
      AssignKeepsInv(w, id, executor);
    case TimeoutUnassign(id) =>
      UnassignKeepsInv(w, id);
    case CloseSuccessful(id) =>
      CloseKeepsInv(w, id);
    case CloseFailed(id) =>
      CloseKeepsInv(w, id);
    case Insert(parent, id, executor) =>
      AddChildKeepsInv(w, parent, id, executor);
    case Append(parent, id, executor) =>
      AddChildKeepsInv(w, parent, id, executor);
  }

  lemma {:induction false} RunKeepsInv(w: World, steps: seq<Step>)
    requires Inv(w)
    ensures Inv(Execute(w, steps))
    decreases |steps|
  {
    if steps != [] {
      StepKeepsInv(w, steps[0]);
      RunKeepsInv(Apply(w, steps[0]), steps[1..]);
    }
  }

  // ---------------------------------------------------------------- a graph that cannot be resolved

  lemma {:induction false} RetryOnlyFails(roots: seq<Id>, store: Store, n: nat)
    requires n > 0
    ensures OnlyFails(store, ResolveRetry(roots, store, n).store)
    decreases n
  {
    ResolveOnlyFails(roots, store, roots, [], NO_TALLY);
    var r := ResolveAll(roots, store);
    if r.Stopped? && n > 1 { RetryOnlyFails(roots, r.store, n - 1); }
  }

  /** When `Resolve` keeps returning errors, the process that was being assigned ends up failed. The graph is marked as
      failed exactly when the interrupted walk had not failed that process already. */
  lemma DefunctAssignment(w: World, id: Id, executor: string)
    requires id in w.store && Candidate(w.store[id])
    requires ResolveRetry(w.roots, w.store[id := Assigned(w.store[id], executor)], MAX_RETRIES).Stopped?
    ensures var r := ResolveRetry(w.roots, w.store[id := Assigned(w.store[id], executor)], MAX_RETRIES);
      var after := Apply(w, Assign(id, executor));
      && id in r.store && id in after.store && after.store[id].state == Failed
      && after.graphState == if r.store[id].state == Failed then w.graphState else Failed
  {
    RetryOnlyFails(w.roots, w.store[id := Assigned(w.store[id], executor)], MAX_RETRIES);
  }

  /** When `Resolve` crashes, nobody cleans up: the graph keeps its state and the process stays assigned to its
      executor, running unless a failure had already spread to it. */
  lemma CrashedAssignment(w: World, id: Id, executor: string)
    requires id in w.store && Candidate(w.store[id])
    requires ResolveRetry(w.roots, w.store[id := Assigned(w.store[id], executor)], MAX_RETRIES).Crashed?
    ensures var after := Apply(w, Assign(id, executor));
      && after.graphState == w.graphState
      && id in after.store && after.store[id].isAssigned && after.store[id].executor == executor
      && after.store[id].state in {Running, Failed}
      && (after.store[id].state == Failed ==> SomeFailed(w.store))
  {
    var s := w.store[id := Assigned(w.store[id], executor)];
    RetryOnlyFails(w.roots, s, MAX_RETRIES);
    if !SomeFailed(w.store) {
      assert forall x :: x in s ==> s[x].state != Failed;
      RetryWithoutFailures(w.roots, s, MAX_RETRIES);
    }
  }

  ghost predicate NoneFailed(store: Store) {
    forall x :: x in store ==> store[x].state != Failed
  }

  lemma {:induction false} ScanWithoutFailures(roots: seq<Id>, store: Store, parents: seq<Id>, finished: nat)
    requires NoneFailed(store)
    ensures ScanParents(roots, store, parents, finished).store == store
    decreases |parents|
  {
    if parents != [] && parents[0] in store {
      ScanWithoutFailures(roots, store, parents[1..], finished + (if store[parents[0]].state == Success then 1 else 0));
    }
  }

  lemma {:induction false} WorkWithoutFailures(roots: seq<Id>, store: Store, work: seq<Id>, order: seq<Id>,
                                               tally: Tally)
    requires NoneFailed(store)
    ensures NoneFailed(ResolveWork(roots, store, work, order, tally).store)
    decreases store.Keys - Elems(order), |work|
  {
    if work == [] || work[0] !in store {
    } else if work[0] in order {
      WorkWithoutFailures(roots, store, work[1..], order, tally);
    } else {
      ScanWithoutFailures(roots, store, store[work[0]].parents, 0);
      var s := VisitProcess(roots, store, work[0]);
      if s.Scanned? {
        assert work[0] in store.Keys - Elems(order) && work[0] in Elems(order + [work[0]]);
        WorkWithoutFailures(roots, s.store, store[work[0]].children + work[1..], order + [work[0]],
                            tally.Count(store[work[0]].state));
      }
    }
  }

  lemma {:induction false} RetryWithoutFailures(roots: seq<Id>, store: Store, n: nat)
    requires n > 0 && NoneFailed(store)
    ensures NoneFailed(ResolveRetry(roots, store, n).store)
    decreases n
  {
    WorkWithoutFailures(roots, store, roots, [], NO_TALLY);
    var r := ResolveAll(roots, store);
    if r.Stopped? && n > 1 { RetryWithoutFailures(roots, r.store, n - 1); }
  }

  // ---------------------------------------------------------------- the database's own unassign

  /** What makes it safe to put a process back to waiting: its own parents are done if it has been released, and if it
      had succeeded no dependant has started or been released. */
  ghost predicate UnassignSafe(store: Store, id: Id)
    requires id in store
  {
    && (!store[id].waitForParents ==> Ready(store, id))
    && (store[id].state == Success ==>
          forall x :: x in store && id in store[x].parents ==>
            store[x].state == Failed || (store[x].state == Waiting && store[x].waitForParents))
  }

  lemma UnassignedDependant(w: World, id: Id, x: Id)
    requires Inv(w) && id in w.store && x in w.store
    ensures var s := w.store[id := Unassigned(w.store[id])];
      Ready(s, x) <==> Ready(w.store, x) && id !in w.store[x].parents
  {
    var s := w.store[id := Unassigned(w.store[id])];
    assert s[x].parents == w.store[x].parents;
    if id !in w.store[x].parents {
      assert forall q :: q in w.store[x].parents ==> q in w.store && s[q].state == w.store[q].state;
    }
    if Ready(s, x) {
      assert forall q :: q in w.store[x].parents ==> q != id && w.store[q].state == Success;
    }
  }

  lemma NotOwnParent(store: Store, roots: seq<Id>, x: Id)
    requires WellFormed(store, roots) && x in store
    ensures x !in store[x].parents
  {
    var rank :| Ranks(store, rank);
  }

  /** The database checks nothing when it unassigns. The dependency order survives exactly when the process is safe to
      put back; a running process always is. */
  lemma UnassignKeepsOrderIff(w: World, id: Id)
    requires Inv(w) && id in w.store
    ensures NothingEarly(w.store[id := Unassigned(w.store[id])]) <==> UnassignSafe(w.store, id)
    ensures w.store[id].state == Running ==> UnassignSafe(w.store, id)
  {
    var s := w.store[id := Unassigned(w.store[id])];
    NotOwnParent(w.store, w.roots, id);
    UnassignedDependant(w, id, id);
    assert NothingEarlyAt(w.store, id);
    if UnassignSafe(w.store, id) {
      forall x | x in s ensures NothingEarlyAt(s, x) {
        assert NothingEarlyAt(w.store, x);
        UnassignedDependant(w, id, x);
      }
    }
    if NothingEarly(s) {
      assert NothingEarlyAt(s, id);
      forall x | x in w.store && id in w.store[x].parents && w.store[id].state == Success
        ensures w.store[x].state == Failed || (w.store[x].state == Waiting && w.store[x].waitForParents)
      {
        UnassignedDependant(w, id, x);
        assert NothingEarlyAt(s, x);
      }
    }
  }

  /** Such a call: the first of two processes has succeeded and the second is running when the first is put back. */
  lemma UnassignAfterSuccess()
    ensures var a, b := Process(Success, true, "e", false, [], ["b"]), Process(Running, true, "e", false, ["a"], []);
      var w := World(map["a" := a, "b" := b], ["a"], Running);
      Inv(w) && !NothingEarly(w.store["a" := Unassigned(w.store["a"])])
  {
    var a, b := Process(Success, true, "e", false, [], ["b"]), Process(Running, true, "e", false, ["a"], []);
    var w := World(map["a" := a, "b" := b], ["a"], Running);
    assert Ranks(w.store, map["a" := 0, "b" := 1]);
    assert NothingEarlyAt(w.store, "a") && NothingEarlyAt(w.store, "b");
    assert w.store["b"].parents == ["a"] && "a" in w.store["b"].parents;
    UnassignKeepsOrderIff(w, "a");
  }

  // ---------------------------------------------------------------- the main results about runs

  predicate StartedOrReleased(p: Process) {
    p.state == Running || p.state == Success || Candidate(p)
  }

  /** Dependency order over whole runs: in every reached state, a process that is running, has succeeded or can be
      handed out has only successful parents, and the graph is still acyclic with mutually inverse links. */
  lemma DependencySafety(w: World, steps: seq<Step>, x: Id, p: Id)
    requires Inv(w)
    requires x in Execute(w, steps).store && p in Execute(w, steps).store[x].parents
    requires StartedOrReleased(Execute(w, steps).store[x])
    ensures p in Execute(w, steps).store && Execute(w, steps).store[p].state == Success
    ensures WellFormed(Execute(w, steps).store, w.roots)
  {
    RunKeepsInv(w, steps);
    RootsAreFixed(w, steps);
    assert NothingEarlyAt(Execute(w, steps).store, x);
    assert Ready(Execute(w, steps).store, x);
  }

  lemma {:induction false} RootsAreFixed(w: World, steps: seq<Step>)
    ensures Execute(w, steps).roots == w.roots
    decreases |steps|
  {
    if steps != [] { RootsAreFixed(Apply(w, steps[0]), steps[1..]); }
  }

  /** The least-ranked process of a nonempty set has no parent in the set. */
  lemma {:induction false} LeastRanked(store: Store, rank: map<Id, nat>, s: set<Id>) returns (m: Id)
    requires Ranks(store, rank) && s != {} && s <= store.Keys
    ensures m in s && forall y :: y in s ==> rank[m] <= rank[y]
    decreases s
  {
    var x :| x in s;
    if s == {x} {
      m := x;
    } else {
      assert s == {x} + (s - {x});
      var m' := LeastRanked(store, rank, s - {x});
      m := if rank[x] <= rank[m'] then x else m';
    }
  }

  ghost predicate CanContinue(store: Store) {
    exists x :: x in store && (store[x].state == Running || Candidate(store[x]))
  }

  lemma LeastUnfinished(store: Store, roots: seq<Id>) returns (m: Id)
    requires WellFormed(store, roots) && exists x :: x in store && !Finished(store[x].state)
    ensures m in store && !Finished(store[m].state)
    ensures forall p :: p in store[m].parents ==> p in store && Finished(store[p].state)
  {
    var s := set x | x in store && !Finished(store[x].state);
    var x :| x in store && !Finished(store[x].state);
    assert x in s;
    var rank :| Ranks(store, rank);
    m := LeastRanked(store, rank, s);
    forall p | p in store[m].parents ensures p in store && Finished(store[p].state) {
      assert rank[p] < rank[m];
      assert p !in s;
    }
  }

  ghost predicate AllFinished(store: Store) {
    forall x :: x in store ==> Finished(store[x].state)
  }

  lemma NoDeadlockInv(w: World)
    requires Inv(w)
    ensures AllFinished(w.store) || CanContinue(w.store)
  {
    if !AllFinished(w.store) {
      var m := LeastUnfinished(w.store, w.roots);
      assert !HasFailedParent(w.store, m);
      assert Ready(w.store, m);
      assert NothingEarlyAt(w.store, m) && ReleasedAt(w.store, m);
      assert w.store[m].state == Running || Candidate(w.store[m]);
    }
  }

  /** No deadlock: in every state of every run, either every process has succeeded or failed, or one is running, or one
      is waiting, unassigned and released. */
  lemma NoDeadlock(w: World, steps: seq<Step>)
    requires Inv(w)
    ensures AllFinished(Execute(w, steps).store) || CanContinue(Execute(w, steps).store)
  {
    RunKeepsInv(w, steps);
    NoDeadlockInv(Execute(w, steps));
  }

  // ---------------------------------------------------------------- a run can always be completed

  ghost function InState(store: Store, states: set<State>): set<Id> {
    set x | x in store && store[x].state in states
  }

  ghost function Remaining(store: Store): nat {
    |InState(store, {Waiting, Running})| + |InState(store, {Waiting})|
  }

  /** While something is unfinished, a handler changes the state of its own process and of no other. */
  lemma CalmStepStates(w: World, id: Id, p: Process)
    requires Inv(w) && id in w.store && !Finished(w.store[id].state)
    requires p.parents == w.store[id].parents && p.children == w.store[id].children && p.state != Failed
    ensures var r := ResolveAll(w.roots, w.store[id := p]);
      && r.Resolved? && r.store.Keys == w.store.Keys
      && forall x :: x in w.store ==> r.store[x].state == if x == id then p.state else w.store[x].state
  {
    SetStateShape(w.store, w.roots, id, p);
    CalmStaysCalm(w.store, w.store[id := p]);
    ResolveCalmStates(w.store[id := p], w.roots);
  }

  lemma ResolveCalmStates(s: Store, roots: seq<Id>)
    requires WellFormed(s, roots) && forall x :: x in s ==> !HasFailedParent(s, x)
    ensures var r := ResolveAll(roots, s);
      r.Resolved? && r.store.Keys == s.Keys && forall x :: x in s ==> r.store[x].state == s[x].state
  {
    ResolveWellFormed(s, roots);
  }

  lemma FinishingDrops(a: Store, b: Store, x: Id)
    requires a.Keys == b.Keys && x in a && a[x].state == Running && b[x].state == Success
    requires forall y :: y in a && y != x ==> a[y].state == b[y].state
    ensures Remaining(b) < Remaining(a)
  {
    assert x in InState(a, {Waiting, Running});
    assert InState(b, {Waiting, Running}) == InState(a, {Waiting, Running}) - {x};
    assert InState(b, {Waiting}) == InState(a, {Waiting});
  }

  lemma StartingDrops(a: Store, b: Store, x: Id)
    requires a.Keys == b.Keys && x in a && a[x].state == Waiting && b[x].state == Running
    requires forall y :: y in a && y != x ==> a[y].state == b[y].state
    ensures Remaining(b) < Remaining(a)
  {
    assert x in InState(a, {Waiting});
    assert InState(b, {Waiting, Running}) == InState(a, {Waiting, Running});
    assert InState(b, {Waiting}) == InState(a, {Waiting}) - {x};
  }

  /** The same processes have failed. */
  ghost predicate SameFailures(a: Store, b: Store) {
    a.Keys == b.Keys && forall x :: x in a ==> (a[x].state == Failed <==> b[x].state == Failed)
  }

  lemma ChangeProgresses(w: World, x: Id, p: Process)
    requires Inv(w) && x in w.store
    requires p.parents == w.store[x].parents && p.children == w.store[x].children
    requires (w.store[x].state == Running && p.state == Success) || (w.store[x].state == Waiting && p.state == Running)
    ensures var r := ResolveAll(w.roots, w.store[x := p]);
      r.Resolved? && SameFailures(w.store, r.store) && Remaining(r.store) < Remaining(w.store)
  {
    CalmStepStates(w, x, p);
    var s := ResolveAll(w.roots, w.store[x := p]).store;
    if p.state == Success { FinishingDrops(w.store, s, x); } else { StartingDrops(w.store, s, x); }
  }

  lemma ProgressStep(w: World) returns (step: Step)
    requires Inv(w) && !AllFinished(w.store)
    ensures Effective(w, step) && SameFailures(w.store, Apply(w, step).store)
    ensures Remaining(Apply(w, step).store) < Remaining(w.store)
  {
    NoDeadlockInv(w);
    var x :| x in w.store && (w.store[x].state == Running || Candidate(w.store[x]));
    if w.store[x].state == Running {
      step := CloseSuccessful(x);
      FinishProgresses(w, x);
    } else {
      step := Assign(x, "");
      AssignProgresses(w, x, "");
    }
  }

  lemma FinishProgresses(w: World, x: Id)
    requires Inv(w) && x in w.store && w.store[x].state == Running
    ensures SameFailures(w.store, Apply(w, CloseSuccessful(x)).store)
    ensures Remaining(Apply(w, CloseSuccessful(x)).store) < Remaining(w.store)
  {
    ChangeProgresses(w, x, w.store[x].(state := Success));
  }

  lemma AssignProgresses(w: World, x: Id, executor: string)
    requires Inv(w) && x in w.store && Candidate(w.store[x])
    ensures SameFailures(w.store, Apply(w, Assign(x, executor)).store)
    ensures Remaining(Apply(w, Assign(x, executor)).store) < Remaining(w.store)
  {
    assert NothingEarlyAt(w.store, x);
    SetAndResolve(w, x, Assigned(w.store[x], executor));
    ChangeProgresses(w, x, Assigned(w.store[x], executor));
  }

  /** From every state of every run, some further run finishes every process, and all those that have not failed yet
      succeed. */
  lemma {:induction false} CanFinish(w: World) returns (steps: seq<Step>)
    requires Inv(w)
    ensures EffectiveRun(w, steps)
    ensures AllFinished(Execute(w, steps).store) && SameFailures(w.store, Execute(w, steps).store)
    decreases Remaining(w.store)
  {
    if AllFinished(w.store) {
      steps := [];
    } else {
      var step := ProgressStep(w);
      StepKeepsInv(w, step);
      var rest := CanFinish(Apply(w, step));
      steps := [step] + rest;
      assert steps[1..] == rest;
    }
  }

  // ---------------------------------------------------------------- every run that does something ends

  /** A step that hands out a process or ends one. */
  predicate Effective(w: World, step: Step) {
    match step
    case Assign(id, _) => id in w.store && Candidate(w.store[id])
    case CloseSuccessful(id) => id in w.store && w.store[id].state == Running
    case CloseFailed(id) => id in w.store && CanFail(w.store[id])
    case _ => false
  }

  ghost predicate EffectiveRun(w: World, steps: seq<Step>)
    decreases |steps|
  {
    steps == [] || (Effective(w, steps[0]) && EffectiveRun(Apply(w, steps[0]), steps[1..]))
  }

  /** Where states stay or become failed, and one process fails that had not ended, less remains. */
  lemma FailingDrops(a: Store, b: Store, x: Id)
    requires a.Keys == b.Keys && x in a && !Finished(a[x].state) && b[x].state == Failed
    requires forall y :: y in a ==> b[y].state == a[y].state || b[y].state == Failed
    ensures Remaining(b) < Remaining(a)
  {
    var open, left := InState(a, {Waiting, Running}), InState(b, {Waiting, Running});
    assert x in open && left <= open - {x};
    SubsetSize(left, open - {x});
    assert InState(b, {Waiting}) <= InState(a, {Waiting});
    SubsetSize(InState(b, {Waiting}), InState(a, {Waiting}));
  }

  lemma {:induction false} SubsetSize(a: set<Id>, b: set<Id>)
    requires a <= b
    ensures |a| <= |b|
  {
    if a != {} {
      var x :| x in a;
      SubsetSize(a - {x}, b - {x});
    }
  }

  lemma FailProgresses(w: World, x: Id)
    requires Inv(w) && x in w.store && CanFail(w.store[x])
    ensures Remaining(Apply(w, CloseFailed(x)).store) < Remaining(w.store)
  {
    FailDrops(w, x, w.store[x := w.store[x].(state := Failed)]);
  }

  lemma FailDrops(w: World, x: Id, s: Store)
    requires Inv(w) && x in w.store && CanFail(w.store[x]) && s == w.store[x := w.store[x].(state := Failed)]
    ensures var r := ResolveAll(w.roots, s); r.Resolved? && Remaining(r.store) < Remaining(w.store)
  {
    SetStateShape(w.store, w.roots, x, w.store[x].(state := Failed));
    ResolveFails(s, w.roots);
    FailingDrops(w.store, ResolveAll(w.roots, s).store, x);
  }

  lemma ResolveFails(s: Store, roots: seq<Id>)
    requires WellFormed(s, roots)
    ensures var r := ResolveAll(roots, s);
      && r.Resolved? && r.store.Keys == s.Keys
      && forall y :: y in s ==> r.store[y].state == s[y].state || r.store[y].state == Failed
  {
    ResolveWellFormed(s, roots);
    ResolveOnlyFails(roots, s, roots, [], NO_TALLY);
  }

  lemma EffectiveProgresses(w: World, step: Step)
    requires Inv(w) && Effective(w, step)
    ensures Remaining(Apply(w, step).store) < Remaining(w.store)
  {
    match step
    case Assign(id, executor) => AssignProgresses(w, id, executor);
    case CloseSuccessful(id) => FinishProgresses(w, id);
    case CloseFailed(id) => FailProgresses(w, id);
  }

  /** Every run of steps that do something is bounded by what remained at its start, at most two steps a process. When
      nothing effective is left to do, every process has succeeded or failed. */
  lemma {:induction false} EffectiveRunsEnd(w: World, steps: seq<Step>)
    requires Inv(w) && EffectiveRun(w, steps)
    ensures |steps| + Remaining(Execute(w, steps).store) <= Remaining(w.store) <= 2 * |w.store|
    ensures (forall step :: !Effective(Execute(w, steps), step)) <==> AllFinished(Execute(w, steps).store)
    decreases |steps|
  {
    SubsetSize(InState(w.store, {Waiting, Running}), w.store.Keys);
    SubsetSize(InState(w.store, {Waiting}), w.store.Keys);
    if steps == [] {
      NothingLeftIff(w);
    } else {
      EffectiveProgresses(w, steps[0]);
      StepKeepsInv(w, steps[0]);
      EffectiveRunsEnd(Apply(w, steps[0]), steps[1..]);
    }
  }

  lemma NothingLeftIff(w: World)
    requires Inv(w)
    ensures (forall step :: !Effective(w, step)) <==> AllFinished(w.store)
  {
    if !AllFinished(w.store) {
      NoDeadlockInv(w);
      var x :| x in w.store && (w.store[x].state == Running || Candidate(w.store[x]));
      assert Effective(w, if w.store[x].state == Running then CloseSuccessful(x) else Assign(x, ""));
    }
  }

  // ---------------------------------------------------------------- what the other steps do

  /** A process that timed out can be handed out again: it is waiting, free and released, and nothing else changes. */
  lemma TimeoutReturns(w: World, id: Id, executor: string)
    requires Inv(w) && id in w.store && w.store[id].state == Running
    ensures var after := Apply(w, TimeoutUnassign(id));
      && id in after.store && after.store[id].state == Waiting && after.store[id].executor == ""
      && !after.store[id].isAssigned && !after.store[id].waitForParents
      && after.store == w.store[id := after.store[id]] && after.graphState == w.graphState && after.roots == w.roots
      && after.store[id].parents == w.store[id].parents && after.store[id].children == w.store[id].children
      && Effective(after, Assign(id, executor))
  {
    assert NothingEarlyAt(w.store, id);
  }

  /** Handing out a process gives it to the executor, changes the state of no other process and no link, and is refused
      unless the process is waiting, free and released. */
  lemma AssignEffect(w: World, id: Id, executor: string)
    requires Inv(w)
    ensures var after := Apply(w, Assign(id, executor));
      if id in w.store && w.store[id].state == Waiting && !w.store[id].isAssigned && !w.store[id].waitForParents
      then
        && after.store.Keys == w.store.Keys && after.store[id].state == Running
        && after.store[id].isAssigned && after.store[id].executor == executor
        && (forall x :: x in w.store && x != id ==>
              after.store[x].state == w.store[x].state && after.store[x].executor == w.store[x].executor)
        && (forall x :: x in w.store ==>
              after.store[x].parents == w.store[x].parents && after.store[x].children == w.store[x].children)
      else after == w
  {
    if id in w.store && Candidate(w.store[id]) {
      var p := Assigned(w.store[id], executor);
      assert NothingEarlyAt(w.store, id);
      SetAndResolve(w, id, p);
      CalmStepStates(w, id, p);
      ResolveOnlyFails(w.roots, w.store[id := p], w.roots, [], NO_TALLY);
    }
  }

  /** Closing a running process as successful changes no other state, and a waiting process can be handed out afterwards
      exactly when all its parents have then succeeded. */
  lemma SuccessReleases(w: World, id: Id)
    requires Inv(w) && id in w.store && w.store[id].state == Running
    ensures var after := Apply(w, CloseSuccessful(id));
      && after.store.Keys == w.store.Keys && after.store[id].state == Success
      && (forall x :: x in w.store && x != id ==> after.store[x].state == w.store[x].state)
      && (forall x :: x in after.store && after.store[x].state == Waiting ==>
            (Candidate(after.store[x]) <==> Ready(after.store, x)))
  {
    CalmStepStates(w, id, w.store[id].(state := Success));
    CloseKeepsInv(w, id);
    var s := Apply(w, CloseSuccessful(id)).store;
    forall x | x in s && s[x].state == Waiting ensures Candidate(s[x]) <==> Ready(s, x) {
      assert NothingEarlyAt(s, x) && ReleasedAt(s, x);
    }
  }

  /** Only the executor that runs the parent may add a child to it; any other request changes nothing. */
  lemma OnlyOwnerAddsChild(w: World, parent: Id, id: Id, executor: string)
    ensures var may := parent in w.store && w.store[parent].state == Running && w.store[parent].executor == executor
                       && id !in w.store;
      && (id in Apply(w, Insert(parent, id, executor)).store <==> may || id in w.store)
      && (id in Apply(w, Append(parent, id, executor)).store <==> may || id in w.store)
      && (!may ==> Apply(w, Insert(parent, id, executor)) == w && Apply(w, Append(parent, id, executor)) == w)
  {
    if MayAddChild(w.store, parent, id, executor) { InsertAddsId(w.store, parent, id); }
  }

  // ---------------------------------------------------------------- what a failure does

  /** When a process is closed as failed, every process fails if it has a child; otherwise no other process changes its
      state. The graph is failed in both cases. */
  lemma FailureReach(w: World, x: Id)
    requires Inv(w) && x in w.store && CanFail(w.store[x])
    ensures var after := Apply(w, CloseFailed(x));
      && after.graphState == Failed && after.store.Keys == w.store.Keys
      && forall y :: y in w.store ==>
          after.store[y].state == if y == x || w.store[x].children != [] then Failed else w.store[y].state
  {
    FailureReaches(w, x, w.store[x := w.store[x].(state := Failed)]);
  }

  lemma FailureReaches(w: World, x: Id, s: Store)
    requires Inv(w) && x in w.store && CanFail(w.store[x]) && s == w.store[x := w.store[x].(state := Failed)]
    ensures var r := ResolveAll(w.roots, s);
      && r.Resolved? && r.tally.GraphState() == Failed && r.store.Keys == w.store.Keys
      && forall y :: y in w.store ==>
          r.store[y].state == if y == x || w.store[x].children != [] then Failed else w.store[y].state
  {
    SetStateShape(w.store, w.roots, x, w.store[x].(state := Failed));
    ResolveKeepsFailed(s, w.roots, x);
    if w.store[x].children != [] {
      assert s[x].children[0] in s[x].children;
      ChildSpreads(s, w.roots, x, s[x].children[0]);
    } else {
      NoChildNoFailedParent(w, x, s);
      ResolveCalmStates(s, w.roots);
    }
  }

  lemma ChildSpreads(s: Store, roots: seq<Id>, x: Id, c: Id)
    requires WellFormed(s, roots) && x in s && s[x].state == Failed && c in s[x].children
    ensures var r := ResolveAll(roots, s);
      r.Resolved? && r.store.Keys == s.Keys && forall y :: y in s ==> r.store[y].state == Failed
  {
    assert c in s && x in s[c].parents && HasFailedParent(s, c);
    ResolveWellFormed(s, roots);
  }

  lemma NoChildNoFailedParent(w: World, x: Id, s: Store)
    requires Inv(w) && x in w.store && CanFail(w.store[x]) && w.store[x].children == []
    requires s == w.store[x := w.store[x].(state := Failed)]
    ensures forall y :: y in s ==> !HasFailedParent(s, y)
  {
    assert forall y :: y in s ==> x !in w.store[y].parents;
    assert forall y :: y in s && !HasFailedParent(w.store, y) ==> !HasFailedParent(s, y);
  }

  // ---------------------------------------------------------------- finished graphs stay finished

  lemma ResolveKeepsFailed(store: Store, roots: seq<Id>, f: Id)
    requires WellFormed(store, roots) && f in store && store[f].state == Failed
    ensures var r := ResolveAll(roots, store); r.Resolved? && r.tally.GraphState() == Failed
  {
    ResolveWellFormed(store, roots);
    var r := ResolveAll(roots, store).store;
    assert f in r && r[f].state == Failed;
    StateOfGraphIsSound(r);
  }

  lemma FailedStaysFailed(w: World, id: Id, p: Process)
    requires Inv(w) && SomeFailed(w.store) && id in w.store && w.store[id].state != Failed
    requires p.parents == w.store[id].parents && p.children == w.store[id].children
    ensures AfterResolve(w, id, ResolveAll(w.roots, w.store[id := p])).graphState == Failed
  {
    SetStateShape(w.store, w.roots, id, p);
    var f :| f in w.store && w.store[f].state == Failed;
    ResolveKeepsFailed(w.store[id := p], w.roots, f);
  }

  lemma SuccessStaysSuccess(w: World, id: Id)
    requires Inv(w) && AllSuccess(w.store) && id in w.store
    ensures var r := ResolveAll(w.roots, w.store[id := w.store[id].(state := Success)]);
      AfterResolve(w, id, r).graphState == Success
  {
    var s := w.store[id := w.store[id].(state := Success)];
    assert s == w.store;
    AllSuccessResolves(s, w.roots);
  }

  lemma AllSuccessResolves(s: Store, roots: seq<Id>)
    requires WellFormed(s, roots) && AllSuccess(s)
    ensures var r := ResolveAll(roots, s); r.Resolved? && r.tally.GraphState() == Success
  {
    ResolveCalmStates(s, roots);
    ResolveWellFormed(s, roots);
    StateOfGraphIsSound(ResolveAll(roots, s).store);
  }

  lemma StepKeepsFinished(w: World, step: Step)
    requires Inv(w) && w.graphState in {Success, Failed}
    ensures Apply(w, step).graphState == w.graphState
  {
    match step
    case Assign(id, executor) =>
      if id in w.store && Candidate(w.store[id]) {
        assert NothingEarlyAt(w.store, id);
        SetAndResolve(w, id, Assigned(w.store[id], executor));
        FailedStaysFailed(w, id, Assigned(w.store[id], executor));
      }
    case CloseSuccessful(id) =>
      if id in w.store && CanSucceed(w.store[id]) {
        if w.graphState == Failed { FailedStaysFailed(w, id, w.store[id].(state := Success)); }
        else { SuccessStaysSuccess(w, id); }
      }
    case CloseFailed(id) =>
      if id in w.store && CanFail(w.store[id]) { FailedStaysFailed(w, id, w.store[id].(state := Failed)); }
    case _ =>
  }

  /** Once a graph is successful or failed, no continuation of the run changes its state again. */
  lemma {:induction false} FinishedIsFinal(w: World, steps: seq<Step>)
    requires Inv(w) && w.graphState in {Success, Failed}
    ensures Execute(w, steps).graphState == w.graphState
    decreases |steps|
  {
    if steps != [] {
      StepKeepsInv(w, steps[0]);
      StepKeepsFinished(w, steps[0]);
      FinishedIsFinal(Apply(w, steps[0]), steps[1..]);
    }
  }
}
