/** Processes, the store that holds them, and the depth-first walk over a process graph
    (pkg/core/process.go, pkg/core/processgraph.go). */
module ProcessGraph {
  import opened Collections

  type Id = string

  datatype State = Waiting | Running | Success | Failed

  /** A state that a process or a process graph does not leave again. */
  predicate Finished(st: State) {
    st == Success || st == Failed
  }

  /** The stored columns of a process that the workflow engine reads or writes. */
  datatype Process = Process(
    state: State,
    isAssigned: bool,
    executor: string,
    waitForParents: bool,
    parents: seq<Id>,
    children: seq<Id>)

  type Store = map<Id, Process>

  // ---------------------------------------------------------------- reachability

  /** `p` follows child links through stored processes. */
  ghost predicate IsPath(store: Store, p: seq<Id>) {
    && |p| > 0
    && forall i :: 0 <= i < |p| - 1 ==> p[i] in store && p[i + 1] in store[p[i]].children
  }

  ghost predicate PathTo(store: Store, roots: seq<Id>, x: Id, p: seq<Id>) {
    IsPath(store, p) && p[0] in roots && p[|p| - 1] == x
  }

  ghost predicate Reachable(store: Store, roots: seq<Id>, x: Id) {
    exists p :: PathTo(store, roots, x, p)
  }

  lemma RootIsReachable(store: Store, roots: seq<Id>, r: Id)
    requires r in roots
    ensures Reachable(store, roots, r)
  {
    assert PathTo(store, roots, r, [r]);
  }

  lemma ChildIsReachable(store: Store, roots: seq<Id>, x: Id, c: Id)
    requires Reachable(store, roots, x) && x in store && c in store[x].children
    ensures Reachable(store, roots, c)
  {
    var p :| PathTo(store, roots, x, p);
    var q := p + [c];
    assert forall i :: 0 <= i < |p| ==> q[i] == p[i];
    assert PathTo(store, roots, c, q);
  }

  /** A set that holds the roots and the children of its members holds everything reachable. */
  lemma {:induction false} ClosedSetHoldsReachable(store: Store, roots: seq<Id>, s: set<Id>, x: Id, p: seq<Id>)
    requires Elems(roots) <= s
    requires forall y, c :: y in s && y in store && c in store[y].children ==> c in s
    requires PathTo(store, roots, x, p)
    ensures x in s
    decreases |p|
  {
    if |p| > 1 {
      var q := p[..|p| - 1];
      ClosedSetHoldsReachable(store, roots, s, q[|q| - 1], q);
      assert p[|p| - 2 + 1] in store[p[|p| - 2]].children;
    }
  }

  // ---------------------------------------------------------------- the walk

  /** How a walk ends: with the ids in the order they were visited, or at an id that is not stored. */
  datatype Walk = Done(order: seq<Id>) | Missing(id: Id, order: seq<Id>)

  /** The walk as a work list: pending ids, and the ids visited so far in visiting order. */
  function Traverse(store: Store, work: seq<Id>, order: seq<Id>): Walk
    decreases store.Keys - Elems(order), |work|
  {
    if work == [] then
      Done(order)
    else if work[0] !in store then
      Missing(work[0], order)
    else if work[0] in order then
      Traverse(store, work[1..], order)
    else
      assert work[0] in store.Keys - Elems(order) && work[0] in Elems(order + [work[0]]);
      Traverse(store, store[work[0]].children + work[1..], order + [work[0]])
  }

  function Visit(store: Store, roots: seq<Id>): Walk {
    Traverse(store, roots, [])
  }

  /** What holds between two calls of the work-list walk. */
  ghost predicate WalkInvariant(store: Store, roots: seq<Id>, work: seq<Id>, order: seq<Id>) {
    && Distinct(order)
    && (forall x :: x in order ==> x in store)
    && (forall x :: x in order || x in work ==> Reachable(store, roots, x))
    && (forall x :: x in roots ==> x in order || x in work)
    && (forall x, c :: x in order && x in store && c in store[x].children ==> c in order || c in work)
  }

  lemma WalkStep(store: Store, roots: seq<Id>, work: seq<Id>, order: seq<Id>)
    requires WalkInvariant(store, roots, work, order)
    requires work != [] && work[0] in store && work[0] !in order
    ensures WalkInvariant(store, roots, store[work[0]].children + work[1..], order + [work[0]])
  {
    var w := work[0];
    forall c | c in store[w].children ensures Reachable(store, roots, c) {
      ChildIsReachable(store, roots, w, c);
    }
    assert forall x :: x in work <==> x == w || x in work[1..];
  }

  lemma {:induction false} TraverseVisitsReachable(store: Store, roots: seq<Id>, work: seq<Id>, order: seq<Id>)
    requires WalkInvariant(store, roots, work, order)
    ensures var w := Traverse(store, work, order);
      && (w.Done? ==> WalkInvariant(store, roots, [], w.order))
      && (w.Missing? ==> w.id !in store && Reachable(store, roots, w.id)
                         && Distinct(w.order)
                         && (forall x :: x in w.order ==> x in store && Reachable(store, roots, x)))
    decreases store.Keys - Elems(order), |work|
  {
    if work == [] {
    } else if work[0] !in store {
    } else if work[0] in order {
      assert forall x :: x in work <==> x == work[0] || x in work[1..];
      TraverseVisitsReachable(store, roots, work[1..], order);
    } else {
      WalkStep(store, roots, work, order);
      assert work[0] in store.Keys - Elems(order) && work[0] in Elems(order + [work[0]]);
      TraverseVisitsReachable(store, roots, store[work[0]].children + work[1..], order + [work[0]]);
    }
  }

  /** The walk finishes exactly when every reachable id is stored; it then visits each reachable process once
      and nothing else, on any graph, cyclic or not. */
  lemma VisitIsExact(store: Store, roots: seq<Id>)
    ensures var w := Visit(store, roots);
      && Distinct(w.order)
      && (w.Done? <==> forall x :: Reachable(store, roots, x) ==> x in store)
      && (w.Done? ==> forall x :: x in w.order <==> Reachable(store, roots, x))
      && (w.Missing? ==> w.id !in store && Reachable(store, roots, w.id))
      && (forall x :: x in w.order ==> x in store && Reachable(store, roots, x))
  {
    forall r | r in roots ensures Reachable(store, roots, r) { RootIsReachable(store, roots, r); }
    TraverseVisitsReachable(store, roots, roots, []);
    var w := Visit(store, roots);
    if w.Done? {
      forall x | Reachable(store, roots, x) ensures x in w.order {
        var p :| PathTo(store, roots, x, p);
        ClosedSetHoldsReachable(store, roots, Elems(w.order), x, p);
      }
    }
  }

  // ---------------------------------------------------------------- counters

  function CountState(store: Store, order: seq<Id>, st: State): nat
    requires forall x :: x in order ==> x in store
  {
    if order == [] then 0
    else (if store[order[0]].state == st then 1 else 0) + CountState(store, order[1..], st)
  }

  lemma {:induction false} CountsAddUp(store: Store, order: seq<Id>)
    requires forall x :: x in order ==> x in store
    ensures CountState(store, order, Waiting) + CountState(store, order, Running)
            + CountState(store, order, Success) + CountState(store, order, Failed) == |order|
  {
    if order != [] { CountsAddUp(store, order[1..]); }
  }

  lemma {:induction false} CountAppend(store: Store, order: seq<Id>, x: Id, st: State)
    requires forall y :: y in order + [x] ==> y in store
    ensures forall y :: y in order ==> y in store
    ensures CountState(store, order + [x], st) == CountState(store, order, st) + (if store[x].state == st then 1 else 0)
  {
    assert forall y :: y in order ==> y in order + [x];
    if order == [] {
      assert order + [x] == [x];
    } else {
      assert (order + [x])[1..] == order[1..] + [x];
      CountAppend(store, order[1..], x, st);
    }
  }

  /** A counter is at most the number of visits, reaches it exactly when every visited process has the state,
      and is positive exactly when one has. */
  lemma {:induction false} CountMeaning(store: Store, order: seq<Id>, st: State)
    requires forall x :: x in order ==> x in store
    ensures CountState(store, order, st) <= |order|
    ensures CountState(store, order, st) == |order| <==> forall x :: x in order ==> store[x].state == st
    ensures CountState(store, order, st) > 0 <==> exists x :: x in order && store[x].state == st
  {
    if order != [] {
      CountMeaning(store, order[1..], st);
      assert forall x :: x in order <==> x == order[0] || x in order[1..];
    }
  }

  // ---------------------------------------------------------------- the walk over shared state

  /** The `visited` map shared by the recursive calls, with the ids in visiting order. */
  class Visits {
    var seen: set<Id>
    var order: seq<Id>

    ghost predicate Valid() reads this { seen == Elems(order) }

    constructor ()
      ensures Valid() && order == []
    {
      seen, order := {}, [];
    }

    method Mark(id: Id)
      requires Valid()
      modifies this
      ensures Valid() && order == old(order) + [id]
    {
      seen, order := seen + {id}, order + [id];
      assert seen == Elems(order);
    }
  }

  /** One call of the recursive `iterate`; `rest` is what its callers still have to visit. */
  method IterateFrom(store: Store, id: Id, v: Visits, ghost rest: seq<Id>) returns (missing: Option<Id>)
    requires v.Valid()
    modifies v
    ensures v.Valid() && old(v.seen) <= v.seen
    ensures Traverse(store, [id] + rest, old(v.order))
            == if missing.None? then Traverse(store, rest, v.order) else Missing(missing.value, v.order)
    decreases store.Keys - v.seen
  {
    assert ([id] + rest)[1..] == rest;
    if id !in store { return Some(id); }
    if id in v.seen { return None; }
    ghost var before := v.order;
    v.Mark(id);
    var children := store[id].children;
    assert children[0..] == children;
    for i := 0 to |children|
      invariant v.Valid() && old(v.seen) + {id} <= v.seen
      invariant Traverse(store, [id] + rest, before) == Traverse(store, children[i..] + rest, v.order)
    {
      assert children[i..] + rest == [children[i]] + (children[i + 1..] + rest);
      missing := IterateFrom(store, children[i], v, children[i + 1..] + rest);
      if missing.Some? { return; }
    }
    assert children[|children|..] + rest == rest;
    missing := None;
  }

  /** `Iterate` with a visiting function that only records the process: the ids it is called with. */
  method Iterate(store: Store, roots: seq<Id>) returns (w: Walk)
    ensures w == Visit(store, roots)
  {
    var v := new Visits();
    assert roots[0..] == roots;
    for i := 0 to |roots|
      invariant v.Valid()
      invariant Visit(store, roots) == Traverse(store, roots[i..], v.order)
    {
      assert roots[i..] == [roots[i]] + roots[i + 1..];
      var missing := IterateFrom(store, roots[i], v, roots[i + 1..]);
      if missing.Some? { return Missing(missing.value, v.order); }
    }
    w := Done(v.order);
  }

  /** `order` lists the reachable processes once each, and the counters count its states. */
  ghost predicate Counted(store: Store, roots: seq<Id>, order: seq<Id>, processes: nat, waiting: nat, running: nat,
                          successful: nat, failed: nat)
  {
    && Distinct(order) && |order| == processes
    && (forall x :: x in order <==> Reachable(store, roots, x))
    && (forall x :: x in order ==> x in store)
    && waiting == CountState(store, order, Waiting) && running == CountState(store, order, Running)
    && successful == CountState(store, order, Success) && failed == CountState(store, order, Failed)
  }

  /** `Processes` and the four state counters, on one walk. */
  method CountProcesses(store: Store, roots: seq<Id>)
    returns (err: bool, processes: nat, waiting: nat, running: nat, successful: nat, failed: nat)
    ensures err <==> exists x :: Reachable(store, roots, x) && x !in store
    ensures !err ==> waiting + running + successful + failed == processes
    ensures !err ==> exists order :: Counted(store, roots, order, processes, waiting, running, successful, failed)
  {
    processes, waiting, running, successful, failed := 0, 0, 0, 0, 0;
    VisitIsExact(store, roots);
    var w := Iterate(store, roots);
    if w.Missing? { return true, 0, 0, 0, 0, 0; }
    err := false;
    for i := 0 to |w.order|
      invariant processes == i
      invariant waiting == CountState(store, w.order[..i], Waiting)
      invariant running == CountState(store, w.order[..i], Running)
      invariant successful == CountState(store, w.order[..i], Success)
      invariant failed == CountState(store, w.order[..i], Failed)
    {
      var st := store[w.order[i]].state;
      assert w.order[..i + 1] == w.order[..i] + [w.order[i]];
      CountAppend(store, w.order[..i], w.order[i], Waiting);
      CountAppend(store, w.order[..i], w.order[i], Running);
      CountAppend(store, w.order[..i], w.order[i], Success);
      CountAppend(store, w.order[..i], w.order[i], Failed);
      processes := processes + 1;
      match st {
        case Waiting => waiting := waiting + 1;
        case Running => running := running + 1;
        case Success => successful := successful + 1;
        case Failed => failed := failed + 1;
      }
    }
    assert w.order[..|w.order|] == w.order;
    CountsAddUp(store, w.order);
    assert Counted(store, roots, w.order, processes, waiting, running, successful, failed);
  }
}
