/** `Resolve` on a graph of which not every process is stored: when it ends with an error, and when it takes the
    server down (pkg/core/processgraph.go). */
module IncompleteGraphs {
  import opened Collections
  import opened ProcessGraph
  import opened Resolve
  import opened Runs

  /** A parent that ends the walk: it is not stored, or it has failed and the nested walk cannot finish either. */
  ghost predicate EndsAt(store: Store, done: bool, p: Id) {
    p !in store || (store[p].state == Failed && !done)
  }

  /** Among the parents that end the walk, the first is a missing one. */
  ghost predicate MissingFirst(store: Store, done: bool, parents: seq<Id>) {
    parents != []
    && (parents[0] !in store || (!EndsAt(store, done, parents[0]) && MissingFirst(store, done, parents[1..])))
  }

  ghost predicate EndsIn(store: Store, done: bool, x: Id) {
    x in store && exists p :: p in store[x].parents && EndsAt(store, done, p)
  }

  ghost predicate CrashesIn(store: Store, done: bool, x: Id) {
    x in store && MissingFirst(store, done, store[x].parents)
  }

  /** The first of the visited processes that ends the walk ends it with a missing parent. */
  ghost predicate Crashes(store: Store, done: bool, order: seq<Id>) {
    order != []
    && (CrashesIn(store, done, order[0]) || (!EndsIn(store, done, order[0]) && Crashes(store, done, order[1..])))
  }

  lemma {:induction false} ScanEnds(roots: seq<Id>, store: Store, parents: seq<Id>, finished: nat, done: bool)
    requires done == Visit(store, roots).Done?
    ensures var s := ScanParents(roots, store, parents, finished);
      && (s.Scanned? <==> forall p :: p in parents ==> !EndsAt(store, done, p))
      && (s.Aborted? ==> (s.cause.NilParent? <==> MissingFirst(store, done, parents)))
      && (s.Scanned? ==> !MissingFirst(store, done, parents))
      && (s.Scanned? && !done ==> s.store == store)
    decreases |parents|
  {
    if parents != [] {
      assert forall p :: p in parents <==> p == parents[0] || p in parents[1..];
      assert EndsAt(store, done, parents[0])
        <==> parents[0] !in store || (store[parents[0]].state == Failed && !done);
      if parents[0] in store && store[parents[0]].state == Failed {
        if done {
          var total := Visit(store, roots).order;
          FailedStoreScan(roots, store, total);
          ScanEnds(roots, FailAll(store, total), parents[1..], finished, done);
          DoneEnds(store, FailAll(store, total), parents[1..]);
        }
      } else if parents[0] in store {
        ScanEnds(roots, store, parents[1..], finished + (if store[parents[0]].state == Success then 1 else 0), done);
      }
    }
  }

  /** Where the nested walk finishes, only missing parents end the walk, whatever the states are. */
  lemma {:induction false} DoneEnds(a: Store, b: Store, parents: seq<Id>)
    requires a.Keys == b.Keys
    ensures MissingFirst(a, true, parents) <==> MissingFirst(b, true, parents)
    ensures forall p :: EndsAt(a, true, p) <==> EndsAt(b, true, p)
    decreases |parents|
  {
    if parents != [] { DoneEnds(a, b, parents[1..]); }
  }

  lemma {:induction false} SameStatesEnd(a: Store, b: Store, parents: seq<Id>)
    requires SameShape(a, b) && SameStates(a, b)
    ensures MissingFirst(a, false, parents) <==> MissingFirst(b, false, parents)
    ensures forall p :: EndsAt(a, false, p) <==> EndsAt(b, false, p)
    decreases |parents|
  {
    if parents != [] { SameStatesEnd(a, b, parents[1..]); }
  }

  /** One visit during a walk that has not ended: `s` has the links of `s0`, and its states if the walk is to fail. */
  lemma VisitEnds(roots: seq<Id>, s0: Store, s: Store, x: Id, done: bool)
    requires SameShape(s0, s) && (!done ==> SameStates(s0, s)) && done == Visit(s0, roots).Done? && x in s
    ensures var v := VisitProcess(roots, s, x);
      && (v.Scanned? <==> !EndsIn(s0, done, x))
      && (v.Aborted? ==> (v.cause.NilParent? <==> CrashesIn(s0, done, x)))
      && (v.Scanned? ==> !CrashesIn(s0, done, x) && SameShape(s0, v.store) && (!done ==> SameStates(s0, v.store)))
  {
    TraverseSameShape(s0, s, roots, []);
    ScanEnds(roots, s, s[x].parents, 0, done);
    ScanOnlyFails(roots, s, s[x].parents, 0);
    if done { DoneEnds(s0, s, s[x].parents); } else { SameStatesEnd(s0, s, s[x].parents); }
  }

  lemma {:induction false} WorkEnds(roots: seq<Id>, s0: Store, s: Store, work: seq<Id>, order: seq<Id>, tally: Tally,
                                    w: Walk)
    requires Visit(s0, roots) == w && Traverse(s0, work, order) == w
    requires SameShape(s0, s) && (w.Missing? ==> SameStates(s0, s))
    ensures |order| <= |w.order|
    ensures var r := ResolveWork(roots, s, work, order, tally);
      var rest := w.order[|order|..];
      && (r.Resolved? <==> w.Done? && forall x :: x in rest ==> !EndsIn(s0, w.Done?, x))
      && (r.Crashed? <==> Crashes(s0, w.Done?, rest))
    decreases s0.Keys - Elems(order), |work|
  {
    TraverseExtends(s0, work, order);
    if work == [] || work[0] !in s0 {
    } else if work[0] in order {
      WorkEnds(roots, s0, s, work[1..], order, tally, w);
    } else {
      var x := work[0];
      assert x in s0.Keys - Elems(order) && x in Elems(order + [x]);
      TraverseExtends(s0, s0[x].children + work[1..], order + [x]);
      var rest := w.order[|order|..];
      assert rest == [x] + w.order[|order| + 1..];
      VisitEnds(roots, s0, s, x, w.Done?);
      var v := VisitProcess(roots, s, x);
      if v.Scanned? {
        WorkEnds(roots, s0, v.store, s0[x].children + work[1..], order + [x], tally.Count(s[x].state), w);
      }
    }
  }

  /** `Resolve` finishes exactly on complete graphs. It crashes exactly when, in the order of the walk, the first
      process with a parent that ends it has a missing parent before any other such parent. */
  lemma ResolveEndsIff(roots: seq<Id>, store: Store)
    ensures var r := ResolveAll(roots, store);
      var w := Visit(store, roots);
      && (r.Resolved? <==> Complete(store, roots))
      && (r.Crashed? <==> Crashes(store, w.Done?, w.order))
  {
    var w := Visit(store, roots);
    VisitIsExact(store, roots);
    WorkEnds(roots, store, store, roots, [], NO_TALLY, w);
    assert w.order[0..] == w.order;
    if w.Done? {
      assert forall x :: x in w.order ==>
        (EndsIn(store, true, x) <==> exists p :: p in store[x].parents && p !in store);
    }
  }

  lemma {:induction false} EndsInCrash(store: Store, order: seq<Id>)
    ensures Crashes(store, true, order) <==> exists x :: x in order && EndsIn(store, true, x)
  {
    if order != [] {
      EndsInCrash(store, order[1..]);
      assert forall x :: x in order <==> x == order[0] || x in order[1..];
      if order[0] in store { MissingIsFirst(store, store[order[0]].parents); }
      assert CrashesIn(store, true, order[0]) <==> EndsIn(store, true, order[0]);
      if EndsIn(store, true, order[0]) { assert order[0] in order; }
    }
  }

  lemma {:induction false} MissingIsFirst(store: Store, parents: seq<Id>)
    ensures MissingFirst(store, true, parents) <==> exists p :: p in parents && EndsAt(store, true, p)
    decreases |parents|
  {
    if parents != [] {
      MissingIsFirst(store, parents[1..]);
      assert forall p :: p in parents <==> p == parents[0] || p in parents[1..];
      assert EndsAt(store, true, parents[0]) <==> parents[0] !in store;
    }
  }

  /** When every reachable process is stored, `Resolve` never returns an error: it finishes, or it crashes because some
      parent is not stored yet. */
  lemma MissingParentCrashes(roots: seq<Id>, store: Store)
    requires forall x :: Reachable(store, roots, x) ==> x in store
    ensures var r := ResolveAll(roots, store);
      && !r.Stopped?
      && (r.Crashed?
          <==> exists x, p :: Reachable(store, roots, x) && x in store && p in store[x].parents && p !in store)
  {
    ResolveEndsIff(roots, store);
    VisitIsExact(store, roots);
    var order := Visit(store, roots).order;
    EndsInCrash(store, order);
    if exists x, p :: Reachable(store, roots, x) && x in store && p in store[x].parents && p !in store {
      var x, p :| Reachable(store, roots, x) && x in store && p in store[x].parents && p !in store;
      assert x in order && EndsAt(store, true, p) && EndsIn(store, true, x);
    }
    if Crashes(store, true, order) {
      var x :| x in order && EndsIn(store, true, x);
      var p :| p in store[x].parents && EndsAt(store, true, p);
      assert Reachable(store, roots, x) && p !in store;
    }
  }

  /** The race that the retries of `assign` are there for: the first parent and the child of a graph are stored, the
      second parent is not yet. Assigning the first parent crashes and leaves it running. */
  lemma SecondParentNotStored()
    ensures var a := Process(Waiting, false, "", false, [], ["c"]);
      var c := Process(Waiting, false, "", true, ["a", "b"], []);
      var w := World(map["a" := a, "c" := c], ["a", "b"], Waiting);
      && ResolveRetry(w.roots, w.store["a" := Assigned(w.store["a"], "e")], MAX_RETRIES).Crashed?
      && var after := Apply(w, Assign("a", "e"));
         "a" in after.store && after.store["a"].state == Running && after.graphState == Waiting
  {
    var a, c := Process(Waiting, false, "", false, [], ["c"]), Process(Waiting, false, "", true, ["a", "b"], []);
    var w := World(map["a" := a, "c" := c], ["a", "b"], Waiting);
    var s := w.store["a" := Assigned(a, "e")];
    assert s["a"].children + ["a", "b"][1..] == ["c", "b"] && s["c"].children + ["c", "b"][1..] == ["b"];
    assert [] + ["a"] == ["a"] && ["a"] + ["c"] == ["a", "c"];
    assert Traverse(s, ["b"], ["a", "c"]) == Missing("b", ["a", "c"]);
    assert Traverse(s, ["c", "b"], ["a"]) == Missing("b", ["a", "c"]);
    assert Visit(s, ["a", "b"]) == Missing("b", ["a", "c"]);
    assert ["a", "b"][1..] == ["b"] && MissingFirst(s, false, ["b"]);
    assert MissingFirst(s, false, ["a", "b"]) && CrashesIn(s, false, "c");
    assert ["a", "c"][1..] == ["c"] && Crashes(s, false, ["c"]);
    ResolveEndsIff(["a", "b"], s);
    CrashedAssignment(w, "a", "e");
  }
}
