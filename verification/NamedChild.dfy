/** Append-mode `addChild` with a named existing child. The code checks neither the state of the named child nor
    whether it is an ancestor of the parent (pkg/server/colonies_controller.go); this module says exactly when the
    call keeps the invariant of a run. */
module NamedChild {
  import opened ProcessGraph
  import opened Resolve
  import opened Workflow
  import opened Runs

  /** The new process is linked below `parent` and above `child`. When the child is not stored, the links above it
      are already written when the code dereferences a nil pointer. */
  function AppendAbove(store: Store, parent: Id, newId: Id, child: Id): Store
    requires parent in store
  {
    var s := AppendChild(store, parent, newId);
    var t := s[newId := s[newId].(children := [child])];
    if child in t then t[child := t[child].(parents := t[child].parents + [newId])] else t
  }

  /** What a caller has to check first: the named child has parents, is neither the parent nor one of its ancestors,
      and has not been released. */
  ghost predicate SafeChild(store: Store, parent: Id, child: Id) {
    && child in store
    && store[child].parents != []
    && !Reachable(store, [child], parent)
    && (store[child].state == Failed || (store[child].state == Waiting && store[child].waitForParents))
  }

  lemma {:induction false} RankAlongPath(store: Store, rank: map<Id, nat>, p: seq<Id>)
    requires MutuallyInverse(store) && Ranks(store, rank) && IsPath(store, p) && p[0] in store
    ensures p[|p| - 1] in store && rank[p[0]] <= rank[p[|p| - 1]]
    decreases |p|
  {
    if |p| > 1 {
      var q := p[..|p| - 1];
      assert forall i :: 0 <= i < |q| ==> q[i] == p[i];
      RankAlongPath(store, rank, q);
      assert p[|p| - 2 + 1] in store[p[|p| - 2]].children;
    }
  }

  lemma PathSurvives(store: Store, parent: Id, newId: Id, child: Id, p: seq<Id>)
    requires parent in store && child in store && newId !in store && IsPath(store, p)
    ensures IsPath(AppendAbove(store, parent, newId, child), p)
  {
    var s := AppendAbove(store, parent, newId, child);
    forall i | 0 <= i < |p| - 1 ensures p[i] in s && p[i + 1] in s[p[i]].children {
      assert p[i + 1] in store[p[i]].children;
    }
  }

  lemma AncestorMakesCycle(store: Store, parent: Id, newId: Id, child: Id)
    requires parent in store && child in store && newId !in store && Reachable(store, [child], parent)
    requires MutuallyInverse(AppendAbove(store, parent, newId, child))
    ensures !Acyclic(AppendAbove(store, parent, newId, child))
  {
    var s := AppendAbove(store, parent, newId, child);
    var p :| PathTo(store, [child], parent, p);
    PathSurvives(store, parent, newId, child, p);
    forall rank | Ranks(s, rank) ensures false {
      assert parent in s[newId].parents && newId in s[child].parents;
      RankAlongPath(s, rank, p);
    }
  }

  lemma Descendants(store: Store, child: Id) returns (below: set<Id>)
    requires child in store
    ensures child in below
    ensures forall x, y :: x in below && x in store && y in store[x].children && y in store ==> y in below
    ensures forall x :: x in below ==> Reachable(store, [child], x)
  {
    below := set x | x in store && Reachable(store, [child], x);
    RootIsReachable(store, [child], child);
    forall x, y | x in below && x in store && y in store[x].children && y in store ensures y in below {
      ChildIsReachable(store, [child], x, y);
    }
  }

  /** Ranks for the extended graph: everything below the child is lifted above the new process. */
  ghost function Lifted(store: Store, rank: map<Id, nat>, below: set<Id>, parent: Id, newId: Id): map<Id, nat>
    requires store.Keys <= rank.Keys && parent in store
  {
    map x | x in store.Keys + {newId} ::
      if x == newId then rank[parent] + 1 else if x in below then rank[x] + rank[parent] + 2 else rank[x]
  }

  lemma LiftedEdge(store: Store, roots: seq<Id>, rank: map<Id, nat>, below: set<Id>, parent: Id, newId: Id, child: Id,
                   x: Id, p: Id)
    requires WellFormed(store, roots) && Ranks(store, rank) && parent in store && child in store && newId !in store
    requires child in below && parent !in below
    requires forall a, b :: a in below && a in store && b in store[a].children && b in store ==> b in below
    requires x in AppendAbove(store, parent, newId, child) && p in AppendAbove(store, parent, newId, child)[x].parents
    requires p in AppendAbove(store, parent, newId, child)
    ensures Lifted(store, rank, below, parent, newId)[p] < Lifted(store, rank, below, parent, newId)[x]
  {
    if x == newId {
      assert p == parent;
    } else if p == newId {
      NewIdAboveChild(store, roots, parent, newId, child, x);
    } else {
      assert p in store[x].parents && x in store[p].children && rank[p] < rank[x];
    }
  }

  lemma LiftedRanks(store: Store, roots: seq<Id>, parent: Id, newId: Id, child: Id, below: set<Id>)
    requires WellFormed(store, roots) && parent in store && child in store && newId !in store
    requires child in below && parent !in below
    requires forall x, y :: x in below && x in store && y in store[x].children && y in store ==> y in below
    ensures Acyclic(AppendAbove(store, parent, newId, child))
  {
    var s := AppendAbove(store, parent, newId, child);
    var rank :| Ranks(store, rank);
    var lifted := Lifted(store, rank, below, parent, newId);
    forall x, p | x in s && p in s[x].parents && p in s ensures lifted[p] < lifted[x] {
      LiftedEdge(store, roots, rank, below, parent, newId, child, x, p);
    }
    assert Ranks(s, lifted);
  }

  lemma NewIdAboveChild(store: Store, roots: seq<Id>, parent: Id, newId: Id, child: Id, x: Id)
    requires WellFormed(store, roots) && parent in store && child in store && newId !in store
    requires x in store && newId in AppendAbove(store, parent, newId, child)[x].parents
    ensures x == child
  {
    assert newId !in store[x].parents;
  }

  lemma NonAncestorKeepsAcyclic(store: Store, roots: seq<Id>, parent: Id, newId: Id, child: Id)
    requires WellFormed(store, roots) && parent in store && child in store && newId !in store
    requires !Reachable(store, [child], parent)
    ensures Acyclic(AppendAbove(store, parent, newId, child))
  {
    var below := Descendants(store, child);
    LiftedRanks(store, roots, parent, newId, child, below);
  }

  lemma AboveKeepsInverse(store: Store, roots: seq<Id>, parent: Id, newId: Id, child: Id)
    requires WellFormed(store, roots) && parent in store && child in store && newId !in store
    ensures MutuallyInverse(AppendAbove(store, parent, newId, child))
  {
    var s := AppendAbove(store, parent, newId, child);
    forall x, y | x in s && y in s[x].children ensures y in s && x in s[y].parents {
      if x != newId && y != newId { assert y in store[x].children; }
    }
    forall x, y | y in s && x in s[y].parents ensures x in s && y in s[x].children {
      if x != newId && y != newId { assert x in store[y].parents; }
    }
  }

  lemma AboveReadiness(w: World, parent: Id, newId: Id, child: Id, x: Id)
    requires Inv(w) && parent in w.store && w.store[parent].state == Running && newId !in w.store
    requires child in w.store && x in w.store
    ensures var s := AppendAbove(w.store, parent, newId, child);
      Ready(s, x) <==> x != child && Ready(w.store, x)
  {
    var s := AppendAbove(w.store, parent, newId, child);
    assert forall q :: q in w.store ==> s[q].state == w.store[q].state;
    if x == child {
      assert newId in s[x].parents;
    } else {
      assert s[x].parents == w.store[x].parents;
      assert forall q :: q in w.store[x].parents ==> q in w.store;
    }
  }

  lemma AboveProcessOk(w: World, parent: Id, newId: Id, child: Id, x: Id)
    requires Inv(w) && parent in w.store && w.store[parent].state == Running && newId !in w.store
    requires child in w.store
    requires w.store[child].state == Failed || (w.store[child].state == Waiting && w.store[child].waitForParents)
    requires x in AppendAbove(w.store, parent, newId, child)
    ensures NothingEarlyAt(AppendAbove(w.store, parent, newId, child), x)
    ensures ReleasedAt(AppendAbove(w.store, parent, newId, child), x)
  {
    var s := AppendAbove(w.store, parent, newId, child);
    if x == newId {
      assert parent in s[newId].parents;
    } else {
      AboveReadiness(w, parent, newId, child, x);
      assert NothingEarlyAt(w.store, x) && ReleasedAt(w.store, x);
    }
  }

  lemma AboveNothingEarly(w: World, parent: Id, newId: Id, child: Id)
    requires Inv(w) && parent in w.store && w.store[parent].state == Running && newId !in w.store
    requires child in w.store
    requires w.store[child].state == Failed || (w.store[child].state == Waiting && w.store[child].waitForParents)
    ensures var s := AppendAbove(w.store, parent, newId, child); NothingEarly(s) && ReleasedInTime(s)
  {
    var s := AppendAbove(w.store, parent, newId, child);
    forall x | x in s ensures NothingEarlyAt(s, x) && ReleasedAt(s, x) {
      AboveProcessOk(w, parent, newId, child, x);
    }
  }

  lemma AboveKeepsRoots(store: Store, roots: seq<Id>, parent: Id, newId: Id, child: Id)
    requires RootsAreParentless(store, roots) && parent in store && newId !in store
    requires child in store && store[child].parents != []
    ensures RootsAreParentless(AppendAbove(store, parent, newId, child), roots)
  {
    var s := AppendAbove(store, parent, newId, child);
    forall x | x in s ensures x in roots <==> s[x].parents == [] {
      if x == child { assert |s[x].parents| > 0; }
    }
  }

  lemma AboveKeepsGraphState(w: World, parent: Id, newId: Id, child: Id)
    requires Inv(w) && parent in w.store && w.store[parent].state == Running && newId !in w.store && child in w.store
    ensures var s := AppendAbove(w.store, parent, newId, child);
      (w.graphState == Failed ==> SomeFailed(s)) && (w.graphState == Success ==> AllSuccess(s))
  {
    GraphStateAfterGrowth(w, AppendAbove(w.store, parent, newId, child));
  }

  lemma AboveStaysCalm(w: World, parent: Id, newId: Id, child: Id)
    requires Inv(w) && parent in w.store && w.store[parent].state == Running && newId !in w.store && child in w.store
    ensures FailuresSpread(AppendAbove(w.store, parent, newId, child))
  {
    GrowthStaysCalm(w, AppendAbove(w.store, parent, newId, child), newId);
  }

  lemma SafeChildKeepsInv(w: World, parent: Id, newId: Id, child: Id)
    requires Inv(w) && parent in w.store && w.store[parent].state == Running && newId !in w.store
    requires SafeChild(w.store, parent, child)
    ensures Inv(w.(store := AppendAbove(w.store, parent, newId, child)))
  {
    AboveKeepsInverse(w.store, w.roots, parent, newId, child);
    NonAncestorKeepsAcyclic(w.store, w.roots, parent, newId, child);
    AboveNothingEarly(w, parent, newId, child);
    AboveStaysCalm(w, parent, newId, child);
    AboveKeepsRoots(w.store, w.roots, parent, newId, child);
    AboveKeepsGraphState(w, parent, newId, child);
  }

  lemma UnsafeChildBreaksInv(w: World, parent: Id, newId: Id, child: Id)
    requires Inv(w) && parent in w.store && w.store[parent].state == Running && newId !in w.store
    requires child in w.store && !SafeChild(w.store, parent, child)
    ensures !Inv(w.(store := AppendAbove(w.store, parent, newId, child)))
  {
    var s := AppendAbove(w.store, parent, newId, child);
    AboveKeepsInverse(w.store, w.roots, parent, newId, child);
    if Reachable(w.store, [child], parent) {
      AncestorMakesCycle(w.store, parent, newId, child);
    } else if w.store[child].parents == [] {
      assert child in w.roots && s[child].parents != [];
      assert !RootsAreParentless(s, w.roots);
    } else {
      AboveReadiness(w, parent, newId, child, child);
      assert !NothingEarlyAt(s, child);
    }
  }

  /** With a named child, append mode keeps the invariant of a run exactly when the child is safe. */
  lemma AppendAboveKeepsInvIff(w: World, parent: Id, newId: Id, executor: string, child: Id)
    requires Inv(w) && MayAddChild(w.store, parent, newId, executor) && child != newId
    ensures Inv(w.(store := AppendAbove(w.store, parent, newId, child))) <==> SafeChild(w.store, parent, child)
  {
    if child in w.store {
      if SafeChild(w.store, parent, child) { SafeChildKeepsInv(w, parent, newId, child); }
      else { UnsafeChildBreaksInv(w, parent, newId, child); }
    } else {
      var s := AppendAbove(w.store, parent, newId, child);
      assert child in s[newId].children && child !in s;
    }
  }

  /** A call that breaks it: the named child is another root, already released. */
  lemma AppendAboveReleasedRoot()
    ensures var a, b := Process(Running, true, "e", false, [], []), Process(Waiting, false, "", false, [], []);
      var w := World(map["a" := a, "b" := b], ["a", "b"], Running);
      && Inv(w) && MayAddChild(w.store, "a", "n", "e")
      && !Inv(w.(store := AppendAbove(w.store, "a", "n", "b")))
  {
    var a, b := Process(Running, true, "e", false, [], []), Process(Waiting, false, "", false, [], []);
    var w := World(map["a" := a, "b" := b], ["a", "b"], Running);
    assert Ranks(w.store, map["a" := 0, "b" := 0]);
    assert NothingEarlyAt(w.store, "a") && NothingEarlyAt(w.store, "b");
    AppendAboveKeepsInvIff(w, "a", "n", "e", "b");
  }
}
