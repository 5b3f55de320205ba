/** From a submitted specification to every run of it: an acyclic specification yields a well-formed graph, and all
    properties of runs hold from there on. */
module SubmittedRuns {
  import opened Collections
  import opened ProcessGraph
  import opened Resolve
  import opened Workflow
  import opened Runs
  import opened Submission

  ghost predicate SpecRanks(spec: seq<FunctionSpec>, rank: map<string, nat>) {
    && (forall i :: 0 <= i < |spec| ==> spec[i].nodeName in rank)
    && (forall i, d :: 0 <= i < |spec| && d in spec[i].dependencies && d in rank ==> rank[d] < rank[spec[i].nodeName])
  }

  ghost predicate SpecAcyclic(spec: seq<FunctionSpec>) {
    exists rank :: SpecRanks(spec, rank)
  }

  /** The parent links of a built graph are the dependencies of the specification. */
  lemma ParentIffDependency(spec: seq<FunctionSpec>, ids: seq<Id>, s: Store, roots: seq<Id>, i: nat, j: nat)
    requires Fresh(spec, ids) && NamesOk(spec) && Built(spec, ids, s, roots) && i < |spec| && j < |spec|
    ensures ids[i] in s && (ids[j] in s[ids[i]].parents <==> spec[j].nodeName in spec[i].dependencies)
  {
    assert RowBuilt(spec, ids, s, i);
    var p := s[ids[i]];
    if ids[j] in p.parents {
      var k :| 0 <= k < |p.parents| && p.parents[k] == ids[j];
      assert ParentBuilt(spec, ids, p, i, k);
    }
    if spec[j].nodeName in spec[i].dependencies {
      var k :| 0 <= k < |spec[i].dependencies| && spec[i].dependencies[k] == spec[j].nodeName;
      assert ParentBuilt(spec, ids, p, i, k);
    }
  }

  lemma ParentsAreStored(spec: seq<FunctionSpec>, ids: seq<Id>, s: Store, roots: seq<Id>, i: nat, x: Id)
    returns (j: nat)
    requires Fresh(spec, ids) && NamesOk(spec) && Built(spec, ids, s, roots) && i < |spec|
    requires ids[i] in s && x in s[ids[i]].parents
    ensures j < |spec| && ids[j] == x && spec[j].nodeName in spec[i].dependencies
  {
    assert RowBuilt(spec, ids, s, i);
    var k :| 0 <= k < |s[ids[i]].parents| && s[ids[i]].parents[k] == x;
    assert ParentBuilt(spec, ids, s[ids[i]], i, k);
    j :| 0 <= j < |spec| && spec[j].nodeName == spec[i].dependencies[k] && s[ids[i]].parents[k] == ids[j];
  }

  lemma ChildIffDependency(spec: seq<FunctionSpec>, ids: seq<Id>, s: Store, roots: seq<Id>, i: nat, j: nat)
    requires Fresh(spec, ids) && Built(spec, ids, s, roots) && i < |spec| && j < |spec|
    ensures ids[i] in s && (ids[j] in s[ids[i]].children <==> spec[i].nodeName in spec[j].dependencies)
  {
    assert ChildBuilt(spec, ids, s, i, j);
  }

  lemma BuiltIsInverse(spec: seq<FunctionSpec>, ids: seq<Id>, s: Store, roots: seq<Id>)
    requires Fresh(spec, ids) && NamesOk(spec) && Built(spec, ids, s, roots)
    ensures MutuallyInverse(s)
  {
    forall x, y | x in s && y in s[x].children ensures y in s && x in s[y].parents {
      var i :| 0 <= i < |ids| && ids[i] == x;
      assert RowBuilt(spec, ids, s, i);
      var j :| 0 <= j < |ids| && ids[j] == y;
      ChildIffDependency(spec, ids, s, roots, i, j);
      ParentIffDependency(spec, ids, s, roots, j, i);
    }
    forall x, y | y in s && x in s[y].parents ensures x in s && y in s[x].children {
      var j :| 0 <= j < |ids| && ids[j] == y;
      var i := ParentsAreStored(spec, ids, s, roots, j, x);
      ChildIffDependency(spec, ids, s, roots, i, j);
    }
  }

  lemma BuiltIsAcyclic(spec: seq<FunctionSpec>, ids: seq<Id>, s: Store, roots: seq<Id>)
    requires Fresh(spec, ids) && NamesOk(spec) && Built(spec, ids, s, roots) && SpecAcyclic(spec)
    ensures Acyclic(s)
  {
    var rank :| SpecRanks(spec, rank);
    var rankOf := map x | x in s :: rank[spec[IndexOf(ids, x)].nodeName];
    forall x, p | x in s && p in s[x].parents && p in s ensures rankOf[p] < rankOf[x] {
      var j := ParentsAreStored(spec, ids, s, roots, IndexOf(ids, x), p);
      assert IndexOf(ids, p) == j;
    }
    assert Ranks(s, rankOf);
  }

  ghost function IndexOf(ids: seq<Id>, x: Id): (i: nat)
    requires x in ids
    ensures i < |ids| && ids[i] == x
  {
    var i :| 0 <= i < |ids| && ids[i] == x; i
  }

  lemma BuiltRoots(spec: seq<FunctionSpec>, ids: seq<Id>, s: Store, roots: seq<Id>)
    requires Fresh(spec, ids) && Built(spec, ids, s, roots)
    ensures RootsAreParentless(s, roots)
  {
    forall x | x in s ensures x in roots <==> s[x].parents == [] {
      var i :| 0 <= i < |ids| && ids[i] == x;
      assert RowBuilt(spec, ids, s, i);
      if x in roots {
        var j :| 0 <= j < |spec| && ids[j] == x && spec[j].dependencies == [];
      }
    }
  }

  /** A graph built from an acyclic specification satisfies the invariant that every run keeps. */
  lemma SubmittedSatisfiesInv(spec: seq<FunctionSpec>, ids: seq<Id>, s: Store, roots: seq<Id>)
    requires Fresh(spec, ids) && NamesOk(spec) && Built(spec, ids, s, roots) && SpecAcyclic(spec)
    ensures Inv(World(s, roots, Waiting))
  {
    BuiltIsInverse(spec, ids, s, roots);
    BuiltIsAcyclic(spec, ids, s, roots);
    BuiltRoots(spec, ids, s, roots);
    BuiltIsNew(spec, ids, s, roots);
    NewIsInOrder(s);
  }

  lemma BuiltIsNew(spec: seq<FunctionSpec>, ids: seq<Id>, s: Store, roots: seq<Id>)
    requires Built(spec, ids, s, roots)
    ensures forall x :: x in s ==> IsNew(s[x])
  {
    forall x | x in s ensures IsNew(s[x]) {
      var i :| 0 <= i < |ids| && ids[i] == x;
      assert RowBuilt(spec, ids, s, i);
    }
  }

  /** A process as it is created: waiting, free, held back exactly when it has parents. */
  predicate IsNew(p: Process) {
    p.state == Waiting && !p.isAssigned && (p.waitForParents <==> p.parents != [])
  }

  lemma NewIsInOrder(s: Store)
    requires forall x :: x in s ==> IsNew(s[x])
    ensures NothingEarly(s) && ReleasedInTime(s) && FailuresSpread(s)
  {
    forall x | x in s ensures Ready(s, x) <==> s[x].parents == [] {
      if s[x].parents != [] {
        var p := s[x].parents[0];
        assert p in s[x].parents && (p in s ==> IsNew(s[p]));
      }
    }
    assert forall x, p :: x in s && p in s[x].parents && p in s ==> IsNew(s[p]);
  }

  /** `UpdateProcessIDs` on a graph built from an acyclic specification lists each created process exactly once. */
  lemma UpdateProcessIDsIsExact(spec: seq<FunctionSpec>, ids: seq<Id>, s: Store, roots: seq<Id>)
    requires Fresh(spec, ids) && NamesOk(spec) && Built(spec, ids, s, roots) && SpecAcyclic(spec)
    ensures var w := Visit(s, roots); w.Done? && Distinct(w.order) && Elems(w.order) == Elems(ids)
  {
    SubmittedSatisfiesInv(spec, ids, s, roots);
    var total := WellFormedWalk(s, roots);
    VisitIsExact(s, roots);
  }

  /** Every released or started process has only successful parents. */
  ghost predicate InOrder(s: Store) {
    forall x, p :: x in s && p in s[x].parents && StartedOrReleased(s[x]) ==> p in s && s[p].state == Success
  }

  lemma RunsAreInOrder(w: World, steps: seq<Step>)
    requires Inv(w)
    ensures InOrder(Execute(w, steps).store)
  {
    RunKeepsInv(w, steps);
    NothingEarlyIsInOrder(Execute(w, steps).store);
  }

  lemma NothingEarlyIsInOrder(s: Store)
    requires NothingEarly(s)
    ensures InOrder(s)
  {
    forall x, p | x in s && p in s[x].parents && StartedOrReleased(s[x]) ensures p in s && s[p].state == Success {
      assert NothingEarlyAt(s, x) && Ready(s, x);
    }
  }

  /** Dependency order, no deadlock and completability for every run of an accepted acyclic specification: whatever has
      happened, everything that has not failed can still succeed. */
  lemma SubmittedRunsAreSafe(spec: seq<FunctionSpec>, ids: seq<Id>, s: Store, roots: seq<Id>, steps: seq<Step>)
    requires Fresh(spec, ids) && NamesOk(spec) && Built(spec, ids, s, roots) && SpecAcyclic(spec)
    ensures var w := Execute(World(s, roots, Waiting), steps);
      && InOrder(w.store)
      && (AllFinished(w.store) || CanContinue(w.store))
      && exists more :: AllFinished(Execute(w, more).store) && SameFailures(w.store, Execute(w, more).store)
  {
    var w0 := World(s, roots, Waiting);
    SubmittedSatisfiesInv(spec, ids, s, roots);
    RunKeepsInv(w0, steps);
    var w := Execute(w0, steps);
    RunsAreInOrder(w0, steps);
    NoDeadlockInv(w);
    var more := CanFinish(w);
  }
}
