/** Well-formed process graphs, and how adding a child changes them
    (pkg/core/processgraph.go, pkg/server/colonies_controller.go). */
module Workflow {
  import opened Collections
  import opened ProcessGraph
  import opened Resolve

  // ---------------------------------------------------------------- acyclicity

  ghost predicate Ranks(store: Store, rank: map<Id, nat>) {
    && store.Keys <= rank.Keys
    && forall x, p :: x in store && p in store[x].parents && p in store ==> rank[p] < rank[x]
  }

  ghost predicate Acyclic(store: Store) {
    exists rank :: Ranks(store, rank)
  }

  /** A nonempty ring of stored processes, each listing the next as a parent. */
  ghost predicate IsCycle(store: Store, c: seq<Id>) {
    && |c| > 0
    && (forall i :: 0 <= i < |c| ==> c[i] in store)
    && (forall i, j :: 0 <= i < |c| && j == (if i + 1 < |c| then i + 1 else 0) ==> c[j] in store[c[i]].parents)
  }

  lemma {:induction false} RankFallsAlong(store: Store, rank: map<Id, nat>, c: seq<Id>, i: nat)
    requires Ranks(store, rank) && IsCycle(store, c) && i < |c|
    ensures rank[c[i]] + i <= rank[c[0]]
  {
    if i > 0 { RankFallsAlong(store, rank, c, i - 1); }
  }

  /** Each element lists the next one as a parent, and all lie in `s`. */
  ghost predicate IsDescent(store: Store, s: set<Id>, p: seq<Id>) {
    && (forall i :: 0 <= i < |p| ==> p[i] in s && p[i] in store)
    && (forall i, j :: 0 <= i && j == i + 1 && j < |p| ==> p[j] in store[p[i]].parents)
  }

  ghost predicate HasParentIn(store: Store, s: set<Id>, x: Id) {
    x in store && exists y :: y in s && y in store[x].parents
  }

  lemma {:induction false} LongDescent(store: Store, s: set<Id>, n: nat) returns (p: seq<Id>)
    requires s != {} && s <= store.Keys
    requires forall x {:trigger HasParentIn(store, s, x)} :: x in s ==> HasParentIn(store, s, x)
    ensures |p| == n + 1 && IsDescent(store, s, p)
  {
    if n == 0 {
      var x :| x in s;
      p := [x];
    } else {
      var q := LongDescent(store, s, n - 1);
      var last := q[|q| - 1];
      assert HasParentIn(store, s, last);
      var y :| y in s && y in store[last].parents;
      p := q + [y];
      forall i, j | 0 <= i && j == i + 1 && j < |p| ensures p[j] in store[p[i]].parents {
        if j < |q| { assert q[j] in store[q[i]].parents; }
      }
    }
  }

  lemma {:induction false} DistinctFits(p: seq<Id>, s: set<Id>)
    requires Distinct(p) && forall x :: x in p ==> x in s
    ensures |p| <= |s|
  {
    if p != [] {
      var x := p[0];
      assert forall y :: y in p[1..] ==> y in s - {x} by {
        forall y | y in p[1..] ensures y in s - {x} {
          var i :| 0 <= i < |p[1..]| && p[1..][i] == y;
          assert p[i + 1] == y;
        }
      }
      DistinctFits(p[1..], s - {x});
    }
  }

  lemma DescentRepeats(store: Store, s: set<Id>, p: seq<Id>) returns (c: seq<Id>)
    requires IsDescent(store, s, p) && !Distinct(p)
    ensures IsCycle(store, c)
  {
    var i, j :| 0 <= i < j < |p| && p[i] == p[j];
    c := p[i..j];
    forall k, l | 0 <= k < |c| && l == (if k + 1 < |c| then k + 1 else 0) ensures c[l] in store[c[k]].parents {
      assert c[k] == p[i + k] && c[l] == p[i + k + 1];
    }
  }

  lemma SourceExists(store: Store, s: set<Id>) returns (m: Id)
    requires s != {} && s <= store.Keys
    requires !exists c :: IsCycle(store, c)
    ensures m in s && !HasParentIn(store, s, m)
  {
    if forall x {:trigger HasParentIn(store, s, x)} :: x in s ==> HasParentIn(store, s, x) {
      var p := LongDescent(store, s, |s|);
      if Distinct(p) { DistinctFits(p, s); }
      var c := DescentRepeats(store, s, p);
      assert false;
    } else {
      m :| m in s && !HasParentIn(store, s, m);
    }
  }

  lemma {:induction false} RankSubset(store: Store, s: set<Id>) returns (rank: map<Id, nat>)
    requires s <= store.Keys
    requires !exists c :: IsCycle(store, c)
    ensures rank.Keys == s
    ensures forall x, p :: x in s && p in s && p in store[x].parents ==> rank[p] < rank[x]
    decreases |s|
  {
    if s == {} {
      rank := map[];
    } else {
      var m := SourceExists(store, s);
      var r := RankSubset(store, s - {m});
      rank := map x | x in s :: if x == m then 0 else r[x] + 1;
    }
  }

  /** Having a ranking is the same as having no cycle of parent links. */
  lemma AcyclicIffNoCycle(store: Store)
    ensures Acyclic(store) <==> !exists c :: IsCycle(store, c)
  {
    if Acyclic(store) {
      var rank :| Ranks(store, rank);
      forall c | IsCycle(store, c) ensures false {
        var last := c[|c| - 1];
        assert c[0] in store[last].parents;
        RankFallsAlong(store, rank, c, |c| - 1);
      }
    } else if !exists c :: IsCycle(store, c) {
      var rank := RankSubset(store, store.Keys);
      assert Ranks(store, rank);
    }
  }

  // ---------------------------------------------------------------- well-formed graphs

  ghost predicate MutuallyInverse(store: Store) {
    && (forall x, y :: x in store && y in store[x].children ==> y in store && x in store[y].parents)
    && (forall x, y :: y in store && x in store[y].parents ==> x in store && y in store[x].children)
  }

  ghost predicate RootsAreParentless(store: Store, roots: seq<Id>) {
    && (forall r :: r in roots ==> r in store)
    && (forall x :: x in store ==> (x in roots <==> store[x].parents == []))
  }

  ghost predicate WellFormed(store: Store, roots: seq<Id>) {
    MutuallyInverse(store) && RootsAreParentless(store, roots) && Acyclic(store)
  }

  lemma {:induction false} StoredIsReachable(store: Store, roots: seq<Id>, rank: map<Id, nat>, x: Id)
    requires MutuallyInverse(store) && RootsAreParentless(store, roots) && Ranks(store, rank) && x in store
    ensures Reachable(store, roots, x)
    decreases rank[x]
  {
    if store[x].parents == [] {
      RootIsReachable(store, roots, x);
    } else {
      var p := store[x].parents[0];
      assert p in store[x].parents;
      StoredIsReachable(store, roots, rank, p);
      ChildIsReachable(store, roots, p, x);
    }
  }

  lemma StoredIffReachable(store: Store, roots: seq<Id>, x: Id)
    requires WellFormed(store, roots)
    ensures Reachable(store, roots, x) <==> x in store
  {
    if x in store {
      var rank :| Ranks(store, rank);
      StoredIsReachable(store, roots, rank, x);
    } else if Reachable(store, roots, x) {
      var p :| PathTo(store, roots, x, p);
      ClosedSetHoldsReachable(store, roots, store.Keys, x, p);
    }
  }

  lemma WellFormedIsComplete(store: Store, roots: seq<Id>)
    requires WellFormed(store, roots)
    ensures Complete(store, roots)
  {
    forall x | Reachable(store, roots, x) ensures x in store { StoredIffReachable(store, roots, x); }
  }

  lemma WellFormedParentsReachable(store: Store, roots: seq<Id>)
    requires WellFormed(store, roots)
    ensures ParentsReachable(store, roots)
  {
    forall x, p | Reachable(store, roots, x) && x in store && p in store[x].parents ensures Reachable(store, roots, p) {
      StoredIffReachable(store, roots, p);
    }
  }

  /** In a well-formed graph the walk from the roots reaches exactly the stored processes. */
  lemma WellFormedReachesAll(store: Store, roots: seq<Id>)
    requires WellFormed(store, roots)
    ensures Complete(store, roots) && ParentsReachable(store, roots)
    ensures ReachableSet(store, roots) == store.Keys
  {
    WellFormedIsComplete(store, roots);
    WellFormedParentsReachable(store, roots);
    var r := ReachableSet(store, roots);
    forall x | x in store ensures x in r { StoredIffReachable(store, roots, x); }
  }

  lemma WellFormedSameShape(a: Store, b: Store, roots: seq<Id>)
    requires WellFormed(a, roots) && SameShape(a, b)
    ensures WellFormed(b, roots)
  {
    var rank :| Ranks(a, rank);
    assert Ranks(b, rank);
    InverseSameShape(a, b);
  }

  lemma InverseSameShape(a: Store, b: Store)
    requires MutuallyInverse(a) && SameShape(a, b)
    ensures MutuallyInverse(b)
  {
    forall x, y | x in b && y in b[x].children ensures y in b && x in b[y].parents {
      assert y in a[x].children;
    }
    forall x, y | y in b && x in b[y].parents ensures x in b && y in b[x].children {
      assert x in a[y].parents;
    }
  }

  // ---------------------------------------------------------------- adding a process to a live graph

  function NewChild(parent: Id): Process {
    Process(Waiting, false, "", true, [parent], [])
  }

  function Without(ids: seq<Id>, x: Id): (r: seq<Id>)
    ensures forall y :: y in r <==> y in ids && y != x
  {
    if ids == [] then []
    else if ids[0] == x then Without(ids[1..], x)
    else [ids[0]] + Without(ids[1..], x)
  }

  /** The loop over the former children: the parent is replaced by the new process in each parent list.
      A missing child makes the code dereference a nil pointer, which ends the loop. */
  function Rewire(store: Store, parent: Id, newId: Id, kids: seq<Id>): Store {
    if kids == [] || kids[0] !in store then store
    else
      var kid := store[kids[0]];
      Rewire(store[kids[0] := kid.(parents := Without(kid.parents, parent) + [newId])], parent, newId, kids[1..])
  }

  function InsertChild(store: Store, parent: Id, newId: Id): Store
    requires parent in store
  {
    var kids := store[parent].children;
    var s := store[newId := NewChild(parent).(children := kids)];
    Rewire(s[parent := s[parent].(children := [newId])], parent, newId, kids)
  }

  function AppendChild(store: Store, parent: Id, newId: Id): Store
    requires parent in store
  {
    var s := store[newId := NewChild(parent)];
    s[parent := s[parent].(children := store[parent].children + [newId])]
  }

  /** Only the parents have changed: `parent` has been replaced by `newId`. */
  ghost predicate Rewired(before: Process, after: Process, parent: Id, newId: Id) {
    && after == before.(parents := after.parents)
    && forall p :: p in after.parents <==> p == newId || (p in before.parents && p != parent)
  }

  lemma {:induction false} RewireEffect(store: Store, parent: Id, newId: Id, kids: seq<Id>)
    requires parent != newId && forall k :: k in kids ==> k in store
    ensures var r := Rewire(store, parent, newId, kids);
      && r.Keys == store.Keys
      && forall x :: x in store ==> if x in kids then Rewired(store[x], r[x], parent, newId) else r[x] == store[x]
  {
    if kids != [] {
      var k := kids[0];
      var s := store[k := store[k].(parents := Without(store[k].parents, parent) + [newId])];
      assert forall x :: x in kids <==> x == k || x in kids[1..];
      RewireEffect(s, parent, newId, kids[1..]);
    }
  }

  /** After an insertion the former children depend on the parent only through the new process. */
  lemma InsertEffect(store: Store, roots: seq<Id>, parent: Id, newId: Id)
    requires WellFormed(store, roots) && parent in store && newId !in store
    ensures var r := InsertChild(store, parent, newId);
      var kids := store[parent].children;
      && r.Keys == store.Keys + {newId}
      && r[newId] == NewChild(parent).(children := kids)
      && r[parent] == store[parent].(children := [newId])
      && forall x :: x in store && x != parent ==>
          if x in kids then Rewired(store[x], r[x], parent, newId) else r[x] == store[x]
  {
    NotOwnChild(store, roots, parent);
    InsertRewires(store, parent, newId);
  }

  lemma InsertRewires(store: Store, parent: Id, newId: Id)
    requires parent in store && newId !in store && parent !in store[parent].children
    requires forall k :: k in store[parent].children ==> k in store
    ensures var r := InsertChild(store, parent, newId);
      var kids := store[parent].children;
      && r.Keys == store.Keys + {newId}
      && r[newId] == NewChild(parent).(children := kids)
      && r[parent] == store[parent].(children := [newId])
      && forall x :: x in store && x != parent ==>
          if x in kids then Rewired(store[x], r[x], parent, newId) else r[x] == store[x]
  {
    var kids := store[parent].children;
    var s := store[newId := NewChild(parent).(children := kids)];
    var s' := s[parent := s[parent].(children := [newId])];
    RewireEffect(s', parent, newId, kids);
  }

  lemma NotOwnChild(store: Store, roots: seq<Id>, x: Id)
    requires WellFormed(store, roots) && x in store
    ensures x !in store[x].children
  {
    var rank :| Ranks(store, rank);
  }

  lemma InsertChildToParent(store: Store, roots: seq<Id>, parent: Id, newId: Id, x: Id, y: Id)
    requires WellFormed(store, roots) && parent in store && newId !in store
    requires x in InsertChild(store, parent, newId) && y in InsertChild(store, parent, newId)[x].children
    ensures y in InsertChild(store, parent, newId) && x in InsertChild(store, parent, newId)[y].parents
  {
    InsertEffect(store, roots, parent, newId);
    NotOwnChild(store, roots, parent);
    if x != newId && x != parent { assert y in store[x].children; }
  }

  lemma InsertParentToChild(store: Store, roots: seq<Id>, parent: Id, newId: Id, x: Id, y: Id)
    requires WellFormed(store, roots) && parent in store && newId !in store
    requires y in InsertChild(store, parent, newId) && x in InsertChild(store, parent, newId)[y].parents
    ensures x in InsertChild(store, parent, newId) && y in InsertChild(store, parent, newId)[x].children
  {
    InsertEffect(store, roots, parent, newId);
    NotOwnChild(store, roots, parent);
    if y != newId && x != newId { assert x in store[y].parents; }
  }

  lemma InsertKeepsInverse(store: Store, roots: seq<Id>, parent: Id, newId: Id)
    requires WellFormed(store, roots) && parent in store && newId !in store
    ensures MutuallyInverse(InsertChild(store, parent, newId))
  {
    var r := InsertChild(store, parent, newId);
    forall x, y | x in r && y in r[x].children ensures y in r && x in r[y].parents {
      InsertChildToParent(store, roots, parent, newId, x, y);
    }
    forall x, y | y in r && x in r[y].parents ensures x in r && y in r[x].children {
      InsertParentToChild(store, roots, parent, newId, x, y);
    }
  }

  lemma InsertKeepsAcyclic(store: Store, roots: seq<Id>, parent: Id, newId: Id)
    requires WellFormed(store, roots) && parent in store && newId !in store
    ensures Acyclic(InsertChild(store, parent, newId))
  {
    var r := InsertChild(store, parent, newId);
    InsertEffect(store, roots, parent, newId);
    var rank :| Ranks(store, rank);
    var spread := Spread(store, rank, parent, newId);
    forall x, p | x in r && p in r[x].parents && p in r ensures spread[p] < spread[x] {
      SpreadEdge(store, roots, rank, parent, newId, x, p);
    }
    assert Ranks(r, spread);
  }

  /** Ranks with room for the new process just above the parent. */
  ghost function Spread(store: Store, rank: map<Id, nat>, parent: Id, newId: Id): map<Id, nat>
    requires store.Keys <= rank.Keys && parent in store
  {
    map x | x in store.Keys + {newId} :: if x == newId then 2 * rank[parent] + 1 else 2 * rank[x]
  }

  lemma SpreadEdge(store: Store, roots: seq<Id>, rank: map<Id, nat>, parent: Id, newId: Id, x: Id, p: Id)
    requires WellFormed(store, roots) && Ranks(store, rank) && parent in store && newId !in store
    requires x in InsertChild(store, parent, newId) && p in InsertChild(store, parent, newId)[x].parents
    requires x in store.Keys + {newId} && p in store.Keys + {newId}
    ensures Spread(store, rank, parent, newId)[p] < Spread(store, rank, parent, newId)[x]
  {
    InsertEffect(store, roots, parent, newId);
    NotOwnChild(store, roots, parent);
    if x == newId {
      assert p == parent;
    } else if p == newId {
      assert parent in store[x].parents;
    } else {
      assert p in store[x].parents;
    }
  }

  /** Insertion keeps the graph well formed: the lists stay mutually inverse, the roots stay the parentless
      processes and no cycle appears. */
  lemma InsertKeepsWellFormed(store: Store, roots: seq<Id>, parent: Id, newId: Id)
    requires WellFormed(store, roots) && parent in store && newId !in store
    ensures WellFormed(InsertChild(store, parent, newId), roots)
  {
    var r := InsertChild(store, parent, newId);
    InsertKeepsInverse(store, roots, parent, newId);
    InsertKeepsAcyclic(store, roots, parent, newId);
    InsertEffect(store, roots, parent, newId);
    forall x | x in r ensures x in roots <==> r[x].parents == [] {
      if x in store && x in store[parent].children {
        assert parent in store[x].parents && newId in r[x].parents;
      }
    }
  }

  lemma {:induction false} RewireKeepsKeys(store: Store, parent: Id, newId: Id, kids: seq<Id>)
    ensures Rewire(store, parent, newId, kids).Keys == store.Keys
    decreases |kids|
  {
    if kids != [] && kids[0] in store {
      var kid := store[kids[0]];
      RewireKeepsKeys(store[kids[0] := kid.(parents := Without(kid.parents, parent) + [newId])], parent, newId,
                      kids[1..]);
    }
  }

  lemma InsertAddsId(store: Store, parent: Id, newId: Id)
    requires parent in store
    ensures InsertChild(store, parent, newId).Keys == store.Keys + {newId}
  {
    var kids := store[parent].children;
    var s := store[newId := NewChild(parent).(children := kids)];
    RewireKeepsKeys(s[parent := s[parent].(children := [newId])], parent, newId, kids);
  }

  /** After an append the new process waits for the parent, is its last child, and nothing else has changed. */
  lemma AppendEffect(store: Store, parent: Id, newId: Id)
    requires parent in store && newId !in store
    ensures var r := AppendChild(store, parent, newId);
      && r.Keys == store.Keys + {newId}
      && r[newId] == Process(Waiting, false, "", true, [parent], [])
      && r[parent] == store[parent].(children := store[parent].children + [newId])
      && forall x :: x in store && x != parent ==> r[x] == store[x]
  {
  }

  lemma AppendKeepsInverse(store: Store, roots: seq<Id>, parent: Id, newId: Id)
    requires WellFormed(store, roots) && parent in store && newId !in store
    ensures MutuallyInverse(AppendChild(store, parent, newId))
  {
    var r := AppendChild(store, parent, newId);
    forall x, y | x in r && y in r[x].children ensures y in r && x in r[y].parents {
      if y != newId { assert y in store[x].children; }
    }
    forall x, y | y in r && x in r[y].parents ensures x in r && y in r[x].children {
      if y != newId { assert x in store[y].parents; }
    }
  }

  lemma AppendKeepsWellFormed(store: Store, roots: seq<Id>, parent: Id, newId: Id)
    requires WellFormed(store, roots) && parent in store && newId !in store
    ensures WellFormed(AppendChild(store, parent, newId), roots)
  {
    AppendKeepsInverse(store, roots, parent, newId);
    var r := AppendChild(store, parent, newId);
    var rank :| Ranks(store, rank);
    var rank' := rank[newId := rank[parent] + 1];
    forall x, p | x in r && p in r[x].parents && p in r ensures rank'[p] < rank'[x] {
      if x != newId { assert p in store[x].parents; }
    }
    assert Ranks(r, rank');
  }
}
