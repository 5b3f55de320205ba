/** Building a process graph from a workflow specification
    (pkg/server/colonies_controller.go `createProcessGraph`, pkg/server/verification.go). */
module Submission {
  import opened Collections
  import opened ProcessGraph

  datatype FunctionSpec = FunctionSpec(nodeName: string, dependencies: seq<string>)

  datatype Error = MissingNodeName | DuplicateNodeName | UnknownDependency

  /** A process while the graph is being built: what its function spec fixes, and its links. */
  datatype Node = Node(id: Id, dependencies: seq<string>, waitForParents: bool)

  datatype Links = Links(parents: seq<Id>, children: seq<Id>)

  ghost predicate HasName(spec: seq<FunctionSpec>, n: string) {
    exists i :: 0 <= i < |spec| && spec[i].nodeName == n
  }

  ghost predicate NamesOk(spec: seq<FunctionSpec>) {
    && (forall i :: 0 <= i < |spec| ==> spec[i].nodeName != "")
    && (forall i, j :: 0 <= i < j < |spec| ==> spec[i].nodeName != spec[j].nodeName)
  }

  ghost predicate DependenciesOk(spec: seq<FunctionSpec>) {
    forall i, d :: 0 <= i < |spec| && d in spec[i].dependencies ==> HasName(spec, d)
  }

  // ---------------------------------------------------------------- VerifyWorkflowSpec

  /** A function spec that a later one with the same node name hides from the check. */
  ghost predicate Hidden(spec: seq<FunctionSpec>, i: nat) requires i < |spec| {
    exists j :: i < j < |spec| && spec[j].nodeName == spec[i].nodeName
  }

  ghost predicate Accepted(spec: seq<FunctionSpec>) {
    forall i, d :: 0 <= i < |spec| && !Hidden(spec, i) && d in spec[i].dependencies ==> HasName(spec, d)
  }

  /** Each name met in the first `i` function specs, with the last index it was met at. */
  ghost predicate LastIndices(spec: seq<FunctionSpec>, i: nat, last: map<string, nat>) {
    && i <= |spec|
    && (forall j :: 0 <= j < i ==> spec[j].nodeName in last)
    && (forall n :: n in last ==> last[n] < i && spec[last[n]].nodeName == n)
    && (forall n, j :: n in last && last[n] < j < i ==> spec[j].nodeName != n)
  }

  method CollectNames(spec: seq<FunctionSpec>) returns (last: map<string, nat>)
    ensures LastIndices(spec, |spec|, last)
  {
    last := map[];
    for i := 0 to |spec|
      invariant LastIndices(spec, i, last)
    {
      last := last[spec[i].nodeName := i];
    }
  }

  method KnownDependencies(dependencies: seq<string>, last: map<string, nat>) returns (ok: bool)
    ensures ok <==> forall d :: d in dependencies ==> d in last
  {
    for k := 0 to |dependencies|
      invariant forall d :: d in dependencies[..k] ==> d in last
    {
      if dependencies[k] !in last { return false; }
    }
    ok := true;
  }

  method VerifyWorkflowSpec(spec: seq<FunctionSpec>) returns (ok: bool)
    ensures ok <==> Accepted(spec)
  {
    var last := CollectNames(spec);
    assert forall d :: HasName(spec, d) <==> d in last;
    var todo := last.Keys;
    while todo != {}
      invariant todo <= last.Keys
      invariant forall n, d :: n in last.Keys - todo && d in spec[last[n]].dependencies ==> d in last
    {
      var n :| n in todo;
      ok := KnownDependencies(spec[last[n]].dependencies, last);
      if !ok {
        assert !Hidden(spec, last[n]);
        return;
      }
      todo := todo - {n};
    }
    forall i, d | 0 <= i < |spec| && !Hidden(spec, i) && d in spec[i].dependencies ensures HasName(spec, d) {
      assert last[spec[i].nodeName] == i && spec[i].nodeName in last.Keys - todo;
    }
    ok := true;
  }

  /** For an accepted specification with proper names no dependency is unknown, so the failure that comes after the
      graph has been stored cannot occur. */
  lemma AcceptedHasNoUnknownDependency(spec: seq<FunctionSpec>)
    requires NamesOk(spec)
    ensures Accepted(spec) <==> DependenciesOk(spec)
  {
    forall i | 0 <= i < |spec| ensures !Hidden(spec, i) { }
  }

  // ---------------------------------------------------------------- createProcessGraph

  /** The process graphs, by their root ids, and the processes. */
  class Tables {
    var graphs: map<Id, seq<Id>>
    var processes: Store

    constructor ()
      ensures graphs == map[] && processes == map[]
    {
      graphs, processes := map[], map[];
    }
  }

  ghost predicate DistinctIds(nodes: map<string, Node>) {
    forall m, n :: m in nodes && n in nodes && m != n ==> nodes[m].id != nodes[n].id
  }

  /** `parents` lists the ids of the named nodes, in order. */
  ghost predicate NamedBy(nodes: map<string, Node>, names: seq<string>, parents: seq<Id>) {
    |parents| == |names| && forall i :: 0 <= i < |names| ==> names[i] in nodes && parents[i] == nodes[names[i]].id
  }

  ghost predicate ParentsOf(nodes: map<string, Node>, links: map<string, Links>, seen: map<string, seq<string>>,
                            m: string)
  {
    m in links && m in seen && NamedBy(nodes, seen[m], links[m].parents)
  }

  ghost predicate ParentsNamed(nodes: map<string, Node>, links: map<string, Links>, seen: map<string, seq<string>>) {
    forall m {:trigger ParentsOf(nodes, links, seen, m)} :: m in nodes ==> ParentsOf(nodes, links, seen, m)
  }

  /** `m` occurs among the children of `n` as often as `n` occurs among the processed dependencies of `m`. */
  ghost predicate CountOf(nodes: map<string, Node>, links: map<string, Links>, seen: map<string, seq<string>>,
                          n: string, m: string)
  {
    && n in links && m in nodes && m in seen
    && multiset(links[n].children)[nodes[m].id] == multiset(seen[m])[n]
  }

  ghost predicate ChildrenCounted(nodes: map<string, Node>, links: map<string, Links>, seen: map<string, seq<string>>) {
    forall n, m {:trigger CountOf(nodes, links, seen, n, m)} ::
      n in nodes && m in nodes ==> CountOf(nodes, links, seen, n, m)
  }

  ghost predicate ChildrenOwned(links: map<string, Links>, ids: seq<Id>) {
    forall n, c :: n in links && c in links[n].children ==> c in ids
  }

  /** How the links look once the dependencies in `seen` have been processed, in whatever order. */
  ghost predicate Linking(nodes: map<string, Node>, links: map<string, Links>, ids: seq<Id>,
                          seen: map<string, seq<string>>)
  {
    && links.Keys == nodes.Keys && seen.Keys == nodes.Keys
    && ParentsNamed(nodes, links, seen) && ChildrenCounted(nodes, links, seen) && ChildrenOwned(links, ids)
  }

  function Link(nodes: map<string, Node>, links: map<string, Links>, cur: string, d: string): map<string, Links>
    requires links.Keys == nodes.Keys && cur in nodes && d in nodes
  {
    var a := links[cur := links[cur].(parents := links[cur].parents + [nodes[d].id])];
    a[d := a[d].(children := a[d].children + [nodes[cur].id])]
  }

  lemma LinkCounts(nodes: map<string, Node>, links: map<string, Links>, seen: map<string, seq<string>>,
                   cur: string, d: string, n: string, m: string)
    requires links.Keys == nodes.Keys && seen.Keys == nodes.Keys && DistinctIds(nodes)
    requires cur in nodes && d in nodes && n in nodes && m in nodes
    requires CountOf(nodes, links, seen, n, m)
    ensures CountOf(nodes, Link(nodes, links, cur, d), seen[cur := seen[cur] + [d]], n, m)
  {
    var s := seen[cur := seen[cur] + [d]];
    assert Link(nodes, links, cur, d)[n].children
        == if n == d then links[n].children + [nodes[cur].id] else links[n].children;
    assert s[m] == if m == cur then seen[m] + [d] else seen[m];
  }

  lemma LinkParents(nodes: map<string, Node>, links: map<string, Links>, seen: map<string, seq<string>>,
                    cur: string, d: string, m: string)
    requires links.Keys == nodes.Keys && seen.Keys == nodes.Keys && cur in nodes && d in nodes && m in nodes
    requires ParentsOf(nodes, links, seen, m)
    ensures ParentsOf(nodes, Link(nodes, links, cur, d), seen[cur := seen[cur] + [d]], m)
  {
    if m == cur {
      assert NamedBy(nodes, seen[cur] + [d], links[cur].parents + [nodes[d].id]);
    }
  }

  lemma LinkOwned(nodes: map<string, Node>, links: map<string, Links>, ids: seq<Id>, cur: string, d: string)
    requires links.Keys == nodes.Keys && cur in nodes && d in nodes && nodes[cur].id in ids
    requires ChildrenOwned(links, ids)
    ensures ChildrenOwned(Link(nodes, links, cur, d), ids)
  {
    var l := Link(nodes, links, cur, d);
    forall n, c | n in l && c in l[n].children ensures c in ids {
      assert c in links[n].children || c == nodes[cur].id;
    }
  }

  lemma LinkStep(nodes: map<string, Node>, links: map<string, Links>, ids: seq<Id>, seen: map<string, seq<string>>,
                 cur: string, d: string)
    requires DistinctIds(nodes) && Linking(nodes, links, ids, seen)
    requires cur in nodes && d in nodes && nodes[cur].id in ids
    ensures Linking(nodes, Link(nodes, links, cur, d), ids, seen[cur := seen[cur] + [d]])
  {
    LinkOwned(nodes, links, ids, cur, d);
    var l, s := Link(nodes, links, cur, d), seen[cur := seen[cur] + [d]];
    forall m | m in nodes ensures ParentsOf(nodes, l, s, m) {
      assert ParentsOf(nodes, links, seen, m);
      LinkParents(nodes, links, seen, cur, d, m);
    }
    forall n, m | n in nodes && m in nodes ensures CountOf(nodes, l, s, n, m) {
      assert CountOf(nodes, links, seen, n, m);
      LinkCounts(nodes, links, seen, cur, d, n, m);
    }
  }

  ghost predicate Fresh(spec: seq<FunctionSpec>, ids: seq<Id>) {
    |ids| == |spec| && Distinct(ids)
  }

  function StartNode(id: Id, f: FunctionSpec): Node {
    Node(id, f.dependencies, f.dependencies != [])
  }

  /** The nodes as the first loop leaves them, after the first `i` function specs. */
  ghost predicate Collected(spec: seq<FunctionSpec>, ids: seq<Id>, i: nat, nodes: map<string, Node>) {
    && |ids| == |spec| && i <= |spec|
    && NamesOk(spec[..i])
    && (forall j :: 0 <= j < i ==> spec[j].nodeName in nodes && nodes[spec[j].nodeName] == StartNode(ids[j], spec[j]))
    && (forall n :: n in nodes ==> HasName(spec[..i], n))
  }

  ghost predicate RootsCollected(spec: seq<FunctionSpec>, ids: seq<Id>, i: nat, roots: seq<Id>) {
    && |ids| == |spec| && i <= |spec|
    && (forall j :: 0 <= j < i && spec[j].dependencies == [] ==> ids[j] in roots)
    && (forall r :: r in roots ==> exists j :: 0 <= j < i && ids[j] == r && spec[j].dependencies == [])
  }

  /** The `k`-th parent of the `i`-th process is the process named by its `k`-th dependency. */
  ghost predicate ParentBuilt(spec: seq<FunctionSpec>, ids: seq<Id>, p: Process, i: nat, k: nat)
    requires |ids| == |spec| && i < |spec|
  {
    && k < |spec[i].dependencies| && k < |p.parents|
    && exists j :: 0 <= j < |spec| && spec[j].nodeName == spec[i].dependencies[k] && p.parents[k] == ids[j]
  }

  /** A new process: waiting, free, and held back exactly when it has dependencies. */
  ghost predicate RowBuilt(spec: seq<FunctionSpec>, ids: seq<Id>, s: Store, i: nat)
    requires |ids| == |spec| && i < |spec|
  {
    && ids[i] in s
    && s[ids[i]].state == Waiting && !s[ids[i]].isAssigned
    && s[ids[i]].waitForParents == (spec[i].dependencies != [])
    && |s[ids[i]].parents| == |spec[i].dependencies|
    && (forall k :: 0 <= k < |spec[i].dependencies| ==> ParentBuilt(spec, ids, s[ids[i]], i, k))
    && (forall c :: c in s[ids[i]].children ==> c in ids)
  }

  /** The `j`-th process occurs among the children of the `i`-th as often as it lists it as a dependency. */
  ghost predicate ChildBuilt(spec: seq<FunctionSpec>, ids: seq<Id>, s: Store, i: nat, j: nat)
    requires |ids| == |spec| && i < |spec| && j < |spec|
  {
    ids[i] in s && multiset(s[ids[i]].children)[ids[j]] == multiset(spec[j].dependencies)[spec[i].nodeName]
  }

  /** The stored graph has exactly the dependency relation of the specification, with multiplicities. */
  ghost predicate Built(spec: seq<FunctionSpec>, ids: seq<Id>, s: Store, roots: seq<Id>) {
    && |ids| == |spec| && s.Keys == Elems(ids)
    && (forall i {:trigger RowBuilt(spec, ids, s, i)} :: 0 <= i < |spec| ==> RowBuilt(spec, ids, s, i))
    && (forall i, j {:trigger ChildBuilt(spec, ids, s, i, j)} ::
          0 <= i < |spec| && 0 <= j < |spec| ==> ChildBuilt(spec, ids, s, i, j))
    && RootsCollected(spec, ids, |spec|, roots)
  }

  /** The ids of the processes without dependencies among the first `i`, in order. */
  function RootIds(spec: seq<FunctionSpec>, ids: seq<Id>, i: nat): seq<Id>
    requires i <= |spec| == |ids|
  {
    if i == 0 then [] else RootIds(spec, ids, i - 1) + (if spec[i - 1].dependencies == [] then [ids[i - 1]] else [])
  }

  lemma {:induction false} RootIdsMeaning(spec: seq<FunctionSpec>, ids: seq<Id>, i: nat)
    requires i <= |spec| == |ids|
    ensures RootsCollected(spec, ids, i, RootIds(spec, ids, i))
  {
    if i > 0 { RootIdsMeaning(spec, ids, i - 1); }
  }

  /** The name of the current function spec is missing or has been used before. */
  lemma BadName(spec: seq<FunctionSpec>, ids: seq<Id>, i: nat, nodes: map<string, Node>)
    requires Collected(spec, ids, i, nodes) && i < |spec|
    requires spec[i].nodeName == "" || spec[i].nodeName in nodes
    ensures FirstBadName(spec, i) && !NamesOk(spec)
  {
    assert spec[..i + 1][i] == spec[i] && spec[..i + 1][..i] == spec[..i];
    if spec[i].nodeName in nodes {
      assert HasName(spec[..i], spec[i].nodeName);
      var j :| 0 <= j < i && spec[..i][j].nodeName == spec[i].nodeName;
      assert spec[j].nodeName == spec[i].nodeName && spec[..i + 1][j] == spec[j];
    }
  }

  /** The names are in order up to the `i`-th function spec, whose name is missing or used before. */
  ghost predicate FirstBadName(spec: seq<FunctionSpec>, i: nat) {
    i < |spec| && NamesOk(spec[..i]) && !NamesOk(spec[..i + 1])
  }

  /** The error for the first name that is not in order. */
  ghost predicate IsNameError(spec: seq<FunctionSpec>, e: Error) {
    exists i: nat :: FirstBadName(spec, i)
      && e == if spec[i].nodeName == "" then MissingNodeName else DuplicateNodeName
  }

  method CollectNodes(spec: seq<FunctionSpec>, ids: seq<Id>)
    returns (err: Option<Error>, nodes: map<string, Node>, roots: seq<Id>)
    requires Fresh(spec, ids)
    ensures err.None? <==> NamesOk(spec)
    ensures err.Some? ==> IsNameError(spec, err.value)
    ensures err.None? ==> Collected(spec, ids, |spec|, nodes) && roots == RootIds(spec, ids, |spec|)
  {
    nodes, roots, err := map[], [], None;
    NothingCollected(spec, ids);
    var i := 0;
    while i < |spec|
      invariant err.None? && i <= |spec| && Collected(spec, ids, i, nodes) && roots == RootIds(spec, ids, i)
    {
      err, nodes, roots := CollectOne(spec, ids, i, nodes, roots);
      if err.Some? { return; }
      i := i + 1;
    }
    NamesWereOk(spec, ids, nodes);
  }

  /** One round of the loop: the node of the `i`-th function spec. */
  method CollectOne(spec: seq<FunctionSpec>, ids: seq<Id>, i: nat, nodes0: map<string, Node>, roots0: seq<Id>)
    returns (err: Option<Error>, nodes: map<string, Node>, roots: seq<Id>)
    requires i < |spec| && Collected(spec, ids, i, nodes0) && roots0 == RootIds(spec, ids, i)
    ensures err.None? ==> Collected(spec, ids, i + 1, nodes) && roots == RootIds(spec, ids, i + 1)
    ensures err.Some? ==> !NamesOk(spec) && IsNameError(spec, err.value)
  {
    nodes, roots := nodes0, roots0;
    var f := spec[i];
    if f.nodeName == "" {
      BadName(spec, ids, i, nodes);
      return Some(MissingNodeName), nodes, roots;
    }
    if f.dependencies == [] { roots := roots + [ids[i]]; }
    if f.nodeName in nodes {
      BadName(spec, ids, i, nodes);
      return Some(DuplicateNodeName), nodes, roots;
    }
    CollectStep(spec, ids, i, nodes);
    nodes := nodes[f.nodeName := StartNode(ids[i], f)];
    err := None;
  }

  lemma NothingCollected(spec: seq<FunctionSpec>, ids: seq<Id>)
    requires |ids| == |spec|
    ensures Collected(spec, ids, 0, map[])
  {
  }

  lemma CollectStep(spec: seq<FunctionSpec>, ids: seq<Id>, i: nat, nodes: map<string, Node>)
    requires Collected(spec, ids, i, nodes) && i < |spec|
    requires spec[i].nodeName != "" && spec[i].nodeName !in nodes
    ensures Collected(spec, ids, i + 1, nodes[spec[i].nodeName := StartNode(ids[i], spec[i])])
  {
    assert spec[..i + 1] == spec[..i] + [spec[i]];
    forall n | HasName(spec[..i], n) ensures HasName(spec[..i + 1], n) {
      var j :| 0 <= j < i && spec[..i][j].nodeName == n;
      assert spec[..i + 1][j].nodeName == n;
    }
    assert spec[..i + 1][i].nodeName == spec[i].nodeName;
  }

  lemma LinkPrefix(nodes: map<string, Node>, links: map<string, Links>, ids: seq<Id>, seen0: map<string, seq<string>>,
                   cur: string, deps: seq<string>, k: nat)
    requires DistinctIds(nodes) && cur in nodes && nodes[cur].id in ids && k < |deps| && deps[k] in nodes
    requires Linking(nodes, links, ids, seen0[cur := deps[..k]])
    ensures Linking(nodes, Link(nodes, links, cur, deps[k]), ids, seen0[cur := deps[..k + 1]])
  {
    var seen := seen0[cur := deps[..k]];
    LinkStep(nodes, links, ids, seen, cur, deps[k]);
    assert deps[..k + 1] == deps[..k] + [deps[k]];
    assert seen[cur := seen[cur] + [deps[k]]] == seen0[cur := deps[..k + 1]];
  }

  /** Every dependency of the node is a node. */
  ghost predicate Known(nodes: map<string, Node>, n: string)
    requires n in nodes
  {
    forall d :: d in nodes[n].dependencies ==> d in nodes
  }

  /** The loop over the dependencies of one process. */
  method LinkOne(nodes: map<string, Node>, links0: map<string, Links>, cur: string, ghost ids: seq<Id>,
                 ghost seen0: map<string, seq<string>>)
    returns (ok: bool, links: map<string, Links>)
    requires DistinctIds(nodes) && Linking(nodes, links0, ids, seen0)
    requires cur in nodes && nodes[cur].id in ids && seen0[cur] == []
    ensures ok <==> Known(nodes, cur)
    ensures ok ==> Linking(nodes, links, ids, seen0[cur := nodes[cur].dependencies])
  {
    links := links0;
    var deps := nodes[cur].dependencies;
    assert seen0[cur := deps[..0]] == seen0;
    for k := 0 to |deps|
      invariant Linking(nodes, links, ids, seen0[cur := deps[..k]])
      invariant forall d :: d in deps[..k] ==> d in nodes
    {
      if deps[k] !in nodes { return false, links; }
      LinkPrefix(nodes, links, ids, seen0, cur, deps, k);
      links := Link(nodes, links, cur, deps[k]);
    }
    assert deps[..|deps|] == deps;
    ok := true;
  }

  /** The processed dependencies when the nodes in `todo` are still to come. */
  ghost function Processed(nodes: map<string, Node>, todo: set<string>): (r: map<string, seq<string>>)
    ensures r.Keys == nodes.Keys
  {
    map n | n in nodes :: if n in todo then [] else nodes[n].dependencies
  }

  lemma ProcessedStep(nodes: map<string, Node>, todo: set<string>, cur: string)
    requires cur in nodes
    ensures Processed(nodes, todo)[cur := nodes[cur].dependencies] == Processed(nodes, todo - {cur})
  {
  }

  lemma NothingLinked(nodes: map<string, Node>, links: map<string, Links>, ids: seq<Id>)
    requires links.Keys == nodes.Keys && forall n :: n in links ==> links[n] == Links([], [])
    ensures Linking(nodes, links, ids, Processed(nodes, nodes.Keys))
  {
    var seen := Processed(nodes, nodes.Keys);
    forall n, m | n in nodes && m in nodes ensures CountOf(nodes, links, seen, n, m) {
      assert multiset(links[n].children) == multiset{} && multiset(seen[m]) == multiset{};
    }
  }

  /** All nodes outside `todo` have been linked to their parents. */
  ghost predicate LinkedExcept(nodes: map<string, Node>, links: map<string, Links>, ids: seq<Id>, todo: set<string>) {
    && Linking(nodes, links, ids, Processed(nodes, todo))
    && forall n :: n in nodes && n !in todo ==> Known(nodes, n)
  }

  lemma LinkedStep(nodes: map<string, Node>, links: map<string, Links>, ids: seq<Id>, todo: set<string>, cur: string)
    requires cur in nodes && Linking(nodes, links, ids, Processed(nodes, todo)[cur := nodes[cur].dependencies])
    requires Known(nodes, cur) && forall n :: n in nodes && n !in todo ==> Known(nodes, n)
    ensures LinkedExcept(nodes, links, ids, todo - {cur})
  {
    ProcessedStep(nodes, todo, cur);
  }

  /** Links every process to the processes it depends on, in whatever order the map is walked. */
  method LinkNodes(nodes: map<string, Node>, ghost ids: seq<Id>) returns (ok: bool, links: map<string, Links>)
    requires DistinctIds(nodes) && forall n :: n in nodes ==> nodes[n].id in ids
    ensures ok <==> forall n :: n in nodes ==> Known(nodes, n)
    ensures ok ==> Linking(nodes, links, ids, Processed(nodes, {}))
  {
    links := map n | n in nodes :: Links([], []);
    NothingLinked(nodes, links, ids);
    ok := true;
    var todo := nodes.Keys;
    while todo != {}
      invariant ok && todo <= nodes.Keys && LinkedExcept(nodes, links, ids, todo)
    {
      var cur :| cur in todo;
      ok, links := LinkOne(nodes, links, cur, ids, Processed(nodes, todo));
      if !ok { return; }
      LinkedStep(nodes, links, ids, todo, cur);
      todo := todo - {cur};
    }
  }

  // ---------------------------------------------------------------- writing the processes

  function ToProcess(n: Node, l: Links): Process {
    Process(Waiting, false, "", n.waitForParents, l.parents, l.children)
  }

  /** The rows after the processes named in `names` have been added to `before`. */
  ghost predicate Written(nodes: map<string, Node>, links: map<string, Links>, ids: seq<Id>, names: set<string>,
                          before: Store, after: Store)
  {
    && (forall n :: n in names && n in nodes && n in links ==>
          nodes[n].id in after && after[nodes[n].id] == ToProcess(nodes[n], links[n]))
    && (forall x :: x in before ==> x in after && after[x] == before[x])
    && (forall x :: x in after && x !in before ==> x in ids)
  }

  lemma NodeOfName(spec: seq<FunctionSpec>, ids: seq<Id>, nodes: map<string, Node>, n: string) returns (j: nat)
    requires Fresh(spec, ids) && Collected(spec, ids, |spec|, nodes) && n in nodes
    ensures j < |spec| && spec[j].nodeName == n && nodes[n] == StartNode(ids[j], spec[j])
  {
    assert spec[..|spec|] == spec;
    assert HasName(spec, n);
    j :| 0 <= j < |spec| && spec[j].nodeName == n;
  }

  lemma CollectedFacts(spec: seq<FunctionSpec>, ids: seq<Id>, nodes: map<string, Node>)
    requires Fresh(spec, ids) && Collected(spec, ids, |spec|, nodes)
    ensures NamesOk(spec) && DistinctIds(nodes)
    ensures forall n :: n in nodes ==> nodes[n].id in ids
    ensures forall n :: HasName(spec, n) <==> n in nodes
    ensures (forall n, d :: n in nodes && d in nodes[n].dependencies ==> d in nodes) <==> DependenciesOk(spec)
  {
    assert spec[..|spec|] == spec;
    forall n | n in nodes ensures nodes[n].id in ids {
      var j := NodeOfName(spec, ids, nodes, n);
    }
    forall m, n | m in nodes && n in nodes && m != n ensures nodes[m].id != nodes[n].id {
      var i := NodeOfName(spec, ids, nodes, m);
      var j := NodeOfName(spec, ids, nodes, n);
    }
    if DependenciesOk(spec) {
      forall n, d | n in nodes && d in nodes[n].dependencies ensures d in nodes {
        var j := NodeOfName(spec, ids, nodes, n);
        assert d in spec[j].dependencies && HasName(spec, d);
      }
    }
    if forall n, d :: n in nodes && d in nodes[n].dependencies ==> d in nodes {
      forall i, d | 0 <= i < |spec| && d in spec[i].dependencies ensures HasName(spec, d) {
        assert d in nodes[spec[i].nodeName].dependencies;
      }
    }
  }

  lemma WriteStep(nodes: map<string, Node>, links: map<string, Links>, ids: seq<Id>, names: set<string>,
                  before: Store, after: Store, n: string)
    requires links.Keys == nodes.Keys && n in nodes && DistinctIds(nodes)
    requires nodes[n].id !in before && nodes[n].id in ids
    requires Written(nodes, links, ids, names, before, after)
    ensures Written(nodes, links, ids, names + {n}, before, after[nodes[n].id := ToProcess(nodes[n], links[n])])
  {
  }

  lemma RowOf(spec: seq<FunctionSpec>, ids: seq<Id>, nodes: map<string, Node>, links: map<string, Links>, s: Store,
              i: nat)
    requires Fresh(spec, ids) && Collected(spec, ids, |spec|, nodes) && Linking(nodes, links, ids, Processed(nodes, {}))
    requires i < |spec| && ids[i] in s && spec[i].nodeName in links
    requires s[ids[i]] == ToProcess(StartNode(ids[i], spec[i]), links[spec[i].nodeName])
    ensures RowBuilt(spec, ids, s, i)
  {
    var n, seen := spec[i].nodeName, Processed(nodes, {});
    assert ParentsOf(nodes, links, seen, n);
    assert seen[n] == spec[i].dependencies;
    forall k | 0 <= k < |spec[i].dependencies| ensures ParentBuilt(spec, ids, s[ids[i]], i, k) {
      var j := NodeOfName(spec, ids, nodes, seen[n][k]);
      assert links[n].parents[k] == ids[j];
    }
  }

  lemma CountOfRow(spec: seq<FunctionSpec>, ids: seq<Id>, nodes: map<string, Node>, links: map<string, Links>, s: Store,
                   i: nat, j: nat)
    requires Fresh(spec, ids) && Collected(spec, ids, |spec|, nodes) && Linking(nodes, links, ids, Processed(nodes, {}))
    requires i < |spec| && j < |spec| && ids[i] in s && spec[i].nodeName in links
    requires s[ids[i]].children == links[spec[i].nodeName].children
    ensures ChildBuilt(spec, ids, s, i, j)
  {
    assert CountOf(nodes, links, Processed(nodes, {}), spec[i].nodeName, spec[j].nodeName);
  }

  lemma WrittenRow(spec: seq<FunctionSpec>, ids: seq<Id>, nodes: map<string, Node>, links: map<string, Links>,
                   before: Store, after: Store, i: nat)
    requires Fresh(spec, ids) && Collected(spec, ids, |spec|, nodes) && links.Keys == nodes.Keys && i < |spec|
    requires Written(nodes, links, ids, nodes.Keys, before, after)
    ensures spec[i].nodeName in nodes && ids[i] in after
    ensures after[ids[i]] == ToProcess(StartNode(ids[i], spec[i]), links[spec[i].nodeName])
  {
    assert nodes[spec[i].nodeName].id == ids[i];
  }

  lemma WrittenKeys(spec: seq<FunctionSpec>, ids: seq<Id>, nodes: map<string, Node>, links: map<string, Links>,
                    before: Store, after: Store)
    requires Fresh(spec, ids) && Collected(spec, ids, |spec|, nodes) && links.Keys == nodes.Keys
    requires Written(nodes, links, ids, nodes.Keys, before, after) && forall x :: x in ids ==> x !in before
    ensures after.Keys == before.Keys + Elems(ids) && (after - before.Keys).Keys == Elems(ids)
  {
    forall x | x in ids ensures x in after {
      var i :| 0 <= i < |ids| && ids[i] == x;
      WrittenRow(spec, ids, nodes, links, before, after, i);
    }
  }

  /** The rows of `before`, unchanged, and new ones for `ids`. */
  ghost predicate Extends(before: Store, after: Store, ids: seq<Id>) {
    after.Keys == before.Keys + Elems(ids) && forall x :: x in before && x in after ==> after[x] == before[x]
  }

  lemma WrittenIsBuilt(spec: seq<FunctionSpec>, ids: seq<Id>, nodes: map<string, Node>, links: map<string, Links>,
                       before: Store, after: Store, roots: seq<Id>)
    requires Fresh(spec, ids) && Collected(spec, ids, |spec|, nodes) && RootsCollected(spec, ids, |spec|, roots)
    requires Linking(nodes, links, ids, Processed(nodes, {}))
    requires Written(nodes, links, ids, nodes.Keys, before, after) && forall x :: x in ids ==> x !in before
    ensures Extends(before, after, ids)
    ensures Built(spec, ids, after - before.Keys, roots)
  {
    WrittenKeys(spec, ids, nodes, links, before, after);
    var s := after - before.Keys;
    forall i | 0 <= i < |spec| ensures RowBuilt(spec, ids, s, i) {
      WrittenRow(spec, ids, nodes, links, before, after, i);
      RowOf(spec, ids, nodes, links, s, i);
    }
    forall i, j | 0 <= i < |spec| && 0 <= j < |spec| ensures ChildBuilt(spec, ids, s, i, j) {
      WrittenRow(spec, ids, nodes, links, before, after, i);
      CountOfRow(spec, ids, nodes, links, s, i, j);
    }
  }

  method CreateProcessGraph(db: Tables, graphId: Id, spec: seq<FunctionSpec>, ids: seq<Id>)
    returns (err: Option<Error>, roots: seq<Id>)
    requires Fresh(spec, ids) && forall x :: x in ids ==> x !in db.processes
    modifies db
    ensures err.None? <==> NamesOk(spec) && DependenciesOk(spec)
    ensures err == Some(UnknownDependency) <==> NamesOk(spec) && !DependenciesOk(spec)
    ensures !NamesOk(spec) ==> err.Some? && IsNameError(spec, err.value) && db.graphs == old(db.graphs)
    ensures NamesOk(spec) ==> roots == RootIds(spec, ids, |spec|) && db.graphs == old(db.graphs)[graphId := roots]
    ensures err.Some? ==> db.processes == old(db.processes)
    ensures err.None? ==> Extends(old(db.processes), db.processes, ids)
    ensures err.None? ==> Built(spec, ids, db.processes - old(db.processes).Keys, roots)
  {
    var nodes;
    err, nodes, roots := CollectNodes(spec, ids);
    if err.Some? { return; }
    NamesWereOk(spec, ids, nodes);
    db.graphs := db.graphs[graphId := roots];
    var ok, links := LinkSpec(spec, ids, nodes);
    if !ok { return Some(UnknownDependency), roots; }
    WriteSpec(db, spec, ids, nodes, links, roots);
    err := None;
  }

  lemma NamesWereOk(spec: seq<FunctionSpec>, ids: seq<Id>, nodes: map<string, Node>)
    requires Collected(spec, ids, |spec|, nodes)
    ensures NamesOk(spec)
  {
    assert spec[..|spec|] == spec;
  }

  method LinkSpec(spec: seq<FunctionSpec>, ghost ids: seq<Id>, nodes: map<string, Node>)
    returns (ok: bool, links: map<string, Links>)
    requires Fresh(spec, ids) && Collected(spec, ids, |spec|, nodes)
    ensures ok <==> DependenciesOk(spec)
    ensures ok ==> Linking(nodes, links, ids, Processed(nodes, {}))
  {
    CollectedFacts(spec, ids, nodes);
    ok, links := LinkNodes(nodes, ids);
  }

  method WriteSpec(db: Tables, ghost spec: seq<FunctionSpec>, ghost ids: seq<Id>, nodes: map<string, Node>,
                   links: map<string, Links>, ghost roots: seq<Id>)
    requires Fresh(spec, ids) && Collected(spec, ids, |spec|, nodes) && roots == RootIds(spec, ids, |spec|)
    requires Linking(nodes, links, ids, Processed(nodes, {})) && forall x :: x in ids ==> x !in db.processes
    modifies db`processes
    ensures Extends(old(db.processes), db.processes, ids)
    ensures Built(spec, ids, db.processes - old(db.processes).Keys, roots)
  {
    CollectedFacts(spec, ids, nodes);
    RootIdsMeaning(spec, ids, |spec|);
    WriteAll(db, nodes, links, ids);
    WrittenIsBuilt(spec, ids, nodes, links, old(db.processes), db.processes, roots);
  }

  /** The last loop: add every process, in whatever order the map is walked. */
  method WriteAll(db: Tables, nodes: map<string, Node>, links: map<string, Links>, ghost ids: seq<Id>)
    requires links.Keys == nodes.Keys && DistinctIds(nodes)
    requires forall n :: n in nodes ==> nodes[n].id !in db.processes && nodes[n].id in ids
    modifies db`processes
    ensures Written(nodes, links, ids, nodes.Keys, old(db.processes), db.processes)
  {
    var todo := nodes.Keys;
    ghost var before := db.processes;
    ghost var done: set<string> := {};
    while todo != {}
      invariant todo <= nodes.Keys && done == nodes.Keys - todo
      invariant Written(nodes, links, ids, done, before, db.processes)
    {
      var n :| n in todo;
      WriteStep(nodes, links, ids, done, before, db.processes, n);
      db.processes := db.processes[nodes[n].id := ToProcess(nodes[n], links[n])];
      todo, done := todo - {n}, done + {n};
    }
    assert done == nodes.Keys;
  }
}
