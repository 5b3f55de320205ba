/** Directory synchronisation: the three-way plan and its application (pkg/fs/fs_client.go). */
module Sync {
  import opened Collections

  datatype LocalFile = LocalFile(checksum: string, size: nat)
  datatype RemoteFile = RemoteFile(checksum: string, size: nat, s3Name: string)
  datatype FileInfo = FileInfo(name: string, checksum: string, size: nat, s3Name: string)
  datatype SyncPlan = SyncPlan(localMissing: seq<FileInfo>, remoteMissing: seq<FileInfo>, conflicts: seq<FileInfo>)

  /** SHA-256 of the empty file. */
  const EMPTY: string := "e3b0c44298fc1c149afbf4c8996fb92427ae41e4649b934ca495991b7852b855"

  const CFS: string := ".cfs"

  // ---------------------------------------------------------------- the plan

  function Uploaded(n: string, f: LocalFile): FileInfo {
    FileInfo(n, f.checksum, f.size, "")
  }

  function Downloaded(n: string, f: RemoteFile): FileInfo {
    FileInfo(n, f.checksum, f.size, f.s3Name)
  }

  predicate Differs(local: map<string, LocalFile>, remote: map<string, RemoteFile>, n: string) {
    n in local && n in remote && local[n].checksum != remote[n].checksum
  }

  /** `infos` lists exactly the entries of `m`, once each, in some order. */
  ghost predicate Lists(infos: seq<FileInfo>, m: map<string, FileInfo>) {
    && (forall i :: 0 <= i < |infos| ==> infos[i].name in m && m[infos[i].name] == infos[i])
    && (forall i, j :: 0 <= i < j < |infos| ==> infos[i].name != infos[j].name)
    && (forall n :: n in m ==> m[n] in infos)
  }

  ghost function MissingRemotely(local: map<string, LocalFile>, remote: map<string, RemoteFile>): map<string, FileInfo>
  {
    map n | n in local && n !in remote :: Uploaded(n, local[n])
  }

  ghost function MissingLocally(local: map<string, LocalFile>, remote: map<string, RemoteFile>): map<string, FileInfo> {
    map n | n in remote && n !in local :: Downloaded(n, remote[n])
  }

  ghost function Conflicting(local: map<string, LocalFile>, remote: map<string, RemoteFile>, keepLocal: bool)
    : map<string, FileInfo>
  {
    map n | n in remote && Differs(local, remote, n) ::
      if keepLocal then Uploaded(n, local[n]) else Downloaded(n, remote[n])
  }

  lemma ListsAppend(infos: seq<FileInfo>, m: map<string, FileInfo>, f: FileInfo)
    requires Lists(infos, m) && f.name !in m
    ensures Lists(infos + [f], m[f.name := f])
  {
    assert f in infos + [f] && forall g :: g in infos ==> g in infos + [f];
  }

  /** The entries of `m` whose names have been visited. */
  ghost function Visited(m: map<string, FileInfo>, todo: set<string>): map<string, FileInfo> {
    map n | n in m && n !in todo :: m[n]
  }

  lemma VisitedStep(m: map<string, FileInfo>, todo: set<string>, n: string)
    requires n in todo
    ensures Visited(m, todo - {n}) == if n in m then Visited(m, todo)[n := m[n]] else Visited(m, todo)
    ensures n !in Visited(m, todo)
  {
  }

  /** `CalcSyncPlan` on the files of a directory and the files of a label. The map walks have no fixed order. */
  method CalcSyncPlan(files: map<string, LocalFile>, remote: map<string, RemoteFile>, keepLocal: bool)
    returns (plan: SyncPlan)
    ensures Lists(plan.remoteMissing, MissingRemotely(files - {".cfs"}, remote))
    ensures Lists(plan.localMissing, MissingLocally(files - {".cfs"}, remote))
    ensures Lists(plan.conflicts, Conflicting(files - {".cfs"}, remote, keepLocal))
  {
    var local := files - {CFS};
    var up := ListMissingRemotely(local, remote);
    var down := ListMissingLocally(local, remote);
    var conflicts := ListConflicts(local, remote, keepLocal);
    plan := SyncPlan(down, up, conflicts);
  }

  method ListMissingRemotely(local: map<string, LocalFile>, remote: map<string, RemoteFile>) returns (r: seq<FileInfo>)
    ensures Lists(r, MissingRemotely(local, remote))
  {
    ghost var m := MissingRemotely(local, remote);
    r := [];
    var todo := local.Keys;
    assert Visited(m, todo) == map[];
    while todo != {}
      invariant todo <= local.Keys && Lists(r, Visited(m, todo))
    {
      var n :| n in todo;
      VisitedStep(m, todo, n);
      if n !in remote {
        ListsAppend(r, Visited(m, todo), Uploaded(n, local[n]));
        r := r + [Uploaded(n, local[n])];
      }
      todo := todo - {n};
    }
    assert Visited(m, {}) == m;
  }

  method ListMissingLocally(local: map<string, LocalFile>, remote: map<string, RemoteFile>) returns (r: seq<FileInfo>)
    ensures Lists(r, MissingLocally(local, remote))
  {
    ghost var m := MissingLocally(local, remote);
    r := [];
    var todo := remote.Keys;
    assert Visited(m, todo) == map[];
    while todo != {}
      invariant todo <= remote.Keys && Lists(r, Visited(m, todo))
    {
      var n :| n in todo;
      VisitedStep(m, todo, n);
      if n !in local {
        ListsAppend(r, Visited(m, todo), Downloaded(n, remote[n]));
        r := r + [Downloaded(n, remote[n])];
      }
      todo := todo - {n};
    }
    assert Visited(m, {}) == m;
  }

  method ListConflicts(local: map<string, LocalFile>, remote: map<string, RemoteFile>, keepLocal: bool)
    returns (r: seq<FileInfo>)
    ensures Lists(r, Conflicting(local, remote, keepLocal))
  {
    ghost var m := Conflicting(local, remote, keepLocal);
    r := [];
    var todo := remote.Keys;
    assert Visited(m, todo) == map[];
    while todo != {}
      invariant todo <= remote.Keys && Lists(r, Visited(m, todo))
    {
      var n :| n in todo;
      VisitedStep(m, todo, n);
      if n in local && local[n].checksum != remote[n].checksum {
        var f := if keepLocal then Uploaded(n, local[n]) else Downloaded(n, remote[n]);
        ListsAppend(r, Visited(m, todo), f);
        r := r + [f];
      }
      todo := todo - {n};
    }
    assert Visited(m, {}) == m;
  }

  /** The three lists have disjoint names, cover exactly the names on which the two sides differ, and are all empty
      exactly when the two sides agree. */
  lemma PlanCoversDifferences(local: map<string, LocalFile>, remote: map<string, RemoteFile>, keepLocal: bool)
    ensures var a, b := MissingRemotely(local, remote), MissingLocally(local, remote);
      var c := Conflicting(local, remote, keepLocal);
      && a.Keys !! b.Keys !! c.Keys
      && (forall n :: n in a.Keys + b.Keys + c.Keys <==> !SameAt(local, remote, n))
      && ((a == map[] && b == map[] && c == map[]) <==> InSync(local, remote))
  {
    var a, b, c := MissingRemotely(local, remote), MissingLocally(local, remote), Conflicting(local, remote, keepLocal);
    forall n ensures n in a.Keys + b.Keys + c.Keys <==> !SameAt(local, remote, n) { }
    if a == map[] && b == map[] && c == map[] {
      forall n ensures SameAt(local, remote, n) { assert n !in a && n !in b && n !in c; }
    }
    if InSync(local, remote) {
      forall n ensures n !in a.Keys && n !in b.Keys && n !in c.Keys { assert SameAt(local, remote, n); }
    }
  }

  predicate SameAt(local: map<string, LocalFile>, remote: map<string, RemoteFile>, n: string) {
    (n in local <==> n in remote) && (n in local && n in remote ==> local[n].checksum == remote[n].checksum)
  }

  /** Both sides hold the same map from names to checksums. */
  ghost predicate InSync(local: map<string, LocalFile>, remote: map<string, RemoteFile>) {
    forall n :: SameAt(local, remote, n)
  }

  // ---------------------------------------------------------------- applying the plan

  /** Both sides and the object store, which maps an object name to the checksum of its content. */
  datatype World = World(local: map<string, LocalFile>, remote: map<string, RemoteFile>, objects: map<string, string>)

  datatype Op = Upload(f: FileInfo) | Fetch(f: FileInfo) | FetchConflict(f: FileInfo)

  /** What the plan does about a name. */
  function OpFor(w: World, keepLocal: bool, n: string): Op
    requires !SameAt(w.local, w.remote, n)
  {
    if n !in w.remote then Upload(Uploaded(n, w.local[n]))
    else if n !in w.local then Fetch(Downloaded(n, w.remote[n]))
    else if keepLocal then Upload(Uploaded(n, w.local[n]))
    else FetchConflict(Downloaded(n, w.remote[n]))
  }

  /** What a worker leaves behind, and whether it reports success. */
  datatype Outcome = Outcome(world: World, ok: bool)

  /** `Download`: the local file is created, and so truncated, before it turns out that there is no object. */
  function Download(w: World, f: FileInfo): Outcome {
    if f.s3Name in w.objects
    then Outcome(w.(local := w.local[f.name := LocalFile(w.objects[f.s3Name], f.size)]), true)
    else Outcome(w.(local := w.local[f.name := LocalFile(EMPTY, 0)]), false)
  }

  /** One call of a worker; `spare` is the random object name of an upload. */
  function Run(w: World, op: Op, spare: string): Outcome {
    match op
    case Upload(f) =>
      if f.name !in w.local then Outcome(w, false)
      else
        var size := w.local[f.name].size;
        Outcome(w.(remote := w.remote[f.name := RemoteFile(f.checksum, size, spare)],
                   objects := if size > 0 then w.objects[spare := w.local[f.name].checksum] else w.objects), true)
    case Fetch(f) =>
      if f.size == 0 then Outcome(w.(local := w.local[f.name := LocalFile(EMPTY, 0)]), true) else Download(w, f)
    case FetchConflict(f) => Download(w, f)
  }

  /** All workers, in the order `names`, on the plan computed for `w0`. An error of one does not stop the others. */
  function RunAll(w0: World, keepLocal: bool, w: World, names: seq<string>, spare: seq<string>): World
    requires |spare| >= |names| && forall i :: 0 <= i < |names| ==> !SameAt(w0.local, w0.remote, names[i])
    decreases |names|
  {
    if names == [] then w
    else RunAll(w0, keepLocal, Run(w, OpFor(w0, keepLocal, names[0]), spare[0]).world, names[1..], spare[1..])
  }

  /** The object of every nonempty remote file holds its content, empty files have the empty checksum and no object. */
  ghost predicate Consistent(w: World) {
    && (forall n :: n in w.remote && w.remote[n].size > 0 ==>
          w.remote[n].s3Name in w.objects && w.objects[w.remote[n].s3Name] == w.remote[n].checksum)
    && (forall n :: n in w.remote && w.remote[n].size == 0 ==>
          w.remote[n].checksum == EMPTY && w.remote[n].s3Name !in w.objects)
  }

  /** The object names of uploads do not clash with anything stored, referenced or otherwise uploaded. */
  ghost predicate FreshNames(w: World, spare: seq<string>) {
    && (forall i :: 0 <= i < |spare| ==> spare[i] !in w.objects)
    && (forall n, i :: n in w.remote && 0 <= i < |spare| ==> w.remote[n].s3Name != spare[i])
    && (forall i, j :: 0 <= i < j < |spare| ==> spare[i] != spare[j])
  }

  ghost function Differing(w: World): set<string> {
    set n | n in w.local.Keys + w.remote.Keys && !SameAt(w.local, w.remote, n)
  }

  /** The checksum both sides should end up with. */
  function Wanted(w: World, keepLocal: bool, n: string): string
    requires n in w.local || n in w.remote
  {
    if n !in w.remote || (keepLocal && n in w.local) then w.local[n].checksum else w.remote[n].checksum
  }

  ghost predicate Settled(w0: World, w: World, keepLocal: bool, n: string) {
    && (n in w0.local || n in w0.remote)
    && n in w.local && n in w.remote
    && w.local[n].checksum == w.remote[n].checksum == Wanted(w0, keepLocal, n)
  }

  ghost predicate Untouched(w0: World, w: World, n: string) {
    && (n in w.local <==> n in w0.local) && (n in w.remote <==> n in w0.remote)
    && (n in w0.local && n in w.local ==> w.local[n] == w0.local[n])
    && (n in w0.remote && n in w.remote ==> w.remote[n] == w0.remote[n])
  }

  /** How things look when the names in `todo` are still to be worked on. */
  ghost predicate Halfway(w0: World, w: World, keepLocal: bool, todo: set<string>) {
    && (forall n :: n in todo || SameAt(w0.local, w0.remote, n) ==> Untouched(w0, w, n))
    && (forall n :: n !in todo && !SameAt(w0.local, w0.remote, n) ==> Settled(w0, w, keepLocal, n))
    && (forall o :: o in w0.objects ==> o in w.objects && w.objects[o] == w0.objects[o])
    && (forall n :: n in w0.remote && w0.remote[n].size == 0 ==> w0.remote[n].s3Name !in w.objects)
  }

  /** The one thing that makes a worker fail: fetching an empty remote file to resolve a conflict. */
  ghost predicate CanFetch(w: World, keepLocal: bool, n: string) {
    Differs(w.local, w.remote, n) && !keepLocal ==> w.remote[n].size > 0
  }

  /** A worker settles its own name and disturbs no other. It reports an error exactly when it has to fetch an empty
      remote file, and settles that name too: the truncated local file equals the empty remote one. */
  lemma WorkerStep(w0: World, w: World, keepLocal: bool, n: string, todo: set<string>, spare: string)
    requires Consistent(w0) && Halfway(w0, w, keepLocal, todo) && n in todo && !SameAt(w0.local, w0.remote, n)
    requires FreshNames(w0, [spare])
    ensures var r := Run(w, OpFor(w0, keepLocal, n), spare);
      && (r.ok <==> CanFetch(w0, keepLocal, n))
      && Halfway(w0, r.world, keepLocal, todo - {n})
  {
    assert Untouched(w0, w, n);
    assert [spare][0] == spare;
    var r := Run(w, OpFor(w0, keepLocal, n), spare).world;
    assert Settled(w0, r, keepLocal, n);
    forall m | m in todo - {n} || SameAt(w0.local, w0.remote, m) ensures Untouched(w0, r, m) {
      assert Untouched(w0, w, m);
    }
    forall m | m !in todo - {n} && !SameAt(w0.local, w0.remote, m) ensures Settled(w0, r, keepLocal, m) {
      if m != n { assert Settled(w0, w, keepLocal, m); }
    }
  }

  // ---------------------------------------------------------------- what the next synchronisation finds

  /** Empty local files have the empty checksum. */
  ghost predicate EmptyIsEmpty(w: World) {
    forall n :: n in w.local && w.local[n].size == 0 ==> w.local[n].checksum == EMPTY
  }

  /** What a worker needs to find, and leaves behind for the next. */
  ghost predicate Sound(w: World, spare: seq<string>) {
    Consistent(w) && EmptyIsEmpty(w) && FreshNames(w, spare)
  }

  lemma WorkerStaysSound(w0: World, w: World, keepLocal: bool, n: string, spare: seq<string>)
    requires !SameAt(w0.local, w0.remote, n) && Untouched(w0, w, n) && spare != [] && Sound(w, spare)
    ensures Sound(Run(w, OpFor(w0, keepLocal, n), spare[0]).world, spare[1..])
  {
    var op := OpFor(w0, keepLocal, n);
    if op.Upload? { UploadStaysSound(w, op.f, spare); } else { FetchStaysSound(w, op, spare); }
  }

  lemma UploadStaysSound(w: World, f: FileInfo, spare: seq<string>)
    requires spare != [] && Sound(w, spare) && f.name in w.local && f.checksum == w.local[f.name].checksum
    ensures Sound(Run(w, Upload(f), spare[0]).world, spare[1..])
  {
    var v := Run(w, Upload(f), spare[0]).world;
    forall i | 0 <= i < |spare[1..]| ensures spare[1..][i] !in v.objects && spare[1..][i] != spare[0] {
      assert spare[1..][i] == spare[i + 1];
    }
    forall n | n in v.remote ensures n != f.name ==> v.remote[n] == w.remote[n] && v.remote[n].s3Name != spare[0] { }
    assert FreshNames(v, spare[1..]);
  }

  lemma FetchStaysSound(w: World, op: Op, spare: seq<string>)
    requires spare != [] && Sound(w, spare) && !op.Upload?
    requires op.f.name in w.remote && op.f == Downloaded(op.f.name, w.remote[op.f.name])
    ensures Sound(Run(w, op, spare[0]).world, spare[1..])
  {
    forall i | 0 <= i < |spare[1..]| ensures spare[1..][i] == spare[i + 1] { }
    assert FreshNames(Run(w, op, spare[0]).world, spare[1..]);
  }

  // ---------------------------------------------------------------- convergence

  /** Between two workers: what is settled, which object names are left, and that the state stays sound. */
  ghost predicate Working(w0: World, w: World, keepLocal: bool, todo: set<string>, spare: seq<string>) {
    && Consistent(w0) && Halfway(w0, w, keepLocal, todo) && FreshNames(w0, spare)
    && (EmptyIsEmpty(w0) ==> Sound(w, spare))
  }

  lemma WorkingStep(w0: World, w: World, keepLocal: bool, n: string, todo: set<string>, spare: seq<string>)
    requires Working(w0, w, keepLocal, todo, spare) && n in todo && !SameAt(w0.local, w0.remote, n) && spare != []
    ensures var r := Run(w, OpFor(w0, keepLocal, n), spare[0]);
      (r.ok <==> CanFetch(w0, keepLocal, n)) && Working(w0, r.world, keepLocal, todo - {n}, spare[1..])
  {
    FewerFreshNames(w0, spare);
    WorkerStep(w0, w, keepLocal, n, todo, spare[0]);
    assert Untouched(w0, w, n);
    if EmptyIsEmpty(w0) { WorkerStaysSound(w0, w, keepLocal, n, spare); }
  }

  lemma FewerFreshNames(w: World, spare: seq<string>)
    requires FreshNames(w, spare) && spare != []
    ensures FreshNames(w, spare[1..]) && FreshNames(w, [spare[0]])
  {
    forall i | 0 <= i < |spare[1..]| ensures spare[1..][i] == spare[i + 1] { }
  }

  /** Nothing has been worked on yet. */
  lemma WorkBegins(w: World, keepLocal: bool, spare: seq<string>)
    requires Consistent(w) && FreshNames(w, spare)
    ensures Working(w, w, keepLocal, Differing(w), spare)
  {
    forall n | n !in Differing(w) ensures SameAt(w.local, w.remote, n) { }
  }

  lemma {:induction false} WorkersSettle(w0: World, w: World, keepLocal: bool, names: seq<string>, todo: set<string>,
                                         spare: seq<string>)
    requires Working(w0, w, keepLocal, todo, spare) && |spare| >= |names| && Distinct(names)
    requires forall i :: 0 <= i < |names| ==> names[i] in todo && !SameAt(w0.local, w0.remote, names[i])
    ensures Working(w0, RunAll(w0, keepLocal, w, names, spare), keepLocal, todo - Elems(names), spare[|names|..])
    decreases |names|
  {
    if names == [] {
      assert todo - Elems(names) == todo && spare[0..] == spare;
    } else {
      WorkingStep(w0, w, keepLocal, names[0], todo, spare);
      var v := Run(w, OpFor(w0, keepLocal, names[0]), spare[0]).world;
      FirstNameDone(names, todo);
      WorkersSettle(w0, v, keepLocal, names[1..], todo - {names[0]}, spare[1..]);
      assert spare[1..][|names| - 1..] == spare[|names|..];
    }
  }

  lemma FirstNameDone(names: seq<string>, todo: set<string>)
    requires names != [] && Distinct(names) && forall i :: 0 <= i < |names| ==> names[i] in todo
    ensures Distinct(names[1..]) && forall i :: 0 <= i < |names[1..]| ==> names[1..][i] in todo - {names[0]}
    ensures (todo - {names[0]}) - Elems(names[1..]) == todo - Elems(names)
  {
    forall i | 0 <= i < |names[1..]| ensures names[1..][i] == names[i + 1] { }
    assert forall n :: n in names <==> n == names[0] || n in names[1..];
  }

  /** Every order of the workers: each differing name once. */
  ghost predicate IsOrder(w: World, names: seq<string>) {
    Distinct(names) && Elems(names) == Differing(w)
  }

  /** Synchronisation converges in every worker order, errors or not: when all workers have ended, both sides hold the
      same map, no name is lost, each name has the checksum that the conflict rule wants, a recomputed plan is empty,
      and both sides and the object store are consistent again. */
  lemma SyncConverges(w: World, keepLocal: bool, names: seq<string>, spare: seq<string>)
    requires Consistent(w) && IsOrder(w, names) && |spare| == |names| && FreshNames(w, spare)
    ensures forall i :: 0 <= i < |names| ==> !SameAt(w.local, w.remote, names[i])
    ensures var r := RunAll(w, keepLocal, w, names, spare);
      && InSync(r.local, r.remote)
      && r.local.Keys == w.local.Keys + w.remote.Keys
      && (forall n :: n in r.local && (n in w.local || n in w.remote) ==>
            r.local[n].checksum == Wanted(w, keepLocal, n))
      && (forall n :: n in r.local && n in w.local && (keepLocal || n !in w.remote) ==>
            r.local[n].checksum == w.local[n].checksum)
      && (forall n :: n in r.local && n in w.remote && (!keepLocal || n !in w.local) ==>
            r.local[n].checksum == w.remote[n].checksum)
      && MissingRemotely(r.local, r.remote) == map[]
      && MissingLocally(r.local, r.remote) == map[]
      && Conflicting(r.local, r.remote, keepLocal) == map[]
      && (EmptyIsEmpty(w) ==> Consistent(r) && EmptyIsEmpty(r))
  {
    forall i | 0 <= i < |names| ensures names[i] in Differing(w) { assert names[i] in Elems(names); }
    WorkBegins(w, keepLocal, spare);
    WorkersSettle(w, w, keepLocal, names, Differing(w), spare);
    var r := RunAll(w, keepLocal, w, names, spare);
    assert Differing(w) - Elems(names) == {};
    SettledEverywhere(w, r, keepLocal);
    PlanCoversDifferences(r.local, r.remote, keepLocal);
  }

  lemma SettledEverywhere(w0: World, w: World, keepLocal: bool)
    requires Halfway(w0, w, keepLocal, {})
    ensures InSync(w.local, w.remote) && w.local.Keys == w0.local.Keys + w0.remote.Keys
    ensures forall n :: n in w.local && (n in w0.local || n in w0.remote) ==>
              w.local[n].checksum == Wanted(w0, keepLocal, n)
  {
    forall n
      ensures SameAt(w.local, w.remote, n) && (n in w.local <==> n in w0.local || n in w0.remote)
      ensures n in w.local && (n in w0.local || n in w0.remote) ==> w.local[n].checksum == Wanted(w0, keepLocal, n)
    {
      if SameAt(w0.local, w0.remote, n) { assert Untouched(w0, w, n); } else { assert Settled(w0, w, keepLocal, n); }
    }
  }

  // ---------------------------------------------------------------- after an error

  /** The names whose conflict has to be resolved by fetching an empty remote file. */
  ghost function EmptyConflicts(w: World, keepLocal: bool): set<string> {
    set n | n in w.local && !CanFetch(w, keepLocal, n)
  }

  /** Whatever workers have ended, no new conflict of this kind arises, and those they worked on are gone. */
  lemma FewerEmptyConflicts(w0: World, w: World, keepLocal: bool, todo: set<string>)
    requires Halfway(w0, w, keepLocal, todo)
    ensures EmptyConflicts(w, keepLocal) <= EmptyConflicts(w0, keepLocal) * todo
  {
    assert forall n :: Settled(w0, w, keepLocal, n) ==> CanFetch(w, keepLocal, n);
    assert forall n :: Untouched(w0, w, n) ==> (CanFetch(w, keepLocal, n) <==> CanFetch(w0, keepLocal, n));
    forall n | n in EmptyConflicts(w, keepLocal) ensures n in EmptyConflicts(w0, keepLocal) && n in todo {
      assert !Settled(w0, w, keepLocal, n);
      assert Untouched(w0, w, n);
    }
  }

  lemma EmptyConflictsDiffer(w: World, keepLocal: bool)
    ensures EmptyConflicts(w, keepLocal) <= Differing(w)
    ensures forall n :: n in Differing(w) && !CanFetch(w, keepLocal, n) ==> n in EmptyConflicts(w, keepLocal)
  {
  }

  // ---------------------------------------------------------------- ApplySyncPlan

  function Uploads(infos: seq<FileInfo>): (r: seq<Op>)
    ensures |r| == |infos| && forall i :: 0 <= i < |r| ==> r[i] == Upload(infos[i])
  {
    seq(|infos|, i requires 0 <= i < |infos| => Upload(infos[i]))
  }

  function Fetches(infos: seq<FileInfo>): (r: seq<Op>)
    ensures |r| == |infos| && forall i :: 0 <= i < |r| ==> r[i] == Fetch(infos[i])
  {
    seq(|infos|, i requires 0 <= i < |infos| => Fetch(infos[i]))
  }

  function ConflictFetches(infos: seq<FileInfo>): (r: seq<Op>)
    ensures |r| == |infos| && forall i :: 0 <= i < |r| ==> r[i] == FetchConflict(infos[i])
  {
    seq(|infos|, i requires 0 <= i < |infos| => FetchConflict(infos[i]))
  }

  function PlanOps(plan: SyncPlan, keepLocal: bool): seq<Op> {
    Uploads(plan.remoteMissing) + Fetches(plan.localMissing)
    + if keepLocal then Uploads(plan.conflicts) else ConflictFetches(plan.conflicts)
  }

  ghost predicate IsPlan(w: World, keepLocal: bool, plan: SyncPlan) {
    && Lists(plan.remoteMissing, MissingRemotely(w.local, w.remote))
    && Lists(plan.localMissing, MissingLocally(w.local, w.remote))
    && Lists(plan.conflicts, Conflicting(w.local, w.remote, keepLocal))
  }

  /** A pending operation is the one the plan has for its name. */
  ghost predicate Pending(w0: World, keepLocal: bool, ops: seq<Op>) {
    && (forall i :: 0 <= i < |ops| ==>
          !SameAt(w0.local, w0.remote, ops[i].f.name) && ops[i] == OpFor(w0, keepLocal, ops[i].f.name))
    && (forall i, j :: 0 <= i < j < |ops| ==> ops[i].f.name != ops[j].f.name)
  }

  ghost function NamesOf(ops: seq<Op>): set<string> {
    set op | op in ops :: op.f.name
  }

  lemma {:induction false} TakeOne(w0: World, keepLocal: bool, ops: seq<Op>, k: nat, rest: seq<Op>)
    requires Pending(w0, keepLocal, ops) && k < |ops| && rest == ops[..k] + ops[k + 1..]
    ensures Pending(w0, keepLocal, rest) && NamesOf(rest) == NamesOf(ops) - {ops[k].f.name}
  {
    PendingWithout(w0, keepLocal, ops, k, rest);
    assert forall op :: op in ops ==> op == ops[k] || op in rest by {
      assert ops == ops[..k] + [ops[k]] + ops[k + 1..];
    }
    assert ops[k] in ops;
  }

  lemma PendingWithout(w0: World, keepLocal: bool, ops: seq<Op>, k: nat, rest: seq<Op>)
    requires Pending(w0, keepLocal, ops) && k < |ops| && rest == ops[..k] + ops[k + 1..]
    ensures Pending(w0, keepLocal, rest)
    ensures forall i :: 0 <= i < |rest| ==> rest[i].f.name != ops[k].f.name && rest[i] in ops
  {
    assert forall i :: 0 <= i < |rest| ==> rest[i] == if i < k then ops[i] else ops[i + 1];
  }

  /** Workers take the pending operations in any order; the first error is reported and ends the wait for the others. */
  method Work(w0: World, keepLocal: bool, ops0: seq<Op>, spare: seq<string>)
    returns (ok: bool, w: World, ghost todo: set<string>)
    requires Pending(w0, keepLocal, ops0) && |spare| == |ops0| && Working(w0, w0, keepLocal, NamesOf(ops0), spare)
    ensures Halfway(w0, w, keepLocal, todo) && (EmptyIsEmpty(w0) ==> Consistent(w) && EmptyIsEmpty(w))
    ensures ok ==> todo == {} && forall n :: n in NamesOf(ops0) ==> CanFetch(w0, keepLocal, n)
    ensures !ok ==> exists n :: n in NamesOf(ops0) && n !in todo && !CanFetch(w0, keepLocal, n)
  {
    w, ok := w0, true;
    var ops, left := ops0, spare;
    todo := NamesOf(ops);
    while ops != []
      invariant ok && |left| == |ops| && Pending(w0, keepLocal, ops)
      invariant todo == NamesOf(ops) && todo <= NamesOf(ops0) && Working(w0, w, keepLocal, todo, left)
      invariant forall n :: n in NamesOf(ops0) && n !in todo ==> CanFetch(w0, keepLocal, n)
      decreases |ops|
    {
      var k :| 0 <= k < |ops|;
      var op := ops[k];
      assert op in ops && op.f.name in todo;
      WorkingStep(w0, w, keepLocal, op.f.name, todo, left);
      TakeOne(w0, keepLocal, ops, k, ops[..k] + ops[k + 1..]);
      var r := Run(w, op, left[0]);
      w, ok, left := r.world, r.ok, left[1..];
      ops, todo := ops[..k] + ops[k + 1..], todo - {op.f.name};
      if !ok { return; }
    }
  }

  lemma PendingConcat(w: World, keepLocal: bool, a: seq<Op>, b: seq<Op>)
    requires Pending(w, keepLocal, a) && Pending(w, keepLocal, b)
    requires forall i, j :: 0 <= i < |a| && 0 <= j < |b| ==> a[i].f.name != b[j].f.name
    ensures Pending(w, keepLocal, a + b)
  {
    var c := a + b;
    assert forall i :: 0 <= i < |c| ==> c[i] == if i < |a| then a[i] else b[i - |a|];
  }

  /** The operations for one list of the plan, whose names all satisfy what the list stands for. */
  lemma PartPending(w: World, keepLocal: bool, infos: seq<FileInfo>, m: map<string, FileInfo>, ops: seq<Op>)
    requires Lists(infos, m) && |ops| == |infos| && forall i :: 0 <= i < |ops| ==> ops[i].f == infos[i]
    requires forall i :: 0 <= i < |ops| && infos[i].name in m ==>
               !SameAt(w.local, w.remote, infos[i].name) && ops[i] == OpFor(w, keepLocal, infos[i].name)
    ensures Pending(w, keepLocal, ops)
  {
  }

  lemma PlanIsPending(w: World, keepLocal: bool, plan: SyncPlan)
    requires IsPlan(w, keepLocal, plan)
    ensures Pending(w, keepLocal, PlanOps(plan, keepLocal))
  {
    var up, down := Uploads(plan.remoteMissing), Fetches(plan.localMissing);
    var rest := if keepLocal then Uploads(plan.conflicts) else ConflictFetches(plan.conflicts);
    PartPending(w, keepLocal, plan.remoteMissing, MissingRemotely(w.local, w.remote), up);
    PartPending(w, keepLocal, plan.localMissing, MissingLocally(w.local, w.remote), down);
    PartPending(w, keepLocal, plan.conflicts, Conflicting(w.local, w.remote, keepLocal), rest);
    PendingConcat(w, keepLocal, up, down);
    forall i, j | 0 <= i < |up + down| && 0 <= j < |rest| ensures (up + down)[i].f.name != rest[j].f.name {
      assert plan.conflicts[j].name in w.local && plan.conflicts[j].name in w.remote;
      if i < |up| { assert plan.remoteMissing[i].name !in w.remote; }
      else { assert plan.localMissing[i - |up|].name !in w.local; }
    }
    PendingConcat(w, keepLocal, up + down, rest);
  }

  lemma PlanCoversOps(w: World, keepLocal: bool, plan: SyncPlan, n: string)
    requires IsPlan(w, keepLocal, plan) && !SameAt(w.local, w.remote, n)
    ensures OpFor(w, keepLocal, n) in PlanOps(plan, keepLocal)
  {
    if n !in w.remote {
      var f := MissingRemotely(w.local, w.remote)[n];
      var k :| 0 <= k < |plan.remoteMissing| && plan.remoteMissing[k] == f;
      assert Uploads(plan.remoteMissing)[k] == OpFor(w, keepLocal, n);
    } else if n !in w.local {
      var f := MissingLocally(w.local, w.remote)[n];
      var k :| 0 <= k < |plan.localMissing| && plan.localMissing[k] == f;
      assert Fetches(plan.localMissing)[k] == OpFor(w, keepLocal, n);
    } else {
      var f := Conflicting(w.local, w.remote, keepLocal)[n];
      var k :| 0 <= k < |plan.conflicts| && plan.conflicts[k] == f;
      var ops := if keepLocal then Uploads(plan.conflicts) else ConflictFetches(plan.conflicts);
      assert ops[k] == OpFor(w, keepLocal, n);
    }
  }

  lemma PlanNames(w: World, keepLocal: bool, plan: SyncPlan)
    requires IsPlan(w, keepLocal, plan)
    ensures NamesOf(PlanOps(plan, keepLocal)) == Differing(w)
  {
    PlanIsPending(w, keepLocal, plan);
    var ops := PlanOps(plan, keepLocal);
    forall n | n in Differing(w) ensures n in NamesOf(ops) {
      PlanCoversOps(w, keepLocal, plan, n);
      assert OpFor(w, keepLocal, n).f.name == n;
    }
    forall op | op in ops ensures op.f.name in Differing(w) {
      var i :| 0 <= i < |ops| && ops[i] == op;
    }
  }

  /** `ApplySyncPlan` on the state the plan was computed for. It reports an error exactly when some conflict has to be
      resolved by fetching an empty remote file. Without an error, the two sides are in sync, nothing is lost and
      conflicts follow the rule. After an error every name is untouched or settled, and fewer such conflicts are left,
      so that repeating the synchronisation succeeds in the end. */
  method ApplySyncPlan(w0: World, keepLocal: bool, plan: SyncPlan, spare: seq<string>) returns (ok: bool, w: World)
    requires Consistent(w0) && IsPlan(w0, keepLocal, plan) && FreshNames(w0, spare)
    requires |spare| == |plan.remoteMissing| + |plan.localMissing| + |plan.conflicts|
    ensures ok <==> EmptyConflicts(w0, keepLocal) == {}
    ensures ok ==> InSync(w.local, w.remote) && w.local.Keys == w0.local.Keys + w0.remote.Keys
    ensures ok ==> forall n :: n in w.local && (n in w0.local || n in w0.remote) ==>
              w.local[n].checksum == Wanted(w0, keepLocal, n)
    ensures ok ==> forall n :: n in w.local && n in w0.local && (keepLocal || n !in w0.remote) ==>
              w.local[n].checksum == w0.local[n].checksum
    ensures ok ==> forall n :: n in w.local && n in w0.remote && (!keepLocal || n !in w0.local) ==>
              w.local[n].checksum == w0.remote[n].checksum
    ensures !ok ==> EmptyConflicts(w, keepLocal) < EmptyConflicts(w0, keepLocal)
    ensures forall n :: Untouched(w0, w, n) || Settled(w0, w, keepLocal, n)
    ensures EmptyIsEmpty(w0) ==> Consistent(w) && EmptyIsEmpty(w)
  {
    PlanIsPending(w0, keepLocal, plan);
    PlanNames(w0, keepLocal, plan);
    WorkBegins(w0, keepLocal, spare);
    ghost var todo;
    ok, w, todo := Work(w0, keepLocal, PlanOps(plan, keepLocal), spare);
    FewerEmptyConflicts(w0, w, keepLocal, todo);
    EmptyConflictsDiffer(w0, keepLocal);
    if ok { SettledEverywhere(w0, w, keepLocal); }
  }
}
