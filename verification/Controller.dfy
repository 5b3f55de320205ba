/** The handlers of the controller, updating the database step by step (pkg/server/colonies_controller.go). */
module Controller {
  import opened ProcessGraph
  import opened Resolve
  import opened Workflow
  import opened Runs
  import opened NamedChild
  import opened Scheduling

  /** How a handler ends: normally, with an error for the caller, or by dereferencing a nil pointer, which takes the
      server down. */
  datatype Reply = Ok | Error | Crash

  class Handlers {
    const db: Database
    const roots: seq<Id>

    ghost function Snapshot(): World reads this, db { World(db.processes, roots, db.graphState) }

    constructor (db: Database, roots: seq<Id>)
      ensures this.db == db && this.roots == roots
    {
      this.db, this.roots := db, roots;
    }

    method HandleDefunct(id: Id) returns (ok: bool)
      modifies db
      ensures Snapshot() == Defunct(old(Snapshot()), id)
      ensures ok <==> id in old(db.processes) && CanFail(old(db.processes)[id])
    {
      if id !in db.processes || !CanFail(db.processes[id]) { return false; }
      db.processes := db.processes[id := db.processes[id].(state := Failed)];
      db.graphState := Failed;
      ok := true;
    }

    /** `id` is the process that the scheduler selected; the store hands out candidates only. */
    method HandleAssign(id: Id, executor: string) returns (reply: Reply)
      modifies db
      ensures Snapshot() == Apply(old(Snapshot()), Assign(id, executor))
      ensures id in old(db.processes) && Candidate(old(db.processes)[id]) ==>
        reply == ReplyTo(ResolveRetry(roots, old(db.processes)[id := Assigned(old(db.processes)[id], executor)], 10))
      ensures !(id in old(db.processes) && Candidate(old(db.processes)[id])) ==> reply == Error
      ensures old(Inv(Snapshot())) && id in old(db.processes) && Candidate(old(db.processes)[id]) ==> reply == Ok
    {
      if id !in db.processes || !Candidate(db.processes[id]) { return Error; }
      ghost var before := Snapshot();
      db.processes := db.processes[id := Assigned(db.processes[id], executor)];
      ghost var target := ResolveRetry(roots, db.processes, MAX_RETRIES);
      if Inv(before) { ResolveNeverStops(before, id, executor); }
      var retries := 0;
      while true
        invariant retries <= MAX_RETRIES && db.graphState == old(db.graphState)
        invariant retries < MAX_RETRIES ==> target == ResolveRetry(roots, db.processes, MAX_RETRIES - retries)
        invariant retries == MAX_RETRIES ==> target.Stopped? && target.store == db.processes
        decreases MAX_RETRIES - retries
      {
        if retries >= MAX_RETRIES {
          var _ := HandleDefunct(id);
          return Error;
        }
        var cause := ResolveGraph(db, roots);
        if cause.None? { break; }
        if cause.value.NilParent? { return Crash; }
        retries := retries + 1;
      }
      reply := Ok;
    }

    /** `assign`: the scheduler selects among the rows of the process table, then the process is handed out. An executor
        that nothing fits gets an empty answer; otherwise it gets a process that precedes all others it may be given. */
    method AssignNext(rows: seq<Row>, q: Request, byName: seq<Row>, byType: seq<Row>, executor: string)
      returns (found: bool, row: Row, reply: Reply)
      requires Lowest(multiset(Find(rows, ByName, q)), 1, byName) && Lowest(multiset(Find(rows, ByType, q)), 1, byType)
      requires Inv(Snapshot())
      requires forall x :: x in rows ==> x.id in db.processes && db.processes[x.id] == x.process
      modifies db
      ensures reply == Ok && Inv(Snapshot())
      ensures found <==> exists x :: x in rows && Eligible(x, q)
      ensures !found ==> Snapshot() == old(Snapshot())
      ensures found ==> IsBest(rows, q, row) && row.id in db.processes
      ensures found ==> db.processes[row.id].state == Running && db.processes[row.id].executor == executor
    {
      found, row := Select(rows, q, byName, byType);
      if !found { return found, row, Ok; }
      ghost var before := Snapshot();
      SelectedCanBeAssigned(before, rows, q, row, executor);
      AssignEffect(before, row.id, executor);
      StepKeepsInv(before, Assign(row.id, executor));
      reply := HandleAssign(row.id, executor);
    }

    /** `unassignExecutor`, which checks nothing. */
    method HandleUnassign(id: Id) returns (reply: Reply)
      modifies db
      ensures id in old(db.processes) ==>
        reply == Ok
        && db.processes == old(db.processes)[id :=
             old(db.processes)[id].(state := Waiting, isAssigned := false, executor := "")]
      ensures id !in old(db.processes) ==> reply == Crash && db.processes == old(db.processes)
      ensures db.graphState == old(db.graphState)
    {
      if id !in db.processes { return Crash; }
      db.processes := db.processes[id := Unassigned(db.processes[id])];
      reply := Ok;
    }

    /** The timeout loop for one process. `expired` says that it has a deadline and the deadline has passed, `exhausted`
        that its retries are used up. */
    method HandleTimeout(id: Id, expired: bool, exhausted: bool)
      modifies db
      ensures Snapshot() == if !expired || id !in old(db.processes) || old(db.processes)[id].state != Running
                            then old(Snapshot())
                            else Apply(old(Snapshot()), if exhausted then CloseFailed(id) else TimeoutUnassign(id))
      ensures expired && id in old(db.processes) && old(db.processes)[id].state == Running ==>
        && id in db.processes
        && if exhausted then db.processes[id].state == Failed
           else db.processes[id] == old(db.processes)[id].(state := Waiting, isAssigned := false, executor := "")
    {
      if id !in db.processes || db.processes[id].state != Running || !expired { return; }
      if exhausted {
        ClosedIsFailed(Snapshot(), id);
        var _ := HandleCloseFailed(id);
      } else {
        var _ := HandleUnassign(id);
      }
    }

    /** `closeSuccessful`; marking a process that is not stored dereferences a nil pointer. */
    method HandleCloseSuccessful(id: Id) returns (reply: Reply)
      modifies db
      ensures Snapshot() == Apply(old(Snapshot()), CloseSuccessful(id))
      ensures id !in old(db.processes) ==> reply == Crash
      ensures id in old(db.processes) && old(db.processes)[id].state in {Waiting, Failed} ==> reply == Error
      ensures id in old(db.processes) && old(db.processes)[id].state in {Running, Success} ==>
        reply == ReplyTo(ResolveAll(roots, old(db.processes)[id := old(db.processes)[id].(state := Success)]))
    {
      if id !in db.processes { return Crash; }
      if !CanSucceed(db.processes[id]) { return Error; }
      db.processes := db.processes[id := db.processes[id].(state := Success)];
      reply := ResolveOrDefunct(id);
    }

    method HandleCloseFailed(id: Id) returns (reply: Reply)
      modifies db
      ensures Snapshot() == Apply(old(Snapshot()), CloseFailed(id))
      ensures id !in old(db.processes) || old(db.processes)[id].state in {Success, Failed} ==> reply == Error
      ensures id in old(db.processes) && old(db.processes)[id].state in {Waiting, Running} ==>
        reply == ReplyTo(ResolveAll(roots, old(db.processes)[id := old(db.processes)[id].(state := Failed)]))
    {
      if id !in db.processes || !CanFail(db.processes[id]) { return Error; }
      db.processes := db.processes[id := db.processes[id].(state := Failed)];
      reply := ResolveOrDefunct(id);
    }

    /** What both close handlers do after marking the process. */
    method ResolveOrDefunct(id: Id) returns (reply: Reply)
      modifies db
      ensures Snapshot() == AfterResolve(old(Snapshot()), id, ResolveAll(roots, old(db.processes)))
      ensures reply == ReplyTo(ResolveAll(roots, old(db.processes)))
    {
      var cause := ResolveGraph(db, roots);
      if cause.None? { return Ok; }
      if cause.value.NilParent? { return Crash; }
      var _ := HandleDefunct(id);
      reply := Error;
    }

    /** `addChild`; an empty `child` means that no child is named. A parent, a former child or a named child that is not
        stored dereferences a nil pointer, after the links above it have been written. */
    method HandleAddChild(parent: Id, id: Id, child: Id, executor: string, insert: bool) returns (reply: Reply)
      modifies db
      ensures db.graphState == old(db.graphState)
      ensures reply == Ok ==>
        && parent in old(db.processes) && old(db.processes)[parent].state == Running
        && old(db.processes)[parent].executor == executor && id !in old(db.processes)
      ensures !MayAddChild(old(db.processes), parent, id, executor) ==>
        db.processes == old(db.processes) && reply == if parent in old(db.processes) then Error else Crash
      ensures MayAddChild(old(db.processes), parent, id, executor) ==>
        db.processes == if insert then InsertChild(old(db.processes), parent, id)
                        else if child == "" then AppendChild(old(db.processes), parent, id)
                        else AppendAbove(old(db.processes), parent, id, child)
      ensures MayAddChild(old(db.processes), parent, id, executor) ==>
        var stored := if insert
                      then forall k :: k in old(db.processes)[parent].children ==> k in old(db.processes) || k == id
                      else child == "" || child == id || child in old(db.processes);
        reply == if stored then Ok else Crash
    {
      if parent !in db.processes { return Crash; }
      if !MayAddChild(db.processes, parent, id, executor) { return Error; }
      var kids := db.processes[parent].children;
      db.processes := db.processes[id := NewChild(parent)];
      if insert {
        db.processes := db.processes[id := db.processes[id].(children := kids)];
        db.processes := db.processes[parent := db.processes[parent].(children := [id])];
        ghost var target := Rewire(db.processes, parent, id, kids);
        assert target == InsertChild(old(db.processes), parent, id) by {
          assert old(db.processes)[id := NewChild(parent)][id := NewChild(parent).(children := kids)]
              == old(db.processes)[id := NewChild(parent).(children := kids)];
        }
        assert kids[0..] == kids;
        for i := 0 to |kids|
          invariant target == Rewire(db.processes, parent, id, kids[i..])
          invariant db.processes.Keys == old(db.processes).Keys + {id}
          invariant db.graphState == old(db.graphState)
          invariant forall j :: 0 <= j < i ==> kids[j] in db.processes
        {
          assert kids[i..][0] == kids[i] && kids[i..][1..] == kids[i + 1..];
          if kids[i] !in db.processes { return Crash; }
          var kid := db.processes[kids[i]];
          var newParents := RemoveAll(kid.parents, parent);
          db.processes := db.processes[kids[i] := kid.(parents := newParents + [id])];
        }
      } else {
        db.processes := db.processes[parent := db.processes[parent].(children := kids + [id])];
        if child != "" {
          db.processes := db.processes[id := db.processes[id].(children := [child])];
          if child !in db.processes { return Crash; }
          db.processes := db.processes[child := db.processes[child].(parents := db.processes[child].parents + [id])];
        }
      }
      reply := Ok;
    }
  }

  function ReplyTo(r: Resolution): Reply {
    match r
    case Resolved(_, _) => Ok
    case Stopped(_, _) => Error
    case Crashed(_, _) => Crash
  }

  /** The inner loop that copies a parent list without the old parent. */
  method RemoveAll(ids: seq<Id>, x: Id) returns (r: seq<Id>)
    ensures r == Without(ids, x)
  {
    r := [];
    assert ids[0..] == ids;
    for i := 0 to |ids|
      invariant Without(ids, x) == r + Without(ids[i..], x)
    {
      assert ids[i..][0] == ids[i] && ids[i..][1..] == ids[i + 1..];
      if ids[i] != x { r := r + [ids[i]]; }
    }
  }

  /** On any graph, a process that can be closed as failed is failed afterwards, whatever becomes of the rest. */
  lemma ClosedIsFailed(w: World, id: Id)
    requires id in w.store && CanFail(w.store[id])
    ensures id in Apply(w, CloseFailed(id)).store && Apply(w, CloseFailed(id)).store[id].state == Failed
  {
    ResolveOnlyFails(w.roots, w.store[id := w.store[id].(state := Failed)], w.roots, [], NO_TALLY);
  }

  lemma ResolveNeverStops(w: World, id: Id, executor: string)
    requires Inv(w) && id in w.store && Candidate(w.store[id])
    ensures ResolveRetry(w.roots, w.store[id := Assigned(w.store[id], executor)], MAX_RETRIES).Resolved?
  {
    var p := Assigned(w.store[id], executor);
    assert NothingEarlyAt(w.store, id);
    SetAndResolve(w, id, p);
    SetStateShape(w.store, w.roots, id, p);
    ResolveWellFormed(w.store[id := p], w.roots);
  }
}
