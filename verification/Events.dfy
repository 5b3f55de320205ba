/** The event handler's two-map listener index (pkg/server/event_handler.go). */
module Events {
  import opened Text

  /** What a listener subscribed to. An empty process id means that it wants every process. */
  datatype Subscription = Subscription(executorType: string, state: int, processId: string)

  /** `target`: the key of the outer map. */
  function Target(executorType: string, state: int): string {
    executorType + FormatInt(state)
  }

  /** Neither number, as text, ends in the other. */
  predicate Separate(s: int, r: int) {
    !HasSuffix(FormatInt(s), FormatInt(r)) && !HasSuffix(FormatInt(r), FormatInt(s))
  }

  lemma SuffixCollides(s: int, r: int)
    requires HasSuffix(FormatInt(s), FormatInt(r))
    ensures exists u :: Target("", s) == Target(u, r)
  {
    var x, y := FormatInt(s), FormatInt(r);
    var u := x[..|x| - |y|];
    assert u + y == x == "" + x;
    assert Target("", s) == Target(u, r);
  }

  lemma LongerKeyEnds(t: string, s: int, u: string, r: int)
    requires Target(t, s) == Target(u, r) && |FormatInt(r)| <= |FormatInt(s)|
    ensures HasSuffix(FormatInt(s), FormatInt(r))
    ensures s == r ==> t == u
  {
    var x, y, k := FormatInt(s), FormatInt(r), Target(t, s);
    assert k[|k| - |x|..] == x && k[|k| - |y|..] == y;
    assert x[|x| - |y|..] == k[|k| - |y|..];
    assert k[..|k| - |x|] == t && k[..|k| - |y|] == u;
  }

  /** The key determines executor type and state exactly when the states are equal or neither ends in the other. */
  lemma KeyIsInjectiveIff(s: int, r: int)
    ensures (forall t, u :: Target(t, s) == Target(u, r) ==> t == u && s == r) <==> s == r || Separate(s, r)
  {
    forall t, u | Target(t, s) == Target(u, r) && (s == r || Separate(s, r)) ensures t == u && s == r {
      if |FormatInt(r)| <= |FormatInt(s)| { LongerKeyEnds(t, s, u, r); } else { LongerKeyEnds(u, r, t, s); }
    }
    if s != r && !Separate(s, r) {
      if HasSuffix(FormatInt(s), FormatInt(r)) {
        SuffixCollides(s, r);
        var u :| Target("", s) == Target(u, r);
      } else {
        SuffixCollides(r, s);
        var u :| Target("", r) == Target(u, s);
      }
    }
  }

  /** Two keys that collide. */
  lemma TargetsCollide()
    ensures Target("a", 12) == Target("a1", 2) && Target("a", -1) == Target("a-", 1)
  {
    assert FormatNat(12) == FormatNat(1) + "2" && FormatNat(1) == "1" && FormatNat(2) == "2";
    assert "a" + ("-" + "1") == "a-" + "1";
  }

  predicate KeepsApart(r: int) {
    0 <= r < 10 || (if r < 0 then -r else r) % 10 > 3
  }

  /** A process is in one of the four states 0 to 3; a subscriber may ask for any number. Its key collides with none of
      a process exactly when the number has one digit or its last digit is above three. */
  lemma SeparateFromProcessStatesIff(r: int)
    ensures (forall s :: 0 <= s < 4 ==> r == s || Separate(r, s)) <==> KeepsApart(r)
  {
    var last := (if r < 0 then -r else r) % 10;
    forall s | 0 <= s < 4 ensures Separate(r, s) <==> s != last { SeparateFromDigit(r, s); }
    if last < 4 { SeparateFromDigit(r, last); }
  }

  lemma SeparateFromDigit(r: int, s: nat)
    requires s < 10
    ensures Separate(r, s) <==> s != (if r < 0 then -r else r) % 10
  {
    var n: nat := if r < 0 then -r else r;
    var x, y := FormatInt(r), FormatInt(s);
    LastDigit(n);
    assert y == [Digit(s)];
    assert x[|x| - 1..] == [x[|x| - 1]] == [Digit(n % 10)];
    assert HasSuffix(y, x) ==> x == y;
  }

  function Digit(d: nat): char
    requires d < 10
  {
    ('0' as int + d) as char
  }

  lemma LastDigit(n: nat)
    ensures FormatNat(n)[|FormatNat(n)| - 1] == Digit(n % 10)
  {
  }

  datatype Index = Index(listeners: map<string, set<string>>, processIds: map<string, string>, idCounter: nat)

  const EMPTY: Index := Index(map[], map[], 0)

  function Members(ix: Index, t: string): set<string> {
    if t in ix.listeners then ix.listeners[t] else {}
  }

  // ---------------------------------------------------------------- the operations on the index

  function Register(ix: Index, executorType: string, state: int, processId: string): Index {
    var t := Target(executorType, state);
    var id := FormatNat(ix.idCounter);
    Index(ix.listeners[t := Members(ix, t) + {id}],
          if processId != "" then ix.processIds[id := processId] else ix.processIds,
          ix.idCounter + 1)
  }

  function Unregister(ix: Index, executorType: string, state: int, id: string): Index {
    var t := Target(executorType, state);
    if t !in ix.listeners then ix
    else
      var left := ix.listeners[t] - {id};
      ix.(listeners := if left == {} then ix.listeners - {t} else ix.listeners[t := left],
          processIds := ix.processIds - {id})
  }

  /** The listeners that `sendSignal` delivers a process to. */
  function Receivers(ix: Index, executorType: string, state: int, processId: string): set<string> {
    set id | id in Members(ix, Target(executorType, state))
             && (id !in ix.processIds || ix.processIds[id] == processId)
  }

  // ---------------------------------------------------------------- the plain list of subscriptions

  function TargetOf(s: Subscription): string {
    Target(s.executorType, s.state)
  }

  predicate Wants(s: Subscription, executorType: string, state: int, processId: string) {
    s.executorType == executorType && s.state == state && (s.processId == "" || s.processId == processId)
  }

  ghost predicate Issued(id: string, counter: nat) {
    exists n: nat :: n < counter && id == FormatNat(n)
  }

  /** A listed subscription is found in the index, with its filter. */
  ghost predicate Indexed(ix: Index, subs: map<string, Subscription>, id: string) {
    && id in subs && Issued(id, ix.idCounter)
    && id in Members(ix, TargetOf(subs[id]))
    && (subs[id].processId != "" ==> id in ix.processIds)
  }

  /** An indexed listener is listed. */
  ghost predicate Listed(ix: Index, subs: map<string, Subscription>, t: string, id: string) {
    id in subs && TargetOf(subs[id]) == t
  }

  /** The index and the subscriptions, listed by listener id, describe the same thing. */
  ghost predicate Agrees(ix: Index, subs: map<string, Subscription>) {
    && (forall id {:trigger Indexed(ix, subs, id)} :: id in subs ==> Indexed(ix, subs, id))
    && (forall t, id {:trigger Listed(ix, subs, t, id)} :: id in Members(ix, t) ==> Listed(ix, subs, t, id))
    && (forall t :: t in ix.listeners ==> ix.listeners[t] != {})
    && (forall id :: id in ix.processIds ==> id in subs && subs[id].processId == ix.processIds[id] != "")
  }

  lemma NewIdIsFresh(n: nat)
    ensures !Issued(FormatNat(n), n)
  {
    forall m: nat | m < n ensures FormatNat(m) != FormatNat(n) {
      if FormatNat(m) == FormatNat(n) { FormatNatIsInjective(m, n); }
    }
  }

  lemma IssuedStays(id: string, n: nat)
    requires Issued(id, n) || id == FormatNat(n)
    ensures Issued(id, n + 1)
  {
    if Issued(id, n) { var m: nat :| m < n && id == FormatNat(m); }
  }

  lemma RegisterAgrees(ix: Index, subs: map<string, Subscription>, s: Subscription)
    requires Agrees(ix, subs)
    ensures Agrees(Register(ix, s.executorType, s.state, s.processId), subs[FormatNat(ix.idCounter) := s])
  {
    var id := FormatNat(ix.idCounter);
    NewIdIsFresh(ix.idCounter);
    assert !Indexed(ix, subs, id);
    var jx, now := Register(ix, s.executorType, s.state, s.processId), subs[id := s];
    forall x | x in now ensures Indexed(jx, now, x) {
      if x != id { assert Indexed(ix, subs, x); }
      IssuedStays(x, ix.idCounter);
    }
    forall t, x | x in Members(jx, t) ensures Listed(jx, now, t, x) {
      if x in Members(ix, t) { assert Listed(ix, subs, t, x); }
    }
  }

  /** The subscriptions that are left when `id` is taken out of the set for this executor type and state. */
  function Without(subs: map<string, Subscription>, t: string, id: string): map<string, Subscription> {
    if id in subs && TargetOf(subs[id]) == t then subs - {id} else subs
  }

  /** Unregistering keeps index and list in step exactly when it does not take the process filter from a listener that
      is registered under another executor type or state. */
  lemma UnregisterAgreesIff(ix: Index, subs: map<string, Subscription>, executorType: string, state: int, id: string)
    requires Agrees(ix, subs)
    ensures var t := Target(executorType, state);
      Agrees(Unregister(ix, executorType, state, id), Without(subs, t, id))
      <==> (t !in ix.listeners || id !in ix.processIds || TargetOf(subs[id]) == t)
  {
    var t := Target(executorType, state);
    var jx, left := Unregister(ix, executorType, state, id), Without(subs, t, id);
    if t in ix.listeners {
      if id in ix.processIds && TargetOf(subs[id]) != t {
        assert id in left && left[id].processId != "" && !Indexed(jx, left, id);
      } else {
        KeepsMembers(ix, subs, executorType, state, id);
      }
    } else {
      assert left == subs by { if id in subs { assert Indexed(ix, subs, id); } }
    }
  }

  lemma KeepsMembers(ix: Index, subs: map<string, Subscription>, executorType: string, state: int, id: string)
    requires Agrees(ix, subs) && Target(executorType, state) in ix.listeners
    requires id !in ix.processIds || TargetOf(subs[id]) == Target(executorType, state)
    ensures Agrees(Unregister(ix, executorType, state, id), Without(subs, Target(executorType, state), id))
  {
    var t := Target(executorType, state);
    var jx, left := Unregister(ix, executorType, state, id), Without(subs, t, id);
    forall x | x in left ensures Indexed(jx, left, x) {
      assert Indexed(ix, subs, x);
    }
    forall u, x | x in Members(jx, u) ensures Listed(jx, left, u, x) {
      assert x in Members(ix, u) && Listed(ix, subs, u, x);
    }
  }

  /** The listeners whose subscription asks for the signal. */
  function WantedBy(subs: map<string, Subscription>, executorType: string, state: int, processId: string): set<string> {
    set id | id in subs && Wants(subs[id], executorType, state, processId)
  }

  /** A subscription to another executor type or state that has the same key and lets the process through. */
  predicate Intrudes(s: Subscription, executorType: string, state: int, processId: string) {
    && TargetOf(s) == Target(executorType, state)
    && !(s.executorType == executorType && s.state == state)
    && (s.processId == "" || s.processId == processId)
  }

  /** A signal reaches every subscription that asks for it, and no other exactly when no subscription intrudes. */
  lemma ReceiversAreExactIff(ix: Index, subs: map<string, Subscription>, executorType: string, state: int,
                             processId: string)
    requires Agrees(ix, subs)
    ensures WantedBy(subs, executorType, state, processId) <= Receivers(ix, executorType, state, processId)
    ensures Receivers(ix, executorType, state, processId) == WantedBy(subs, executorType, state, processId)
            <==> forall id :: id in subs ==> !Intrudes(subs[id], executorType, state, processId)
  {
    var t := Target(executorType, state);
    forall id | id in subs
      ensures id in Members(ix, t) <==> TargetOf(subs[id]) == t
      ensures subs[id].processId == "" <==> id !in ix.processIds
    {
      assert Indexed(ix, subs, id);
      if id in Members(ix, t) { assert Listed(ix, subs, t, id); }
    }
    forall id | id in Members(ix, t) ensures id in subs { assert Listed(ix, subs, t, id); }
    assert forall id :: id in subs ==>
      (id in Receivers(ix, executorType, state, processId)
       <==> id in WantedBy(subs, executorType, state, processId)
            || Intrudes(subs[id], executorType, state, processId));
  }

  /** Both maps are empty once every subscriber has left. */
  lemma EmptyWhenAllLeft(ix: Index, subs: map<string, Subscription>)
    requires Agrees(ix, subs)
    ensures subs == map[] ==> ix.listeners == map[] && ix.processIds == map[]
  {
    forall t | t in ix.listeners ensures exists id :: id in subs {
      var id :| id in ix.listeners[t];
      assert Listed(ix, subs, t, id);
    }
  }

  // ---------------------------------------------------------------- runs

  /** Subscribers register and later unregister with what they registered with. */
  datatype Op = Subscribe(s: Subscription) | Leave(id: string)

  /** The index and the plain list after one operation. */
  function Next(ix: Index, subs: map<string, Subscription>, op: Op): (Index, map<string, Subscription>) {
    match op
    case Subscribe(s) =>
      (Register(ix, s.executorType, s.state, s.processId), subs[FormatNat(ix.idCounter) := s])
    case Leave(id) =>
      if id in subs then (Unregister(ix, subs[id].executorType, subs[id].state, id), subs - {id}) else (ix, subs)
  }

  function RunIndex(ix: Index, subs: map<string, Subscription>, ops: seq<Op>): (Index, map<string, Subscription>)
    decreases |ops|
  {
    if ops == [] then (ix, subs) else var n := Next(ix, subs, ops[0]); RunIndex(n.0, n.1, ops[1..])
  }

  lemma NextAgrees(ix: Index, subs: map<string, Subscription>, op: Op)
    requires Agrees(ix, subs)
    ensures var n := Next(ix, subs, op); Agrees(n.0, n.1)
  {
    match op
    case Subscribe(s) => RegisterAgrees(ix, subs, s);
    case Leave(id) =>
      if id in subs { UnregisterAgreesIff(ix, subs, subs[id].executorType, subs[id].state, id); }
  }

  /** For every sequence of registrations and matching unregistrations the two-map index agrees with the plain list. */
  lemma {:induction false} RunAgrees(ix: Index, subs: map<string, Subscription>, ops: seq<Op>)
    requires Agrees(ix, subs)
    ensures var r := RunIndex(ix, subs, ops); Agrees(r.0, r.1)
    decreases |ops|
  {
    if ops != [] {
      NextAgrees(ix, subs, ops[0]);
      var n := Next(ix, subs, ops[0]);
      RunAgrees(n.0, n.1, ops[1..]);
    }
  }

  ghost predicate SubscribedIn(ops: seq<Op>, states: set<int>) {
    forall i :: 0 <= i < |ops| && ops[i].Subscribe? ==> ops[i].s.state in states
  }

  lemma {:induction false} RunStates(ix: Index, subs: map<string, Subscription>, ops: seq<Op>, states: set<int>)
    requires SubscribedIn(ops, states) && forall id :: id in subs ==> subs[id].state in states
    ensures forall id :: id in RunIndex(ix, subs, ops).1 ==> RunIndex(ix, subs, ops).1[id].state in states
    decreases |ops|
  {
    if ops != [] {
      var n := Next(ix, subs, ops[0]);
      assert forall id :: id in n.1 ==> n.1[id].state in states;
      RunStates(n.0, n.1, ops[1..], states);
    }
  }

  /** After the run, a signal reaches exactly the subscriptions that ask for it. */
  ghost predicate ExactAfter(ops: seq<Op>, executorType: string, state: int, processId: string) {
    var now := RunIndex(EMPTY, map[], ops);
    Receivers(now.0, executorType, state, processId) == WantedBy(now.1, executorType, state, processId)
  }

  lemma SeparateRunIsExact(ops: seq<Op>, subscribed: set<int>, executorType: string, state: int, processId: string)
    requires SubscribedIn(ops, subscribed) && forall r :: r in subscribed ==> r == state || Separate(r, state)
    ensures ExactAfter(ops, executorType, state, processId)
  {
    RunAgrees(EMPTY, map[], ops);
    RunStates(EMPTY, map[], ops, subscribed);
    var now := RunIndex(EMPTY, map[], ops);
    forall id | id in now.1 ensures !Intrudes(now.1[id], executorType, state, processId) {
      KeyIsInjectiveIff(now.1[id].state, state);
    }
    ReceiversAreExactIff(now.0, now.1, executorType, state, processId);
  }

  /** One subscription is enough to go wrong when its state and that of the signal are not separate. */
  lemma OneSubscriptionIntrudes(r: int, s: int) returns (sub: Subscription, executorType: string)
    requires r != s && !Separate(r, s)
    ensures sub.state == r && !ExactAfter([Subscribe(sub)], executorType, s, "")
  {
    KeyIsInjectiveIff(r, s);
    var t, u :| Target(t, r) == Target(u, s) && !(t == u && r == s);
    sub, executorType := Subscription(t, r, ""), u;
    var ops := [Subscribe(sub)];
    RunAgrees(EMPTY, map[], ops);
    assert ops[1..] == [];
    var now := RunIndex(EMPTY, map[], ops);
    assert now.1 == map[FormatNat(0) := sub];
    assert Intrudes(now.1[FormatNat(0)], u, s, "");
    ReceiversAreExactIff(now.0, now.1, u, s, "");
  }

  /** Whatever subscribers to these states do, signals of the state `s` are delivered exactly. */
  ghost predicate AlwaysExact(subscribed: set<int>, s: int) {
    forall ops, t, p :: SubscribedIn(ops, subscribed) ==> ExactAfter(ops, t, s, p)
  }

  ghost predicate SeparateFrom(subscribed: set<int>, s: int) {
    forall r :: r in subscribed ==> r == s || Separate(r, s)
  }

  lemma AlwaysExactIff(subscribed: set<int>, s: int)
    ensures AlwaysExact(subscribed, s) <==> SeparateFrom(subscribed, s)
  {
    if SeparateFrom(subscribed, s) {
      forall ops, t, p | SubscribedIn(ops, subscribed) ensures ExactAfter(ops, t, s, p) {
        SeparateRunIsExact(ops, subscribed, t, s, p);
      }
    } else {
      var r :| r in subscribed && r != s && !Separate(r, s);
      NotAlwaysExact(subscribed, r, s);
    }
  }

  lemma NotAlwaysExact(subscribed: set<int>, r: int, s: int)
    requires r in subscribed && r != s && !Separate(r, s)
    ensures !AlwaysExact(subscribed, s)
  {
    var sub, t := OneSubscriptionIntrudes(r, s);
    var ops := [Subscribe(sub)];
    assert SubscribedIn(ops, subscribed) && !ExactAfter(ops, t, s, "");
  }

  /** When subscribers use the states `subscribed` and signals the states `signalled`, every signal of every run is
      delivered exactly, exactly when states of the two kinds that differ are separate. */
  lemma RunsDeliverExactlyIff(subscribed: set<int>, signalled: set<int>)
    ensures (forall s :: s in signalled ==> AlwaysExact(subscribed, s))
            <==> forall r, s :: r in subscribed && s in signalled ==> r == s || Separate(r, s)
  {
    forall s | s in signalled ensures AlwaysExact(subscribed, s) <==> SeparateFrom(subscribed, s) {
      AlwaysExactIff(subscribed, s);
    }
    assert forall s :: SeparateFrom(subscribed, s) <==> forall r :: r in subscribed ==> r == s || Separate(r, s);
  }

  /** Processes are in the states 0 to 3. Every signal of every run is delivered exactly, exactly when each subscribed
      state has one digit or a last digit above three. */
  lemma ProcessSignalsAreExactIff(subscribed: set<int>)
    ensures (forall s :: 0 <= s < 4 ==> AlwaysExact(subscribed, s))
            <==> forall r :: r in subscribed ==> KeepsApart(r)
  {
    forall s ensures AlwaysExact(subscribed, s) <==> SeparateFrom(subscribed, s) { AlwaysExactIff(subscribed, s); }
    if forall s :: 0 <= s < 4 ==> AlwaysExact(subscribed, s) {
      forall r | r in subscribed ensures KeepsApart(r) {
        forall s | 0 <= s < 4 ensures r == s || Separate(r, s) { assert SeparateFrom(subscribed, s); }
        SeparateFromProcessStatesIff(r);
      }
    }
    if forall r :: r in subscribed ==> KeepsApart(r) {
      forall r, s | r in subscribed && 0 <= s < 4 ensures r == s || Separate(r, s) {
        SeparateFromProcessStatesIff(r);
      }
      assert forall s :: 0 <= s < 4 ==> SeparateFrom(subscribed, s);
    }
  }

  // ---------------------------------------------------------------- the handler

  datatype Signal = Signal(executorType: string, state: int, processId: string)

  class EventHandler {
    var listeners: map<string, set<string>>
    var processIds: map<string, string>
    var idCounter: nat
    /** What has been sent to each listener's channel. */
    var channels: map<string, seq<Signal>>

    ghost function View(): Index reads this { Index(listeners, processIds, idCounter) }

    ghost predicate Valid() reads this {
      forall t, id :: t in listeners && id in listeners[t] ==> id in channels
    }

    constructor ()
      ensures Valid() && View() == EMPTY && Agrees(View(), map[])
    {
      listeners, processIds, idCounter, channels := map[], map[], 0, map[];
    }

    method DoRegister(executorType: string, state: int, processId: string) returns (id: string)
      requires Valid()
      modifies this
      ensures Valid() && View() == Register(old(View()), executorType, state, processId)
      ensures id == FormatNat(old(idCounter)) && channels == old(channels)[id := []]
    {
      var t := Target(executorType, state);
      if t !in listeners { listeners := listeners[t := {}]; }
      id := FormatNat(idCounter);
      listeners := listeners[t := listeners[t] + {id}];
      channels := channels[id := []];
      if processId != "" { processIds := processIds[id := processId]; }
      idCounter := idCounter + 1;
    }

    method DoUnregister(executorType: string, state: int, id: string)
      requires Valid()
      modifies this
      ensures Valid() && View() == Unregister(old(View()), executorType, state, id)
      ensures channels == old(channels)
    {
      var t := Target(executorType, state);
      if t in listeners {
        listeners := listeners[t := listeners[t] - {id}];
        processIds := processIds - {id};
      }
      if t !in listeners || listeners[t] == {} {
        listeners := listeners - {t};
      }
    }

    /** Delivers the process once to each receiver, in whatever order the inner map is walked. */
    method SendSignal(p: Signal)
      requires Valid()
      modifies this`channels
      ensures Valid() && channels.Keys == old(channels).Keys
      ensures forall id :: id in channels ==>
        channels[id] == old(channels)[id]
          + if id in Receivers(View(), p.executorType, p.state, p.processId) then [p] else []
    {
      var t := Target(p.executorType, p.state);
      if t in listeners {
        var todo := listeners[t];
        ghost var before := channels;
        while todo != {}
          invariant todo <= listeners[t] && Valid() && channels.Keys == before.Keys
          invariant forall id :: id in channels ==>
            channels[id] == before[id] +
              (if id in Receivers(View(), p.executorType, p.state, p.processId) && id !in todo then [p] else [])
        {
          var id :| id in todo;
          if id !in processIds || processIds[id] == p.processId {
            channels := channels[id := channels[id] + [p]];
          }
          todo := todo - {id};
        }
      }
    }
  }
}
