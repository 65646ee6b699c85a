/**
 Request coalescing (pkg/clients/cache_manager.go, coalesceRequest) as interleaved
 steps.  The first caller to miss on a key becomes its leader and runs the loader;
 callers that arrive while the request is in flight wait for the leader's result.

 A step is one critical section of the in-flight lock, or one write the leader
 makes between them.  Loaders are taken to return.
 */
module Coalescing {
  import opened Common
  import CacheGraph

  type Id = nat
  type Key = CacheGraph.Key

  datatype Result = Value(data: string) | Failed(error: string)

  /** How far the leader of a request has come. */
  datatype Phase =
    | Running   // in the in-flight map, loader not yet returned
    | Stored    // result and error written to the request
    | Cached    // a successful result written to the cache
    | Unlinked  // deleted from the in-flight map
    | Signalled // the done channel is closed

  datatype Request = Request(key: Key, leader: Id, phase: Phase, result: Option<Result>, waiters: nat, counted: bool)

  datatype Caller =
    | Leading(req: nat)
    | Led(req: nat, got: Result)
    | WaitingOn(req: nat)
    | Woken(req: nat, got: Result)
    | GaveUp(req: nat)

  datatype State = State(
    requests: seq<Request>,
    inflight: map<Key, nat>,
    callers: map<Id, Caller>,
    writes: seq<(Key, string)>, // history: successful results handed to the cache
    coalesced: nat,             // metric CoalescedRequests
    saved: nat                  // metric CoalescingSaved
  )

  datatype Step =
    | Enter(c: Id, key: Key)
    | LoaderReturns(c: Id, result: Result)
    | StoreInCache(c: Id)
    | Unlink(c: Id)
    | Signal(c: Id)
    | LeaderReturns(c: Id)
    | Wake(c: Id)
    | GiveUp(c: Id)

  const Init := State([], map[], map[], [], 0, 0)

  predicate Leads(s: State, c: Id, p: Phase) {
    c in s.callers && s.callers[c].Leading? && s.callers[c].req < |s.requests|
    && s.requests[s.callers[c].req].phase == p
  }

  function Advance(s: State, c: Id, p: Phase): State
    requires c in s.callers && s.callers[c].Leading? && s.callers[c].req < |s.requests|
  {
    var r := s.callers[c].req;
    s.(requests := s.requests[r := s.requests[r].(phase := p)])
  }

  predicate Linked(p: Phase) {
    p.Running? || p.Stored? || p.Cached?
  }

  /** The first critical section: join the request in flight, or start one. */
  function NextEnter(s: State, c: Id, key: Key): Option<State> {
    if c in s.callers then None
    else if key in s.inflight then
      var r := s.inflight[key];
      if r < |s.requests| then
        Some(s.(requests := s.requests[r := s.requests[r].(waiters := s.requests[r].waiters + 1)],
                callers := s.callers[c := WaitingOn(r)]))
      else None
    else Some(Started(s, c, key))
  }

  /** The state after a caller has started a request of its own. */
  function Started(s: State, c: Id, key: Key): State {
    var r := |s.requests|;
    s.(requests := s.requests + [Request(key, c, Running, None, 0, false)],
       inflight := s.inflight[key := r],
       callers := s.callers[c := Leading(r)])
  }

  function NextLeader(s: State, step: Step): Option<State>
    requires IsLeaderStep(step)
  {
    match step
    case LoaderReturns(c, result) =>
      if Leads(s, c, Running) then
        var r := s.callers[c].req;
        Some(s.(requests := s.requests[r := s.requests[r].(phase := Stored, result := Some(result))]))
      else None
    case StoreInCache(c) =>
      if Leads(s, c, Stored) then
        var req := s.requests[s.callers[c].req];
        Some(Advance(s, c, Cached).(
          writes := if req.result.Some? && req.result.value.Value?
                    then s.writes + [(req.key, req.result.value.data)] else s.writes))
      else None
    case Unlink(c) =>
      if Leads(s, c, Cached) then
        Some(Advance(s, c, Unlinked).(inflight := s.inflight - {s.requests[s.callers[c].req].key}))
      else None
    case Signal(c) =>
      if Leads(s, c, Unlinked) then Some(Advance(s, c, Signalled)) else None
    case LeaderReturns(c) =>
      if Leads(s, c, Signalled) && s.requests[s.callers[c].req].result.Some? then
        var r := s.callers[c].req;
        var n := s.requests[r].waiters;
        Some(s.(requests := s.requests[r := s.requests[r].(counted := true)],
                callers := s.callers[c := Led(r, s.requests[r].result.value)],
                coalesced := if n > 0 then s.coalesced + 1 else s.coalesced,
                saved := s.saved + n))
      else None
  }

  function NextWaiter(s: State, step: Step): Option<State>
    requires step.Wake? || step.GiveUp?
  {
    var c := step.c;
    if c !in s.callers || !s.callers[c].WaitingOn? || s.callers[c].req >= |s.requests| then None
    else
      var r := s.callers[c].req;
      match step
      case Wake(_) =>
        if s.requests[r].phase.Signalled? && s.requests[r].result.Some? then
          Some(s.(callers := s.callers[c := Woken(r, s.requests[r].result.value)], saved := s.saved + 1))
        else None
      case GiveUp(_) => Some(s.(callers := s.callers[c := GaveUp(r)]))
  }

  function Next(s: State, step: Step): Option<State> {
    match step
    case Enter(c, key) => NextEnter(s, c, key)
    case Wake(_) => NextWaiter(s, step)
    case GiveUp(_) => NextWaiter(s, step)
    case _ => NextLeader(s, step)
  }

  function Exec(s: State, run: seq<Step>): Option<State>
    decreases |run|
  {
    if run == [] then Some(s)
    else
      match Exec(s, run[..|run| - 1])
      case None => None
      case Some(t) => Next(t, run[|run| - 1])
  }

  ghost predicate Reachable(s: State) {
    exists run :: Exec(Init, run) == Some(s)
  }

  // ---------------------------------------------------------------- invariants

  /** The in-flight map and the linked requests describe each other. */
  ghost predicate MapInv(s: State) {
    && (forall k :: k in s.inflight ==>
          s.inflight[k] < |s.requests| && s.requests[s.inflight[k]].key == k && Linked(s.requests[s.inflight[k]].phase))
    && (forall r :: 0 <= r < |s.requests| && Linked(s.requests[r].phase) ==>
          s.requests[r].key in s.inflight && s.inflight[s.requests[r].key] == r)
  }

  ghost predicate RequestOk(s: State, r: nat)
    requires r < |s.requests|
  {
    var q := s.requests[r];
    && (q.result.Some? <==> !q.phase.Running?)
    && q.leader in s.callers
    && (if q.counted then q.phase.Signalled? && s.callers[q.leader] == Led(r, q.result.value)
        else s.callers[q.leader] == Leading(r))
    && ((q.phase.Cached? || q.phase.Unlinked? || q.phase.Signalled?) && q.result.value.Value? ==>
          (q.key, q.result.value.data) in s.writes)
  }

  ghost predicate CallerOk(s: State, c: Id)
    requires c in s.callers
  {
    var p := s.callers[c];
    && p.req < |s.requests|
    && (p.Leading? || p.Led? ==> s.requests[p.req].leader == c)
    && (p.Led? || p.Woken? ==> s.requests[p.req].phase.Signalled? && s.requests[p.req].result == Some(p.got))
  }

  ghost predicate PeopleInv(s: State) {
    && (forall r :: 0 <= r < |s.requests| ==> RequestOk(s, r))
    && (forall c :: c in s.callers ==> CallerOk(s, c))
  }

  function SumWaiters(q: seq<Request>): nat {
    if q == [] then 0 else SumWaiters(q[..|q| - 1]) + q[|q| - 1].waiters
  }

  function SumCounted(q: seq<Request>): nat {
    if q == [] then 0
    else SumCounted(q[..|q| - 1]) + if q[|q| - 1].counted then q[|q| - 1].waiters else 0
  }

  predicate Joined(p: Caller) {
    p.WaitingOn? || p.Woken? || p.GaveUp?
  }

  function Joiners(m: map<Id, Caller>): set<Id> {
    set c | c in m && Joined(m[c])
  }

  function WokenOnes(m: map<Id, Caller>): set<Id> {
    set c | c in m && m[c].Woken?
  }

  ghost predicate CountInv(s: State) {
    && SumWaiters(s.requests) == |Joiners(s.callers)|
    && s.saved == SumCounted(s.requests) + |WokenOnes(s.callers)|
  }

  ghost predicate Inv(s: State) {
    MapInv(s) && PeopleInv(s) && CountInv(s)
  }

  lemma {:induction false} SumsUpdate(q: seq<Request>, r: nat, x: Request)
    requires r < |q|
    ensures SumWaiters(q[r := x]) == SumWaiters(q) - q[r].waiters + x.waiters
    ensures SumCounted(q[r := x]) == SumCounted(q) - (if q[r].counted then q[r].waiters else 0)
                                     + (if x.counted then x.waiters else 0)
    decreases |q|
  {
    var last := |q| - 1;
    if r == last {
      assert q[r := x][..last] == q[..last];
    } else {
      assert q[r := x][..last] == q[..last][r := x];
      SumsUpdate(q[..last], r, x);
    }
  }

  lemma SumsAppend(q: seq<Request>, x: Request)
    ensures SumWaiters(q + [x]) == SumWaiters(q) + x.waiters
    ensures SumCounted(q + [x]) == SumCounted(q) + if x.counted then x.waiters else 0
  {
    assert (q + [x])[..|q|] == q;
  }

  lemma JoinersMove(m: map<Id, Caller>, c: Id, p: Caller)
    requires c in m ==> (Joined(m[c]) <==> Joined(p))
    ensures |Joiners(m[c := p])| == |Joiners(m)| + if c !in m && Joined(p) then 1 else 0
  {
    var m' := m[c := p];
    if Joined(p) && c !in m {
      assert c !in Joiners(m);
      assert Joiners(m') == Joiners(m) + {c};
    } else {
      assert Joiners(m') == Joiners(m);
    }
  }

  lemma WokenMove(m: map<Id, Caller>, c: Id, p: Caller)
    requires c in m ==> !m[c].Woken?
    ensures |WokenOnes(m[c := p])| == |WokenOnes(m)| + if p.Woken? then 1 else 0
  {
    var m' := m[c := p];
    if p.Woken? {
      assert c !in WokenOnes(m);
      assert WokenOnes(m') == WokenOnes(m) + {c};
    } else {
      assert WokenOnes(m') == WokenOnes(m);
    }
  }

  lemma SetsMove(m: map<Id, Caller>, c: Id, p: Caller)
    requires c in m ==> (Joined(m[c]) <==> Joined(p)) && !m[c].Woken?
    ensures |Joiners(m[c := p])| == |Joiners(m)| + if c !in m && Joined(p) then 1 else 0
    ensures |WokenOnes(m[c := p])| == |WokenOnes(m)| + if p.Woken? then 1 else 0
  {
    JoinersMove(m, c, p);
    WokenMove(m, c, p);
  }

  lemma JoinKeepsInv(s: State, c: Id, key: Key)
    requires Inv(s) && key in s.inflight && NextEnter(s, c, key).Some?
    ensures Inv(NextEnter(s, c, key).value)
  {
    var s' := NextEnter(s, c, key).value;
    var r := s.inflight[key];
    assert RequestOk(s, r);
    assert CountInv(s') by {
      SetsMove(s.callers, c, WaitingOn(r));
      SumsUpdate(s.requests, r, s'.requests[r]);
    }
    assert PeopleInv(s') by {
      forall q | 0 <= q < |s'.requests| ensures RequestOk(s', q) {
        assert RequestOk(s, q);
      }
      forall d | d in s'.callers ensures CallerOk(s', d) {
        if d != c { assert CallerOk(s, d); }
      }
    }
  }

  lemma StartKeepsMap(s: State, c: Id, key: Key)
    requires MapInv(s) && key !in s.inflight
    ensures MapInv(Started(s, c, key))
  {
  }

  lemma StartKeepsCounts(s: State, c: Id, key: Key)
    requires CountInv(s) && c !in s.callers
    ensures CountInv(Started(s, c, key))
  {
    var n := |s.requests|;
    SetsMove(s.callers, c, Leading(n));
    SumsAppend(s.requests, Started(s, c, key).requests[n]);
  }

  lemma StartKeepsPeople(s: State, c: Id, key: Key)
    requires PeopleInv(s) && c !in s.callers
    ensures PeopleInv(Started(s, c, key))
  {
    var s' := Started(s, c, key);
    forall q | 0 <= q < |s'.requests| ensures RequestOk(s', q) {
      if q < |s.requests| { assert RequestOk(s, q); }
    }
    forall d | d in s'.callers ensures CallerOk(s', d) {
      if d != c { assert CallerOk(s, d); }
    }
  }

  lemma StartKeepsInv(s: State, c: Id, key: Key)
    requires Inv(s) && key !in s.inflight && NextEnter(s, c, key).Some?
    ensures Inv(NextEnter(s, c, key).value)
  {
    StartKeepsMap(s, c, key);
    StartKeepsCounts(s, c, key);
    StartKeepsPeople(s, c, key);
  }

  predicate IsLeaderStep(step: Step) {
    step.LoaderReturns? || step.StoreInCache? || step.Unlink? || step.Signal? || step.LeaderReturns?
  }

  /** The map stays right when one request moves without being linked or unlinked. */
  lemma SameLinksKeepMap(s: State, s': State, r: nat, q: Request)
    requires MapInv(s) && r < |s.requests| && s'.requests == s.requests[r := q] && s'.inflight == s.inflight
    requires q.key == s.requests[r].key && (Linked(q.phase) <==> Linked(s.requests[r].phase))
    ensures MapInv(s')
  {
  }

  lemma UnlinkKeepsMap(s: State, s': State, r: nat, q: Request)
    requires MapInv(s) && r < |s.requests| && s'.requests == s.requests[r := q]
    requires Linked(s.requests[r].phase) && !Linked(q.phase) && s'.inflight == s.inflight - {s.requests[r].key}
    ensures MapInv(s')
  {
  }

  lemma LeaderKeepsMap(s: State, step: Step)
    requires IsLeaderStep(step) && MapInv(s) && NextLeader(s, step).Some?
    ensures MapInv(NextLeader(s, step).value)
  {
    var s' := NextLeader(s, step).value;
    var r := s.callers[step.c].req;
    if step.Unlink? {
      UnlinkKeepsMap(s, s', r, s'.requests[r]);
    } else {
      SameLinksKeepMap(s, s', r, s'.requests[r]);
    }
  }

  lemma LeaderKeepsCounts(s: State, step: Step)
    requires IsLeaderStep(step) && Inv(s) && NextLeader(s, step).Some?
    ensures CountInv(NextLeader(s, step).value)
  {
    var s' := NextLeader(s, step).value;
    var r := s.callers[step.c].req;
    assert CallerOk(s, step.c) && RequestOk(s, r);
    SumsUpdate(s.requests, r, s'.requests[r]);
    if step.LeaderReturns? {
      SetsMove(s.callers, step.c, s'.callers[step.c]);
    }
  }

  lemma LeaderKeepsPeople(s: State, step: Step)
    requires IsLeaderStep(step) && Inv(s) && NextLeader(s, step).Some?
    ensures PeopleInv(NextLeader(s, step).value)
  {
    var s' := NextLeader(s, step).value;
    var r := s.callers[step.c].req;
    assert CallerOk(s, step.c) && RequestOk(s, r);
    forall q | 0 <= q < |s'.requests| ensures RequestOk(s', q) {
      assert RequestOk(s, q);
    }
    forall d | d in s'.callers ensures CallerOk(s', d) {
      assert CallerOk(s, d);
    }
  }

  lemma WaiterKeepsInv(s: State, step: Step)
    requires step.Wake? || step.GiveUp?
    requires Inv(s) && NextWaiter(s, step).Some?
    ensures Inv(NextWaiter(s, step).value)
  {
    var s' := NextWaiter(s, step).value;
    SetsMove(s.callers, step.c, s'.callers[step.c]);
    assert PeopleInv(s') by {
      forall q | 0 <= q < |s'.requests| ensures RequestOk(s', q) {
        assert RequestOk(s, q);
      }
      forall d | d in s'.callers ensures CallerOk(s', d) {
        assert CallerOk(s, d);
      }
    }
  }

  lemma NextKeepsInv(s: State, step: Step)
    requires Inv(s) && Next(s, step).Some?
    ensures Inv(Next(s, step).value)
  {
    match step
    case Enter(c, key) =>
      if key in s.inflight {
        JoinKeepsInv(s, c, key);
      } else {
        StartKeepsInv(s, c, key);
      }
    case Wake(_) => WaiterKeepsInv(s, step);
    case GiveUp(_) => WaiterKeepsInv(s, step);
    case _ =>
      LeaderKeepsMap(s, step);
      LeaderKeepsCounts(s, step);
      LeaderKeepsPeople(s, step);
  }

  lemma {:induction false} RunKeepsInv(run: seq<Step>)
    requires Exec(Init, run).Some?
    ensures Inv(Exec(Init, run).value)
    decreases |run|
  {
    if run == [] {
      assert Joiners(Init.callers) == {} && WokenOnes(Init.callers) == {};
    } else {
      RunKeepsInv(run[..|run| - 1]);
      NextKeepsInv(Exec(Init, run[..|run| - 1]).value, run[|run| - 1]);
    }
  }

  lemma ReachableInv(s: State)
    requires Reachable(s)
    ensures Inv(s)
  {
    var run :| Exec(Init, run) == Some(s);
    RunKeepsInv(run);
  }

  // ---------------------------------------------------------------- the results

  /** At most one loader runs per key, under every interleaving. */
  lemma OneLoaderPerKey(s: State, c: Id, d: Id)
    requires Reachable(s)
    requires Leads(s, c, Running) && Leads(s, d, Running)
    requires s.requests[s.callers[c].req].key == s.requests[s.callers[d].req].key
    ensures c == d
  {
    ReachableInv(s);
    assert CallerOk(s, c) && CallerOk(s, d);
  }

  lemma ResultOrigin(s: State, step: Step, r: nat)
    requires Inv(s) && Next(s, step).Some?
    requires r < |Next(s, step).value.requests| && Next(s, step).value.requests[r].result.Some?
    ensures var q := Next(s, step).value.requests[r];
            || step == LoaderReturns(q.leader, q.result.value)
            || (r < |s.requests| && s.requests[r].leader == q.leader && s.requests[r].result == q.result)
  {
    if IsLeaderStep(step) {
      assert CallerOk(s, step.c);
    }
  }

  /** The result in a request is one its own leader's loader returned during the run. */
  lemma {:induction false} ResultsComeFromLoaders(run: seq<Step>, r: nat)
    requires Exec(Init, run).Some?
    requires r < |Exec(Init, run).value.requests| && Exec(Init, run).value.requests[r].result.Some?
    ensures var q := Exec(Init, run).value.requests[r]; LoaderReturns(q.leader, q.result.value) in run
    decreases |run|
  {
    var before, last := run[..|run| - 1], run[|run| - 1];
    RunKeepsInv(before);
    ResultOrigin(Exec(Init, before).value, last, r);
    var q := Exec(Init, run).value.requests[r];
    if last != LoaderReturns(q.leader, q.result.value) {
      ResultsComeFromLoaders(before, r);
    }
  }

  /**
   What a caller gets back, value or error, is what the loader of the request it
   led or joined returned in this run; and a value was handed to the cache before.
   */
  lemma CallersGetTheLoadersResult(run: seq<Step>, c: Id)
    requires Exec(Init, run).Some? && c in Exec(Init, run).value.callers
    requires Exec(Init, run).value.callers[c].Woken? || Exec(Init, run).value.callers[c].Led?
    ensures var s := Exec(Init, run).value;
            var p := s.callers[c];
            && p.req < |s.requests|
            && LoaderReturns(s.requests[p.req].leader, p.got) in run
            && (p.got.Value? ==> (s.requests[p.req].key, p.got.data) in s.writes)
  {
    RunKeepsInv(run);
    var s := Exec(Init, run).value;
    assert CallerOk(s, c) && RequestOk(s, s.callers[c].req);
    ResultsComeFromLoaders(run, s.callers[c].req);
  }

  /** What a step does to who asked for what: only entering adds a caller or a request, and nobody changes requests. */
  lemma StepKeepsAsking(s: State, step: Step)
    requires Next(s, step).Some?
    ensures var t := Next(s, step).value;
            && |s.requests| <= |t.requests|
            && (forall r :: 0 <= r < |s.requests| ==>
                  t.requests[r].key == s.requests[r].key && t.requests[r].leader == s.requests[r].leader)
            && (forall c :: c in s.callers ==> c in t.callers && t.callers[c].req == s.callers[c].req)
            && (!step.Enter? ==> |t.requests| == |s.requests|)
  {
  }

  /** A caller that enters leads or joins a request for the key it asked for. */
  lemma EnterAsksForKey(s: State, c: Id, key: Key)
    requires MapInv(s) && NextEnter(s, c, key).Some?
    ensures var t := NextEnter(s, c, key).value;
            && c in t.callers && t.callers[c].req < |t.requests| && t.requests[t.callers[c].req].key == key
            && (|t.requests| > |s.requests| ==>
                  |t.requests| == |s.requests| + 1 && t.requests[|s.requests|].leader == c && t.requests[|s.requests|].key == key)
  {
  }

  /** Over every run, a caller is in a request for the key with which it entered. */
  lemma {:induction false} CallersAskedForTheKey(run: seq<Step>, c: Id, key: Key)
    requires Exec(Init, run).Some? && Enter(c, key) in run
    ensures var s := Exec(Init, run).value;
            c in s.callers && s.callers[c].req < |s.requests| && s.requests[s.callers[c].req].key == key
    decreases |run|
  {
    var before, last := run[..|run| - 1], run[|run| - 1];
    assert run == before + [last];
    RunKeepsInv(before);
    StepKeepsAsking(Exec(Init, before).value, last);
    if Enter(c, key) in before {
      CallersAskedForTheKey(before, c, key);
    } else {
      EnterAsksForKey(Exec(Init, before).value, c, key);
    }
  }

  /** Over every run, the leader of a request entered with its key. */
  lemma {:induction false} LeadersAskedForTheKey(run: seq<Step>, r: nat)
    requires Exec(Init, run).Some? && r < |Exec(Init, run).value.requests|
    ensures var q := Exec(Init, run).value.requests[r]; Enter(q.leader, q.key) in run
    decreases |run|
  {
    var before, last := run[..|run| - 1], run[|run| - 1];
    assert run == before + [last];
    RunKeepsInv(before);
    var s := Exec(Init, before).value;
    StepKeepsAsking(s, last);
    if r < |s.requests| {
      LeadersAskedForTheKey(before, r);
    } else {
      EnterAsksForKey(s, last.c, last.key);
    }
  }

  /**
   A caller that asked for a key and returns has the value or error that the loader of a
   caller who asked for the same key returned in this run.
   */
  lemma CallersGetTheirKeysResult(run: seq<Step>, c: Id, key: Key) returns (leader: Id)
    requires Exec(Init, run).Some? && Enter(c, key) in run
    requires c in Exec(Init, run).value.callers
    requires Exec(Init, run).value.callers[c].Woken? || Exec(Init, run).value.callers[c].Led?
    ensures Enter(leader, key) in run
    ensures LoaderReturns(leader, Exec(Init, run).value.callers[c].got) in run
    ensures Exec(Init, run).value.callers[c].Led? ==> leader == c
  {
    var s := Exec(Init, run).value;
    var r := s.callers[c].req;
    RunKeepsInv(run);
    CallersAskedForTheKey(run, c, key);
    LeadersAskedForTheKey(run, r);
    CallersGetTheLoadersResult(run, c);
    assert CallerOk(s, c);
    leader := s.requests[r].leader;
  }

  /** What a step adds to the cache is a value its leader's loader returned. */
  lemma WriteOrigin(s: State, step: Step, key: Key, data: string) returns (r: nat)
    requires Inv(s) && Next(s, step).Some? && (key, data) in Next(s, step).value.writes && (key, data) !in s.writes
    ensures r < |s.requests| && s.requests[r].key == key && s.requests[r].result == Some(Value(data))
  {
    r := s.callers[step.c].req;
  }

  lemma RequestHasLoader(run: seq<Step>, r: nat, longer: seq<Step>)
    requires Exec(Init, run).Some? && r < |Exec(Init, run).value.requests| && run <= longer
    requires Exec(Init, run).value.requests[r].result.Some?
    ensures var q := Exec(Init, run).value.requests[r];
            Enter(q.leader, q.key) in longer && LoaderReturns(q.leader, q.result.value) in longer
  {
    LeadersAskedForTheKey(run, r);
    ResultsComeFromLoaders(run, r);
    assert forall step :: step in run ==> step in longer;
  }

  /** Nothing is written to the cache but values that a loader for the key returned in this run. */
  lemma {:induction false} WritesComeFromLoaders(run: seq<Step>, key: Key, data: string) returns (leader: Id)
    requires Exec(Init, run).Some? && (key, data) in Exec(Init, run).value.writes
    ensures Enter(leader, key) in run && LoaderReturns(leader, Value(data)) in run
    decreases |run|
  {
    var before := run[..|run| - 1];
    RunKeepsInv(before);
    var s := Exec(Init, before).value;
    if (key, data) in s.writes {
      leader := WritesComeFromLoaders(before, key, data);
      assert forall step :: step in before ==> step in run;
    } else {
      var r := WriteOrigin(s, run[|run| - 1], key, data);
      leader := s.requests[r].leader;
      RequestHasLoader(before, r, run);
    }
  }

  /** Anyone who has not entered yet can enter, and a waiter can always give up. */
  lemma EnteringNeverBlocks(s: State, c: Id, key: Key)
    requires Reachable(s)
    ensures c !in s.callers ==> Next(s, Enter(c, key)).Some?
    ensures c in s.callers && s.callers[c].WaitingOn? ==> Next(s, GiveUp(c)).Some?
  {
    ReachableInv(s);
    if c in s.callers {
      assert CallerOk(s, c);
    }
  }

  /** Requests that were counted with waiters. */
  function Shared(q: seq<Request>): nat {
    if q == [] then 0
    else Shared(q[..|q| - 1]) + if q[|q| - 1].counted && q[|q| - 1].waiters > 0 then 1 else 0
  }

  lemma {:induction false} SharedUpdate(q: seq<Request>, r: nat, x: Request)
    requires r < |q|
    ensures Shared(q[r := x]) + (if q[r].counted && q[r].waiters > 0 then 1 else 0)
         == Shared(q) + if x.counted && x.waiters > 0 then 1 else 0
    decreases |q|
  {
    var last := |q| - 1;
    if r == last {
      assert q[r := x][..last] == q[..last];
    } else {
      assert q[r := x][..last] == q[..last][r := x];
      SharedUpdate(q[..last], r, x);
    }
  }

  lemma StepKeepsShared(s: State, step: Step)
    requires Inv(s) && s.coalesced == Shared(s.requests) && Next(s, step).Some?
    ensures Next(s, step).value.coalesced == Shared(Next(s, step).value.requests)
  {
    var t := Next(s, step).value;
    if step.Enter? {
      if step.key in s.inflight {
        var r := s.inflight[step.key];
        assert RequestOk(s, r);
        SharedUpdate(s.requests, r, t.requests[r]);
      } else {
        assert t.requests[..|s.requests|] == s.requests;
      }
    } else if IsLeaderStep(step) {
      var r := s.callers[step.c].req;
      assert CallerOk(s, step.c) && RequestOk(s, r);
      SharedUpdate(s.requests, r, t.requests[r]);
    }
  }

  /** CoalescedRequests counts the finished requests that somebody joined, once each. */
  lemma {:induction false} CoalescedCountsShared(run: seq<Step>)
    requires Exec(Init, run).Some?
    ensures Exec(Init, run).value.coalesced == Shared(Exec(Init, run).value.requests)
    decreases |run|
  {
    if run != [] {
      var before := run[..|run| - 1];
      CoalescedCountsShared(before);
      RunKeepsInv(before);
      StepKeepsShared(Exec(Init, before).value, run[|run| - 1]);
    }
  }

  /** A request keeps its key and leader, and its result once it has one. */
  predicate SameRequest(q: Request, q': Request) {
    && q'.key == q.key && q'.leader == q.leader
    && (q.result.Some? ==> q'.result == q.result)
    && (!Linked(q.phase) ==> !Linked(q'.phase) && q'.waiters == q.waiters)
  }

  lemma StepKeepsRequest(s: State, step: Step, r: nat)
    requires Inv(s) && Next(s, step).Some? && r < |s.requests|
    ensures r < |Next(s, step).value.requests|
    ensures SameRequest(s.requests[r], Next(s, step).value.requests[r])
  {
    assert RequestOk(s, r);
  }

  /**
   For the rest of any run a request's result stays what its loader returned, and
   once the request has left the in-flight map nobody joins it any more - so the
   leader's unlocked read of the number of waiters is final.
   */
  lemma {:induction false} RequestsAreStable(s: State, run: seq<Step>, r: nat)
    requires Inv(s) && Exec(s, run).Some? && r < |s.requests|
    ensures Inv(Exec(s, run).value) && r < |Exec(s, run).value.requests|
    ensures SameRequest(s.requests[r], Exec(s, run).value.requests[r])
    ensures !Linked(s.requests[r].phase) ==> forall k :: k in Exec(s, run).value.inflight ==> Exec(s, run).value.inflight[k] != r
    decreases |run|
  {
    if run != [] {
      RequestsAreStable(s, run[..|run| - 1], r);
      var t := Exec(s, run[..|run| - 1]).value;
      StepKeepsRequest(t, run[|run| - 1], r);
      NextKeepsInv(t, run[|run| - 1]);
    }
  }

  /** The leader of a request that is not signalled yet has a step. */
  lemma LeaderCanMove(s: State, r: nat) returns (step: Step)
    requires Inv(s) && r < |s.requests| && !s.requests[r].phase.Signalled?
    ensures Next(s, step).Some? && step.c == s.requests[r].leader && IsLeaderStep(step)
  {
    assert RequestOk(s, r);
    var l := s.requests[r].leader;
    match s.requests[r].phase
    case Running => step := LoaderReturns(l, Failed(""));
    case Stored => step := StoreInCache(l);
    case Cached => step := Unlink(l);
    case Unlinked => step := Signal(l);
  }

  /** Nobody waits in vain: the request is signalled, or its leader is still at work and can move. */
  lemma WaitersCanBeServed(s: State, c: Id)
    requires Reachable(s) && c in s.callers && s.callers[c].WaitingOn?
    ensures var r := s.callers[c].req;
            && r < |s.requests|
            && (Next(s, Wake(c)).Some?
                || exists step :: Next(s, step).Some? && step.c == s.requests[r].leader && !step.Enter?)
  {
    ReachableInv(s);
    var r := s.callers[c].req;
    assert CallerOk(s, c) && RequestOk(s, r);
    if !s.requests[r].phase.Signalled? {
      var step := LeaderCanMove(s, r);
    }
  }

  lemma {:induction false} AllCounted(q: seq<Request>)
    requires forall r :: 0 <= r < |q| ==> q[r].counted
    ensures SumCounted(q) == SumWaiters(q)
    decreases |q|
  {
    if q != [] {
      AllCounted(q[..|q| - 1]);
    }
  }

  predicate AllBack(s: State) {
    forall c :: c in s.callers ==> !s.callers[c].Leading? && !s.callers[c].WaitingOn?
  }

  /**
   Once every caller has returned, CoalescingSaved counts every waiter once for the leader
   and once more if it was served: the leader adds its waiters, those that gave up
   included, and every waiter that wakes adds itself.  So the metric is the number of
   served waiters if and only if nobody ever joined a request.
   */
  lemma SavedCountsTwice(s: State)
    requires Reachable(s) && AllBack(s)
    ensures s.saved == |Joiners(s.callers)| + |WokenOnes(s.callers)|
    ensures s.saved == |WokenOnes(s.callers)| <==> Joiners(s.callers) == {}
    ensures s.saved == 2 * |WokenOnes(s.callers)| <==> Leavers(s.callers) == {}
  {
    ReachableInv(s);
    forall r | 0 <= r < |s.requests| ensures s.requests[r].counted {
      assert RequestOk(s, r);
    }
    AllCounted(s.requests);
    JoinersSplit(s.callers);
  }

  function Leavers(m: map<Id, Caller>): set<Id> {
    set c | c in m && m[c].GaveUp?
  }

  lemma JoinersSplit(m: map<Id, Caller>)
    requires forall c :: c in m ==> !m[c].WaitingOn?
    ensures |Joiners(m)| == |WokenOnes(m)| + |Leavers(m)|
  {
    assert Joiners(m) == WokenOnes(m) + Leavers(m) && WokenOnes(m) !! Leavers(m);
  }

  lemma StepReachable(s: State, step: Step) returns (t: State)
    requires Reachable(s) && Next(s, step).Some?
    ensures Reachable(t) && Next(s, step) == Some(t)
  {
    var run :| Exec(Init, run) == Some(s);
    t := Next(s, step).value;
    assert (run + [step])[..|run|] == run;
    assert Exec(Init, run + [step]) == Some(t);
  }

  /** A leader runs its loader while caller 1 waits for it. */
  lemma JoinReachable(key: Key) returns (s: State)
    ensures Reachable(s)
    ensures s == State([Request(key, 0, Running, None, 1, false)], map[key := 0],
                       map[0 := Leading(0), 1 := WaitingOn(0)], [], 0, 0)
  {
    s := Init;
    assert Exec(Init, []) == Some(Init);
    s := StepReachable(s, Enter(0, key));
    s := StepReachable(s, Enter(1, key));
  }

  /** A leader has signalled its value while caller 1 waits for it. */
  lemma SignalledReachable(key: Key) returns (s: State)
    ensures Reachable(s)
    ensures s == State([Request(key, 0, Signalled, Some(Value("")), 1, false)], map[],
                       map[0 := Leading(0), 1 := WaitingOn(0)], [(key, "")], 0, 0)
  {
    s := JoinReachable(key);
    s := StepReachable(s, LoaderReturns(0, Value("")));
    s := StepReachable(s, StoreInCache(0));
    s := StepReachable(s, Unlink(0));
    s := StepReachable(s, Signal(0));
  }

  /** Both miscounts happen: one load saved and two counted, or none saved and one counted. */
  lemma MiscountReachable(key: Key) returns (s: State, t: State)
    ensures Reachable(s) && AllBack(s) && s.saved == 2 && |WokenOnes(s.callers)| == 1
    ensures Reachable(t) && AllBack(t) && t.saved == 1 && |WokenOnes(t.callers)| == 0
  {
    s := SignalledReachable(key);
    t := StepReachable(s, GiveUp(1));
    t := StepReachable(t, LeaderReturns(0));
    s := StepReachable(s, Wake(1));
    s := StepReachable(s, LeaderReturns(0));
    assert WokenOnes(s.callers) == {1} && WokenOnes(t.callers) == {};
  }

  // ---------------------------------------------------------------- invalidation while a loader runs

  /** The coalesced loads together with the cache: for each key it holds, the request whose value that is. */
  datatype Front = Front(loads: State, held: map<Key, nat>)

  datatype CacheStep = Load(step: Step) | Drop(key: Key)

  predicate HasValue(q: Request) {
    q.result.Some? && q.result.value.Value?
  }

  /** What a step of a load puts into the cache: the leader's value, if its loader returned one. */
  function Write(s: State, step: Step, held: map<Key, nat>): map<Key, nat> {
    if step.StoreInCache? && Leads(s, step.c, Stored) && HasValue(s.requests[s.callers[step.c].req]) then
      held[s.requests[s.callers[step.c].req].key := s.callers[step.c].req]
    else held
  }

  function NextCached(u: Front, a: CacheStep): Option<Front> {
    match a
    case Load(step) =>
      var next := Next(u.loads, step);
      if next.None? then None else Some(Front(next.value, Write(u.loads, step, u.held)))
    case Drop(key) => Some(u.(held := u.held - {key}))
  }

  function ExecCached(u: Front, run: seq<CacheStep>): Option<Front>
    decreases |run|
  {
    if run == [] then Some(u)
    else
      match ExecCached(u, run[..|run| - 1])
      case None => None
      case Some(v) => NextCached(v, run[|run| - 1])
  }

  /** The request can still put a value into the cache. */
  predicate MayWrite(q: Request) {
    q.phase.Running? || (q.phase.Stored? && HasValue(q))
  }

  /** None of the first `n` requests for the key can write any more, and the cache holds nothing of theirs. */
  ghost predicate Past(u: Front, key: Key, n: nat) {
    && n <= |u.loads.requests|
    && (key in u.held ==> u.held[key] >= n)
    && forall r :: 0 <= r < n && u.loads.requests[r].key == key ==> !MayWrite(u.loads.requests[r])
  }

  lemma StepKeepsSettled(s: State, step: Step, r: nat)
    requires Next(s, step).Some? && r < |s.requests|
    ensures r < |Next(s, step).value.requests| && Next(s, step).value.requests[r].key == s.requests[r].key
    ensures MayWrite(Next(s, step).value.requests[r]) ==> MayWrite(s.requests[r])
  {
  }

  lemma StepKeepsPast(u: Front, a: CacheStep, key: Key, n: nat)
    requires Past(u, key, n) && NextCached(u, a).Some?
    ensures Past(NextCached(u, a).value, key, n)
  {
    if a.Load? {
      forall r: nat | r < n
        ensures r < |Next(u.loads, a.step).value.requests|
        ensures u.loads.requests[r].key == key ==> !MayWrite(Next(u.loads, a.step).value.requests[r])
        ensures Next(u.loads, a.step).value.requests[r].key == u.loads.requests[r].key
      {
        StepKeepsSettled(u.loads, a.step, r);
      }
      RequestsOnlyGrow(u.loads, a.step);
    }
  }

  lemma RequestsOnlyGrow(s: State, step: Step)
    requires Next(s, step).Some?
    ensures |Next(s, step).value.requests| >= |s.requests|
  {
  }

  lemma {:induction false} RunKeepsPast(u: Front, run: seq<CacheStep>, key: Key, n: nat)
    requires Past(u, key, n) && ExecCached(u, run).Some?
    ensures Past(ExecCached(u, run).value, key, n)
    decreases |run|
  {
    if run != [] {
      RunKeepsPast(u, run[..|run| - 1], key, n);
      StepKeepsPast(ExecCached(u, run[..|run| - 1]).value, run[|run| - 1], key, n);
    }
  }

  /** After the run the cache holds, for the key, the value of one of the first `n` requests. */
  ghost predicate Revives(u: Front, run: seq<CacheStep>, key: Key, n: nat) {
    && ExecCached(u, run).Some? && key in ExecCached(u, run).value.held
    && ExecCached(u, run).value.held[key] < n
  }

  lemma RevivesStored(u: Front, key: Key, r: nat) returns (run: seq<CacheStep>)
    requires Inv(u.loads) && r < |u.loads.requests| && u.loads.requests[r].key == key
    requires u.loads.requests[r].phase.Stored? && HasValue(u.loads.requests[r])
    ensures run == [Load(StoreInCache(u.loads.requests[r].leader))]
    ensures ExecCached(u, run).Some? && key in ExecCached(u, run).value.held && ExecCached(u, run).value.held[key] == r
  {
    assert RequestOk(u.loads, r);
    run := [Load(StoreInCache(u.loads.requests[r].leader))];
    assert run[..0] == [];
    assert ExecCached(u, run[..0]) == Some(u);
  }

  lemma ExecCachedFirst(u: Front, a: CacheStep, b: CacheStep)
    requires NextCached(u, a).Some?
    ensures ExecCached(u, [a] + [b]) == ExecCached(NextCached(u, a).value, [b])
  {
    var two, one := [a] + [b], [b];
    assert two[..1] == [a] && [a][..0] == [] && one[..0] == [];
    assert ExecCached(u, [a]) == NextCached(u, a);
  }

  lemma RevivesRunning(u: Front, key: Key, r: nat) returns (run: seq<CacheStep>)
    requires Inv(u.loads) && r < |u.loads.requests| && u.loads.requests[r].key == key && u.loads.requests[r].phase.Running?
    ensures ExecCached(u, run).Some? && key in ExecCached(u, run).value.held && ExecCached(u, run).value.held[key] == r
  {
    assert RequestOk(u.loads, r);
    var first := LoaderReturns(u.loads.requests[r].leader, Value(""));
    NextKeepsInv(u.loads, first);
    var v := NextCached(u, Load(first)).value;
    var rest := RevivesStored(v, key, r);
    ExecCachedFirst(u, Load(first), rest[0]);
    run := [Load(first)] + [rest[0]];
  }

  /**
   After Invalidate has dropped a key, the cache can come to hold it again with the value
   of a load that began before, if and only if at that moment a load of the key is in
   flight whose loader has not returned, or has returned a value not yet stored.
   */
  lemma InvalidationUndoneIff(u: Front, key: Key)
    requires Inv(u.loads) && NextCached(u, Drop(key)).Some?
    ensures var dropped := NextCached(u, Drop(key)).value;
            ((exists run :: Revives(dropped, run, key, |u.loads.requests|)) <==>
               key in u.loads.inflight && MayWrite(u.loads.requests[u.loads.inflight[key]]))
  {
    var dropped, n := NextCached(u, Drop(key)).value, |u.loads.requests|;
    if key in u.loads.inflight && MayWrite(u.loads.requests[u.loads.inflight[key]]) {
      var r := u.loads.inflight[key];
      if u.loads.requests[r].phase.Running? {
        var run := RevivesRunning(dropped, key, r);
        assert Revives(dropped, run, key, n);
      } else {
        var run := RevivesStored(dropped, key, r);
        assert Revives(dropped, run, key, n);
      }
    } else {
      forall run | ExecCached(dropped, run).Some? ensures !Revives(dropped, run, key, n) {
        RunKeepsPast(dropped, run, key, n);
      }
    }
  }
}
