/**
 The bulkhead of pkg/adapters/bulkhead.go as a system of interleaved steps: callers
 of Acquire and Release, the queue processor, and Close, sharing a pool of slots,
 a bounded queue and one reply channel per queued request.

 A caller is one call of Acquire and, if that call succeeds, the one Release that
 its user defers (pkg/adapters/organization_tool_adapter.go:211-217).  A send on
 the queue after Close panics in Go; the model has no such step.
 */
module Bulkhead {
  import opened Common

  type Id = nat

  /** The content of a request's reply channel, which has room for one reply. */
  datatype Reply = NoReply | Granted | Refused

  datatype Phase =
    | Entered               // Acquire saw an open bulkhead
    | Queueing              // no slot was free and the context was alive: about to send on the queue
    | Waiting(reply: Reply) // the request was sent; blocked on reply or cancellation
    | Left(reply: Reply)    // returned on cancellation after the request was sent
    | Holding               // Acquire returned nil
    | Releasing             // Release saw an open bulkhead
    | Finished              // returned an error, or released

  datatype State = State(
    capacity: nat,
    queueSize: nat,
    free: nat,
    queue: seq<Id>,
    processing: Option<Id>, // the request processQueue has received and not yet answered
    stopped: bool,          // processQueue has returned
    closed: bool,
    draining: bool,         // Close is emptying the pool and holds the lock
    callers: map<Id, Phase>,
    cancelled: set<Id>,
    lost: nat,              // slots that left the pool for good: drained, or released after Close
    accepted: seq<Id>,      // history: requests sent on the queue
    answered: seq<Id>       // history: requests replied to
  )

  datatype CallerStep =
    | Arrive | TakeFree | GiveUp | GoQueue | Enqueue | Handoff | QueueFull
    | Receive | Leave | BeginRelease | EndRelease

  datatype ProcessorStep = Dequeue | Grant | Refuse | Stop

  datatype CloserStep = Close | DrainOne | DrainEnd

  datatype Step =
    | Caller(c: Id, does: CallerStep)
    | Processor(job: ProcessorStep)
    | Closer(part: CloserStep)
    | Cancel(who: Id)

  /** NewBulkhead: the pool starts full. */
  function Init(capacity: nat, queueSize: nat): State {
    State(capacity, queueSize, capacity, [], None, false, false, false, map[], {}, 0, [], [])
  }

  function Move(s: State, c: Id, p: Phase): State {
    s.(callers := s.callers[c := p])
  }

  predicate At(s: State, c: Id, p: Phase) {
    c in s.callers && s.callers[c] == p
  }

  /** The receiving half of an unbuffered send: the processor is blocked on an empty queue. */
  predicate ProcessorIdle(s: State) {
    s.processing.None? && !s.stopped && s.queue == []
  }

  /** The processor's send into the reply channel; `None` if it would block. */
  function Answer(s: State, c: Id, r: Reply): Option<State> {
    if At(s, c, Waiting(NoReply)) then
      Some(Move(s, c, Waiting(r)).(processing := None, answered := s.answered + [c]))
    else if At(s, c, Left(NoReply)) then
      Some(Move(s, c, Left(r)).(processing := None, answered := s.answered + [c]))
    else None
  }

  /** Acquire and Release, one channel operation or lock section at a time. */
  function NextCaller(s: State, c: Id, step: CallerStep): Option<State> {
    match step
    case Arrive =>
      if c in s.callers || s.draining then None
      else Some(Move(s, c, if s.closed then Finished else Entered))
    case TakeFree =>
      if At(s, c, Entered) && s.free > 0 then Some(Move(s, c, Holding).(free := s.free - 1)) else None
    case GiveUp =>
      if At(s, c, Entered) && c in s.cancelled then Some(Move(s, c, Finished)) else None
    case GoQueue =>
      if At(s, c, Entered) && s.free == 0 && c !in s.cancelled then Some(Move(s, c, Queueing)) else None
    case Enqueue =>
      if At(s, c, Queueing) && !s.closed && |s.queue| < s.queueSize then
        Some(Move(s, c, Waiting(NoReply)).(queue := s.queue + [c], accepted := s.accepted + [c]))
      else None
    case Handoff =>
      if At(s, c, Queueing) && !s.closed && s.queueSize == 0 && ProcessorIdle(s) then
        Some(Move(s, c, Waiting(NoReply)).(processing := Some(c), accepted := s.accepted + [c]))
      else None
    case QueueFull =>
      if At(s, c, Queueing) && !s.closed && |s.queue| >= s.queueSize then Some(Move(s, c, Finished))
      else None
    case Receive =>
      if At(s, c, Waiting(Granted)) then Some(Move(s, c, Holding))
      else if At(s, c, Waiting(Refused)) then Some(Move(s, c, Finished))
      else None
    case Leave =>
      if c in s.callers && s.callers[c].Waiting? && c in s.cancelled then
        Some(Move(s, c, Left(s.callers[c].reply)))
      else None
    case BeginRelease =>
      if !At(s, c, Holding) || s.draining then None
      else if s.closed then Some(Move(s, c, Finished).(lost := s.lost + 1))
      else Some(Move(s, c, Releasing))
    case EndRelease =>
      if !At(s, c, Releasing) then None
      else if s.free < s.capacity then Some(Move(s, c, Finished).(free := s.free + 1))
      else Some(Move(s, c, Finished).(lost := s.lost + 1))
  }

  /** processQueue. */
  function NextProcessor(s: State, step: ProcessorStep): Option<State> {
    match step
    case Dequeue =>
      if s.processing.None? && !s.stopped && s.queue != [] then
        Some(s.(processing := Some(s.queue[0]), queue := s.queue[1..]))
      else None
    case Grant =>
      if s.processing.Some? && s.free > 0 then Answer(s.(free := s.free - 1), s.processing.value, Granted) else None
    case Refuse =>
      if s.processing.Some? && s.processing.value in s.cancelled then Answer(s, s.processing.value, Refused) else None
    case Stop =>
      if ProcessorIdle(s) && s.closed then Some(s.(stopped := true)) else None
  }

  /** Close, which drains the pool one slot at a time. */
  function NextCloser(s: State, step: CloserStep): Option<State> {
    match step
    case Close =>
      if s.closed then None else Some(s.(closed := true, draining := true))
    case DrainOne =>
      if s.draining && s.free > 0 then Some(s.(free := s.free - 1, lost := s.lost + 1)) else None
    case DrainEnd =>
      if s.draining && s.free == 0 then Some(s.(draining := false)) else None
  }

  /** One step of one participant; `None` when the step is not enabled. */
  function Next(s: State, step: Step): Option<State> {
    match step
    case Caller(c, does) => NextCaller(s, c, does)
    case Processor(job) => NextProcessor(s, job)
    case Closer(part) => NextCloser(s, part)
    case Cancel(who) => Some(s.(cancelled := s.cancelled + {who}))
  }

  /** A whole run; `None` when some step of it is not enabled. */
  function Exec(s: State, run: seq<Step>): Option<State>
    decreases |run|
  {
    if run == [] then Some(s)
    else
      match Exec(s, run[..|run| - 1])
      case None => None
      case Some(t) => Next(t, run[|run| - 1])
  }

  ghost predicate Reachable(s: State) {
    exists capacity: nat, queueSize: nat, run :: Exec(Init(capacity, queueSize), run) == Some(s)
  }

  // ---------------------------------------------------------------- who owns the slots

  predicate Owns(p: Phase) {
    p.Holding? || p.Releasing? || p == Waiting(Granted) || p == Left(Granted)
  }

  function Owners(m: map<Id, Phase>): set<Id> {
    set c | c in m && Owns(m[c])
  }

  /** Callers whose Acquire succeeded and whose Release has not finished. */
  function Holders(s: State): set<Id> {
    set c | c in s.callers && (s.callers[c].Holding? || s.callers[c].Releasing?)
  }

  /** Grants lying in the reply channel of a caller that still waits. */
  function Pending(s: State): set<Id> {
    set c | c in s.callers && s.callers[c] == Waiting(Granted)
  }

  /** Grants lying in the reply channel of a caller that has gone. */
  function Abandoned(s: State): set<Id> {
    set c | c in s.callers && s.callers[c] == Left(Granted)
  }

  /** Callers whose request is sent and unanswered. */
  ghost predicate Unanswered(p: Phase) {
    p == Waiting(NoReply) || p == Left(NoReply)
  }

  function InHand(s: State): seq<Id> {
    if s.processing.Some? then [s.processing.value] else []
  }

  ghost predicate Distinct(q: seq<Id>) {
    forall i, j :: 0 <= i < j < |q| ==> q[i] != q[j]
  }

  /** Every slot is in the pool, with an owner, or lost; and nothing is lost before Close. */
  ghost predicate SlotInv(s: State) {
    && s.free + |Owners(s.callers)| + s.lost == s.capacity
    && (!s.closed ==> s.lost == 0 && !s.draining)
  }

  /** The accepted requests are the answered ones, the one in hand and the queue; the last two are unanswered. */
  ghost predicate QueueInv(s: State) {
    && s.accepted == s.answered + Open(s)
    && Distinct(s.accepted)
    && (forall c :: c in s.accepted ==> c in s.callers && !s.callers[c].Entered? && !s.callers[c].Queueing?)
    && (forall c :: c in s.callers ==> (Unanswered(s.callers[c]) <==> c in Open(s)))
  }

  ghost function Open(s: State): seq<Id> {
    InHand(s) + s.queue
  }

  ghost predicate Inv(s: State) {
    SlotInv(s) && QueueInv(s)
  }

  lemma OwnersMove(m: map<Id, Phase>, c: Id, p: Phase)
    ensures var before := if c in m && Owns(m[c]) then 1 else 0;
            var after := if Owns(p) then 1 else 0;
            |Owners(m[c := p])| == |Owners(m)| - before + after
  {
    var rest := Owners(m) - {c};
    assert Owners(m) == if c in m && Owns(m[c]) then rest + {c} else rest;
    assert Owners(m[c := p]) == if Owns(p) then rest + {c} else rest;
  }

  /** A caller that is releasing still owns its slot, so the pool has room for it. */
  lemma ReleaseHasRoom(s: State, c: Id)
    requires SlotInv(s) && At(s, c, Releasing)
    ensures s.free < s.capacity
  {
    assert c in Owners(s.callers);
    assert Owners(s.callers) == Owners(s.callers) - {c} + {c};
  }

  lemma CallerKeepsSlots(s: State, c: Id, step: CallerStep)
    requires SlotInv(s) && NextCaller(s, c, step).Some?
    ensures SlotInv(NextCaller(s, c, step).value)
  {
    OwnersMove(s.callers, c, NextCaller(s, c, step).value.callers[c]);
    if step.EndRelease? {
      ReleaseHasRoom(s, c);
    }
  }

  lemma ProcessorKeepsSlots(s: State, step: ProcessorStep)
    requires SlotInv(s) && NextProcessor(s, step).Some?
    ensures SlotInv(NextProcessor(s, step).value)
  {
    if step.Grant? || step.Refuse? {
      var c := s.processing.value;
      OwnersMove(s.callers, c, NextProcessor(s, step).value.callers[c]);
    }
  }

  lemma DistinctAppend(q: seq<Id>, c: Id)
    requires Distinct(q) && c !in q
    ensures Distinct(q + [c])
  {
  }

  lemma InHandIsOpen(s: State)
    requires QueueInv(s) && s.processing.Some?
    ensures var c := s.processing.value;
            && c in s.callers && Unanswered(s.callers[c])
            && c !in s.queue && c !in s.answered
  {
    var c := s.processing.value;
    var n := |s.answered|;
    assert Open(s)[0] == c && s.accepted[n] == c;
    forall i | 0 <= i < |s.queue| ensures s.queue[i] != c {
      assert s.accepted[n + 1 + i] == s.queue[i];
    }
    forall i | 0 <= i < n ensures s.answered[i] != c {
      assert s.accepted[i] == s.answered[i];
    }
  }

  /** Nothing about requests changes when a caller moves without sending, and neither queue nor processor moves. */
  lemma QuietMoveKeepsQueue(s: State, s': State, c: Id, p: Phase)
    requires QueueInv(s) && s'.callers == s.callers[c := p]
    requires s'.accepted == s.accepted && s'.answered == s.answered
    requires s'.queue == s.queue && s'.processing == s.processing
    requires if c in s.callers then Unanswered(p) <==> Unanswered(s.callers[c]) else !Unanswered(p)
    requires p.Entered? || p.Queueing? ==> c !in s.accepted
    ensures QueueInv(s')
  {
    assert Open(s') == Open(s);
  }

  lemma SendKeepsQueue(s: State, s': State, c: Id)
    requires QueueInv(s) && At(s, c, Queueing)
    requires s'.callers == s.callers[c := Waiting(NoReply)]
    requires s'.accepted == s.accepted + [c] && s'.answered == s.answered
    requires Open(s') == Open(s) + [c]
    ensures QueueInv(s')
  {
    assert c !in s.accepted;
    DistinctAppend(s.accepted, c);
    assert s'.accepted == s'.answered + Open(s');
  }

  lemma AnswerKeepsQueue(s: State, s': State, p: Phase)
    requires QueueInv(s) && s.processing.Some?
    requires s'.callers == s.callers[s.processing.value := p]
    requires !Unanswered(p) && !p.Entered? && !p.Queueing?
    requires s'.accepted == s.accepted && s'.answered == s.answered + [s.processing.value]
    requires s'.queue == s.queue && s'.processing == None
    ensures QueueInv(s')
  {
    InHandIsOpen(s);
    assert Open(s) == [s.processing.value] + s.queue && Open(s') == s.queue;
    assert s'.accepted == s'.answered + Open(s');
  }

  predicate Sends(step: CallerStep) {
    step.Enqueue? || step.Handoff?
  }

  lemma SendingStep(s: State, c: Id, step: CallerStep, s': State)
    requires Sends(step) && NextCaller(s, c, step) == Some(s')
    ensures At(s, c, Queueing) && s'.callers == s.callers[c := Waiting(NoReply)]
    ensures s'.accepted == s.accepted + [c] && s'.answered == s.answered && Open(s') == Open(s) + [c]
  {
  }

  lemma QuietStep(s: State, c: Id, step: CallerStep, s': State)
    requires !Sends(step) && NextCaller(s, c, step) == Some(s')
    ensures c in s'.callers && s'.callers == s.callers[c := s'.callers[c]]
    ensures s'.accepted == s.accepted && s'.answered == s.answered
    ensures s'.queue == s.queue && s'.processing == s.processing
    ensures if c in s.callers then Unanswered(s'.callers[c]) <==> Unanswered(s.callers[c]) else !Unanswered(s'.callers[c])
    ensures s'.callers[c].Entered? || s'.callers[c].Queueing? ==> c !in s.callers || s.callers[c].Entered?
  {
  }

  lemma CallerKeepsQueue(s: State, c: Id, step: CallerStep)
    requires QueueInv(s) && NextCaller(s, c, step).Some?
    ensures QueueInv(NextCaller(s, c, step).value)
  {
    var s' := NextCaller(s, c, step).value;
    if Sends(step) {
      SendingStep(s, c, step, s');
      SendKeepsQueue(s, s', c);
    } else {
      QuietStep(s, c, step, s');
      QuietMoveKeepsQueue(s, s', c, s'.callers[c]);
    }
  }

  lemma ProcessorKeepsQueue(s: State, step: ProcessorStep)
    requires QueueInv(s) && NextProcessor(s, step).Some?
    ensures QueueInv(NextProcessor(s, step).value)
  {
    var s' := NextProcessor(s, step).value;
    if step.Grant? || step.Refuse? {
      AnswerKeepsQueue(s, s', s'.callers[s.processing.value]);
    } else {
      assert Open(s') == Open(s);
    }
  }

  lemma NextKeepsInv(s: State, step: Step)
    requires Inv(s) && Next(s, step).Some?
    ensures Inv(Next(s, step).value)
  {
    match step
    case Caller(c, does) =>
      CallerKeepsSlots(s, c, does);
      CallerKeepsQueue(s, c, does);
    case Processor(job) =>
      ProcessorKeepsSlots(s, job);
      ProcessorKeepsQueue(s, job);
    case Closer(_) => assert Open(Next(s, step).value) == Open(s);
    case Cancel(_) => assert Open(Next(s, step).value) == Open(s);
  }

  lemma {:induction false} RunKeepsInv(s: State, run: seq<Step>)
    requires Inv(s) && Exec(s, run).Some?
    ensures Inv(Exec(s, run).value)
    decreases |run|
  {
    if run != [] {
      RunKeepsInv(s, run[..|run| - 1]);
      NextKeepsInv(Exec(s, run[..|run| - 1]).value, run[|run| - 1]);
    }
  }

  lemma ReachableInv(s: State)
    requires Reachable(s)
    ensures Inv(s)
  {
    var capacity: nat, queueSize: nat, run :| Exec(Init(capacity, queueSize), run) == Some(s);
    assert Owners(Init(capacity, queueSize).callers) == {};
    RunKeepsInv(Init(capacity, queueSize), run);
  }

  // ---------------------------------------------------------------- the results

  /**
   Slots are conserved under every interleaving; before Close none is lost, so
   what is not free is held, granted and not yet collected, or granted to a caller that left.
   */
  lemma SlotsConserved(s: State)
    requires Reachable(s)
    ensures s.free + |Holders(s)| + |Pending(s)| + |Abandoned(s)| + s.lost == s.capacity
    ensures !s.closed ==> s.lost == 0
  {
    ReachableInv(s);
    assert Owners(s.callers) == Holders(s) + Pending(s) + Abandoned(s);
    assert Holders(s) !! Pending(s) && (Holders(s) + Pending(s)) !! Abandoned(s);
  }

  /** The branch of Release for a full pool is never taken. */
  lemma ReleaseNeverDropsASlot(s: State, c: Id)
    requires Reachable(s) && At(s, c, Releasing)
    ensures NextCaller(s, c, EndRelease) == Some(Move(s, c, Finished).(free := s.free + 1))
  {
    ReachableInv(s);
    ReleaseHasRoom(s, c);
  }

  /**
   Requests are answered in the order they were accepted, each exactly once: the
   accepted ones are the answered ones, then the one in hand, then the queue,
   without repetition; and the processor's send never blocks.
   */
  lemma RepliesExactlyOnce(s: State)
    requires Reachable(s)
    ensures s.accepted == s.answered + (InHand(s) + s.queue) && Distinct(s.accepted)
    ensures forall c :: c in s.callers && (s.callers[c].Waiting? || s.callers[c].Left?) && c in s.answered ==>
              s.callers[c].reply != NoReply
    ensures s.processing.Some? ==> Answer(s, s.processing.value, Refused).Some?
  {
    ReachableInv(s);
    forall c | c in s.callers && c in s.answered ensures !Unanswered(s.callers[c]) {
      var i :| 0 <= i < |s.answered| && s.answered[i] == c;
      forall j | 0 <= j < |InHand(s) + s.queue| ensures (InHand(s) + s.queue)[j] != c {
        assert s.accepted[i] == c;
        assert s.accepted[|s.answered| + j] == (InHand(s) + s.queue)[j];
      }
    }
    if s.processing.Some? {
      InHandIsOpen(s);
    }
  }

  lemma CallerKeepsAbandoned(s: State, c: Id, step: CallerStep, gone: Id)
    requires NextCaller(s, c, step).Some? && At(s, gone, Left(Granted))
    ensures At(NextCaller(s, c, step).value, gone, Left(Granted))
  {
    assert c != gone;
  }

  lemma ProcessorKeepsAbandoned(s: State, step: ProcessorStep, gone: Id)
    requires NextProcessor(s, step).Some? && At(s, gone, Left(Granted))
    ensures At(NextProcessor(s, step).value, gone, Left(Granted))
  {
  }

  lemma StepKeepsAbandoned(s: State, step: Step, gone: Id)
    requires Next(s, step).Some? && At(s, gone, Left(Granted))
    ensures At(Next(s, step).value, gone, Left(Granted))
  {
    match step
    case Caller(c, does) => CallerKeepsAbandoned(s, c, does, gone);
    case Processor(job) => ProcessorKeepsAbandoned(s, job, gone);
    case Closer(_) =>
    case Cancel(_) =>
  }

  lemma StepKeepsCapacity(s: State, step: Step)
    requires Next(s, step).Some?
    ensures Next(s, step).value.capacity == s.capacity
  {
    match step
    case Caller(_, _) =>
    case Processor(_) =>
    case Closer(_) =>
    case Cancel(_) =>
  }

  /** An abandoned grant stays abandoned for the rest of the run. */
  lemma {:induction false} AbandonedForever(s: State, run: seq<Step>, gone: Id)
    requires Exec(s, run).Some? && At(s, gone, Left(Granted))
    ensures At(Exec(s, run).value, gone, Left(Granted))
    decreases |run|
  {
    if run != [] {
      AbandonedForever(s, run[..|run| - 1], gone);
      StepKeepsAbandoned(Exec(s, run[..|run| - 1]).value, run[|run| - 1], gone);
    }
  }

  lemma {:induction false} CapacityFixed(s: State, run: seq<Step>)
    requires Exec(s, run).Some?
    ensures Exec(s, run).value.capacity == s.capacity
    decreases |run|
  {
    if run != [] {
      CapacityFixed(s, run[..|run| - 1]);
      StepKeepsCapacity(Exec(s, run[..|run| - 1]).value, run[|run| - 1]);
    }
  }

  /** The two steps that abandon a grant: leaving with a grant in the channel, and granting to a caller that has left. */
  predicate Abandons(s: State, step: Step, c: Id) {
    || (step == Caller(c, Leave) && At(s, c, Waiting(Granted)))
    || (step == Processor(Grant) && s.processing == Some(c) && At(s, c, Left(NoReply)))
  }

  lemma CallerAbandonsIff(s: State, who: Id, does: CallerStep, c: Id)
    requires NextCaller(s, who, does).Some? && !At(s, c, Left(Granted))
    ensures At(NextCaller(s, who, does).value, c, Left(Granted)) <==> Abandons(s, Caller(who, does), c)
  {
  }

  lemma ProcessorAbandonsIff(s: State, job: ProcessorStep, c: Id)
    requires NextProcessor(s, job).Some? && !At(s, c, Left(Granted))
    ensures At(NextProcessor(s, job).value, c, Left(Granted)) <==> Abandons(s, Processor(job), c)
  {
  }

  lemma AbandonsIff(s: State, step: Step, c: Id)
    requires Next(s, step).Some?
    ensures At(Next(s, step).value, c, Left(Granted)) <==> At(s, c, Left(Granted)) || Abandons(s, step, c)
  {
    if At(s, c, Left(Granted)) {
      StepKeepsAbandoned(s, step, c);
    } else {
      match step
      case Caller(who, does) => CallerAbandonsIff(s, who, does, c);
      case Processor(job) => ProcessorAbandonsIff(s, job, c);
      case Closer(_) =>
      case Cancel(_) =>
    }
  }

  /** The step at `i` of the run abandons the grant of `c`. */
  predicate AbandonsAt(s: State, run: seq<Step>, i: nat, c: Id) {
    i < |run| && Exec(s, run[..i]).Some? && Abandons(Exec(s, run[..i]).value, run[i], c)
  }

  lemma AbandonsAtPrefix(s: State, run: seq<Step>, n: nat, i: nat, c: Id)
    requires i < n <= |run|
    ensures AbandonsAt(s, run[..n], i, c) <==> AbandonsAt(s, run, i, c)
  {
    assert run[..n][..i] == run[..i];
  }

  ghost predicate AbandonedIn(s: State, run: seq<Step>, c: Id) {
    exists i: nat :: AbandonsAt(s, run, i, c)
  }

  lemma AbandonedInSnoc(s: State, run: seq<Step>, c: Id)
    requires run != []
    ensures AbandonedIn(s, run, c) <==>
              AbandonedIn(s, run[..|run| - 1], c) || AbandonsAt(s, run, |run| - 1, c)
  {
    var n := |run| - 1;
    if AbandonedIn(s, run[..n], c) {
      var i: nat :| AbandonsAt(s, run[..n], i, c);
      AbandonsAtPrefix(s, run, n, i, c);
    }
    if AbandonedIn(s, run, c) && !AbandonsAt(s, run, n, c) {
      var i: nat :| AbandonsAt(s, run, i, c);
      AbandonsAtPrefix(s, run, n, i, c);
    }
  }

  /** A grant lies abandoned at the end of a run if and only if some step of the run abandoned it. */
  lemma {:induction false} AbandonedIff(s: State, run: seq<Step>, c: Id)
    requires Exec(s, run).Some? && !At(s, c, Left(Granted))
    ensures At(Exec(s, run).value, c, Left(Granted)) <==> AbandonedIn(s, run, c)
    decreases |run|
  {
    if run != [] {
      var n := |run| - 1;
      AbandonedIff(s, run[..n], c);
      AbandonsIff(Exec(s, run[..n]).value, run[n], c);
      AbandonedInSnoc(s, run, c);
    }
  }

  /** When every call has returned and every successful one was released, what an open bulkhead misses is abandoned. */
  lemma MissingIsAbandoned(s: State)
    requires Reachable(s) && !s.closed
    requires forall c :: c in s.callers ==> s.callers[c].Finished? || s.callers[c].Left?
    ensures s.free == s.capacity - |Abandoned(s)|
    ensures s.free == s.capacity <==> Abandoned(s) == {}
  {
    SlotsConserved(s);
    assert Holders(s) == {} && Pending(s) == {};
  }

  /**
   When every call has returned and every successful one was released, an open bulkhead
   has its full capacity back if and only if no step of the run was a caller leaving with
   a grant in its channel or a grant to a caller that had left.
   */
  lemma CapacityRestoredIff(capacity: nat, queueSize: nat, run: seq<Step>)
    requires Exec(Init(capacity, queueSize), run).Some?
    requires var s := Exec(Init(capacity, queueSize), run).value;
             !s.closed && forall c :: c in s.callers ==> s.callers[c].Finished? || s.callers[c].Left?
    ensures var s := Exec(Init(capacity, queueSize), run).value;
            && s.capacity == capacity
            && (s.free == capacity <==> forall c :: !AbandonedIn(Init(capacity, queueSize), run, c))
  {
    var init := Init(capacity, queueSize);
    var s := Exec(init, run).value;
    CapacityFixed(init, run);
    MissingIsAbandoned(s);
    forall c ensures c in Abandoned(s) <==> AbandonedIn(init, run, c) {
      AbandonedIff(init, run, c);
    }
  }

  predicate IsLeave(step: Step) {
    step.Caller? && step.does.Leave?
  }

  lemma {:induction false} NobodyLeft(s: State, run: seq<Step>, c: Id)
    requires Exec(s, run).Some? && (c in s.callers ==> !s.callers[c].Left?)
    requires forall i :: 0 <= i < |run| ==> !IsLeave(run[i])
    ensures var t := Exec(s, run).value; c in t.callers ==> !t.callers[c].Left?
    decreases |run|
  {
    if run != [] {
      var n := |run| - 1;
      NobodyLeft(s, run[..n], c);
      StepLeavesNobody(Exec(s, run[..n]).value, run[n], c);
    }
  }

  lemma CallerLeavesNobody(s: State, who: Id, does: CallerStep, c: Id)
    requires NextCaller(s, who, does).Some? && !does.Leave? && (c in s.callers ==> !s.callers[c].Left?)
    ensures var t := NextCaller(s, who, does).value; c in t.callers ==> !t.callers[c].Left?
  {
  }

  lemma StepLeavesNobody(s: State, step: Step, c: Id)
    requires Next(s, step).Some? && !IsLeave(step) && (c in s.callers ==> !s.callers[c].Left?)
    ensures var t := Next(s, step).value; c in t.callers ==> !t.callers[c].Left?
  {
    match step
    case Caller(who, does) => CallerLeavesNobody(s, who, does, c);
    case Processor(_) =>
    case Closer(_) =>
    case Cancel(_) =>
  }

  /** If no caller leaves while it waits - no context of a waiting caller is cancelled - the full capacity comes back. */
  lemma NoLeaveRestoresCapacity(capacity: nat, queueSize: nat, run: seq<Step>)
    requires Exec(Init(capacity, queueSize), run).Some?
    requires forall i :: 0 <= i < |run| ==> !IsLeave(run[i])
    requires var s := Exec(Init(capacity, queueSize), run).value;
             !s.closed && forall c :: c in s.callers ==> s.callers[c].Finished? || s.callers[c].Left?
    ensures Exec(Init(capacity, queueSize), run).value.free == capacity
  {
    var init := Init(capacity, queueSize);
    var s := Exec(init, run).value;
    CapacityFixed(init, run);
    forall c ensures c !in Abandoned(s) {
      NobodyLeft(init, run, c);
    }
    MissingIsAbandoned(s);
  }

  lemma InitReachable(capacity: nat, queueSize: nat)
    ensures Reachable(Init(capacity, queueSize))
  {
    assert Exec(Init(capacity, queueSize), []) == Some(Init(capacity, queueSize));
  }

  lemma StepReachable(s: State, step: Step) returns (t: State)
    requires Reachable(s) && Next(s, step).Some?
    ensures Reachable(t) && Next(s, step) == Some(t)
  {
    var capacity: nat, queueSize: nat, run :| Exec(Init(capacity, queueSize), run) == Some(s);
    t := Next(s, step).value;
    assert (run + [step])[..|run|] == run;
    assert Exec(Init(capacity, queueSize), run + [step]) == Some(t);
  }

  /** The second caller is about to send its request while the first holds the only slot. */
  lemma SenderReachable() returns (s: State)
    ensures Reachable(s)
    ensures s == State(1, 1, 0, [], None, false, false, false, map[0 := Holding, 1 := Queueing], {}, 0, [], [])
  {
    s := Init(1, 1);
    InitReachable(1, 1);
    s := StepReachable(s, Caller(0, Arrive));
    s := StepReachable(s, Caller(0, TakeFree));
    s := StepReachable(s, Caller(1, Arrive));
    s := StepReachable(s, Caller(1, GoQueue));
  }

  /** The second caller's request is with the processor while the first holds the only slot. */
  lemma LeakPrefix() returns (s: State)
    ensures Reachable(s)
    ensures s == State(1, 1, 0, [], Some(1), false, false, false,
                       map[0 := Holding, 1 := Waiting(NoReply)], {}, 0, [1], [])
  {
    s := SenderReachable();
    s := StepReachable(s, Caller(1, Enqueue));
    s := StepReachable(s, Processor(Dequeue));
  }

  /** The second caller leaves and the first releases. */
  lemma LeakMiddle() returns (s: State)
    ensures Reachable(s)
    ensures s == State(1, 1, 1, [], Some(1), false, false, false,
                       map[0 := Finished, 1 := Left(NoReply)], {1}, 0, [1], [])
  {
    s := LeakPrefix();
    s := StepReachable(s, Cancel(1));
    s := StepReachable(s, Caller(1, Leave));
    s := StepReachable(s, Caller(0, BeginRelease));
    s := StepReachable(s, Caller(0, EndRelease));
  }

  /** The processor grants the slot to the one that left. */
  lemma LeakSuffix() returns (s: State)
    ensures Reachable(s)
    ensures s == State(1, 1, 0, [], None, false, false, false,
                       map[0 := Finished, 1 := Left(Granted)], {1}, 0, [1], [1])
  {
    s := LeakMiddle();
    s := StepReachable(s, Processor(Grant));
  }

  /** One cancellation at the wrong moment disables a bulkhead of capacity one for good. */
  lemma LeakReachable() returns (s: State)
    ensures Reachable(s) && !s.closed && s.capacity == 1
    ensures forall c :: c in s.callers ==> s.callers[c].Finished? || s.callers[c].Left?
    ensures forall run :: Exec(s, run).Some? ==> Exec(s, run).value.free == 0
  {
    s := LeakSuffix();
    assert Abandoned(s) == {1};
    ReachableInv(s);
    forall run | Exec(s, run).Some? ensures Exec(s, run).value.free == 0 {
      FullyAbandonedStaysEmpty(s, run);
    }
  }

  /** Once as many grants are abandoned as there are slots, no slot is ever free again. */
  lemma FullyAbandonedStaysEmpty(s: State, run: seq<Step>)
    requires Inv(s) && |Abandoned(s)| >= s.capacity && Exec(s, run).Some?
    ensures Exec(s, run).value.free == 0
  {
    var t := Exec(s, run).value;
    RunKeepsInv(s, run);
    CapacityFixed(s, run);
    forall c | c in Abandoned(s) ensures c in Abandoned(t) {
      AbandonedForever(s, run, c);
    }
    SubsetSize(Abandoned(s), Abandoned(t));
    assert Abandoned(t) <= Owners(t.callers);
    SubsetSize(Abandoned(t), Owners(t.callers));
  }

  /** What a caller that owns a slot and has not left does to give it back. */
  function GiveBack(c: Id, p: Phase): seq<Step> {
    match p
    case Releasing => [Caller(c, EndRelease)]
    case Holding => [Caller(c, BeginRelease), Caller(c, EndRelease)]
    case _ => [Caller(c, Receive), Caller(c, BeginRelease), Caller(c, EndRelease)]
  }

  lemma ReleasingGivesBack(s: State, c: Id)
    requires SlotInv(s) && At(s, c, Releasing)
    ensures Exec(s, [Caller(c, EndRelease)]).Some? && Exec(s, [Caller(c, EndRelease)]).value.free > 0
  {
    ReleaseHasRoom(s, c);
    ExecFirst(s, Caller(c, EndRelease), []);
    assert [Caller(c, EndRelease)] + [] == [Caller(c, EndRelease)];
  }

  lemma HoldingGivesBack(s: State, c: Id)
    requires SlotInv(s) && !s.closed && At(s, c, Holding)
    ensures Exec(s, GiveBack(c, Holding)).Some? && Exec(s, GiveBack(c, Holding)).value.free > 0
  {
    var step := Caller(c, BeginRelease);
    CallerKeepsSlots(s, c, BeginRelease);
    ReleasingGivesBack(Next(s, step).value, c);
    ExecFirst(s, step, [Caller(c, EndRelease)]);
    assert GiveBack(c, Holding) == [step] + [Caller(c, EndRelease)];
  }

  lemma OwnerGivesBack(s: State, c: Id)
    requires SlotInv(s) && !s.closed && c in s.callers && Owns(s.callers[c]) && !s.callers[c].Left?
    ensures var run := GiveBack(c, s.callers[c]); Exec(s, run).Some? && Exec(s, run).value.free > 0
  {
    if s.callers[c].Releasing? {
      ReleasingGivesBack(s, c);
    } else if s.callers[c].Holding? {
      HoldingGivesBack(s, c);
    } else {
      var step := Caller(c, Receive);
      CallerKeepsSlots(s, c, Receive);
      HoldingGivesBack(Next(s, step).value, c);
      ExecFirst(s, step, GiveBack(c, Holding));
      assert GiveBack(c, s.callers[c]) == [step] + GiveBack(c, Holding);
    }
  }

  /** An open bulkhead has no free slot in any continuation if and only if every slot is abandoned. */
  lemma EmptyForeverIff(s: State)
    requires Reachable(s) && !s.closed
    ensures (forall run :: Exec(s, run).Some? ==> Exec(s, run).value.free == 0) <==> |Abandoned(s)| == s.capacity
  {
    ReachableInv(s);
    SlotsConserved(s);
    if |Abandoned(s)| == s.capacity {
      forall run | Exec(s, run).Some? ensures Exec(s, run).value.free == 0 {
        FullyAbandonedStaysEmpty(s, run);
      }
    } else if s.free > 0 {
      var none := seq(0, _ => Cancel(0));
      NoSteps(s, none);
    } else {
      assert Holders(s) + Pending(s) != {};
      var c :| c in Holders(s) + Pending(s);
      OwnerGivesBack(s, c);
    }
  }

  lemma NoSteps(s: State, run: seq<Step>)
    requires |run| == 0
    ensures Exec(s, run) == Some(s)
  {
  }

  lemma {:induction false} ExecFirst(s: State, step: Step, run: seq<Step>)
    requires Next(s, step).Some?
    ensures Exec(s, [step] + run) == Exec(Next(s, step).value, run)
    decreases |run|
  {
    var all := [step] + run;
    if run == [] {
      assert all[..0] == [];
      assert Exec(s, all[..0]) == Some(s);
    } else {
      assert all[..|all| - 1] == [step] + run[..|run| - 1];
      ExecFirst(s, step, run[..|run| - 1]);
    }
  }

  lemma SubsetSize(a: set<Id>, b: set<Id>)
    requires a <= b
    ensures |a| <= |b|
  {
    assert b == a + (b - a);
  }

  // ---------------------------------------------------------------- why an Acquire fails

  /** Whoever was refused or left has a cancelled context. */
  ghost predicate CancelInv(s: State) {
    forall c :: c in s.callers && (s.callers[c].Left? || s.callers[c] == Waiting(Refused)) ==> c in s.cancelled
  }

  lemma CallerKeepsCancelInv(s: State, who: Id, does: CallerStep)
    requires CancelInv(s) && NextCaller(s, who, does).Some?
    ensures CancelInv(NextCaller(s, who, does).value)
  {
  }

  lemma ProcessorKeepsCancelInv(s: State, job: ProcessorStep)
    requires CancelInv(s) && NextProcessor(s, job).Some?
    ensures CancelInv(NextProcessor(s, job).value)
  {
  }

  lemma {:induction false} RunKeepsCancelInv(s: State, run: seq<Step>)
    requires CancelInv(s) && Exec(s, run).Some?
    ensures CancelInv(Exec(s, run).value)
    decreases |run|
  {
    if run != [] {
      var t, step := Exec(s, run[..|run| - 1]).value, run[|run| - 1];
      RunKeepsCancelInv(s, run[..|run| - 1]);
      match step
      case Caller(who, does) => CallerKeepsCancelInv(t, who, does);
      case Processor(job) => ProcessorKeepsCancelInv(t, job);
      case Closer(_) =>
      case Cancel(_) =>
    }
  }

  /** Open or closed, a request is refused only if its context was cancelled, and so does a waiting caller leave. */
  lemma RefusedWasCancelled(s: State, c: Id)
    requires Reachable(s) && c in s.callers && (s.callers[c].Left? || s.callers[c] == Waiting(Refused))
    ensures c in s.cancelled
  {
    var capacity: nat, queueSize: nat, run :| Exec(Init(capacity, queueSize), run) == Some(s);
    RunKeepsCancelInv(Init(capacity, queueSize), run);
  }

  /** The steps with which an Acquire fails, each with its reason: closed, cancelled, or a full queue. */
  predicate Fails(s: State, step: Step, c: Id) {
    || (step == Caller(c, Arrive) && s.closed)
    || (step == Caller(c, GiveUp) && c in s.cancelled)
    || (step == Caller(c, QueueFull) && |s.queue| >= s.queueSize)
    || (step == Caller(c, Receive) && At(s, c, Waiting(Refused)) && c in s.cancelled)
  }

  predicate FailsAt(s: State, run: seq<Step>, i: nat, c: Id) {
    i < |run| && Exec(s, run[..i]).Some? && Fails(Exec(s, run[..i]).value, run[i], c)
  }

  ghost predicate FailsIn(s: State, run: seq<Step>, c: Id) {
    exists i: nat :: FailsAt(s, run, i, c)
  }

  lemma FailsInSnoc(s: State, run: seq<Step>, c: Id)
    requires run != []
    ensures FailsIn(s, run, c) <==> FailsIn(s, run[..|run| - 1], c) || FailsAt(s, run, |run| - 1, c)
  {
    var n := |run| - 1;
    if FailsIn(s, run[..n], c) {
      var i: nat :| FailsAt(s, run[..n], i, c);
      assert run[..n][..i] == run[..i];
      assert FailsAt(s, run, i, c);
    }
    if FailsIn(s, run, c) && !FailsAt(s, run, n, c) {
      var i: nat :| FailsAt(s, run, i, c);
      assert run[..n][..i] == run[..i];
      assert FailsAt(s, run[..n], i, c);
    }
  }

  /** Where a caller stands, given whether its Acquire failed and whether it began to release. */
  ghost predicate Standing(s: State, c: Id, failed: bool, released: bool) {
    && (failed ==> !released)
    && (c in s.callers && s.callers[c].Finished? <==> failed || (released && !At(s, c, Releasing)))
    && (At(s, c, Releasing) ==> released)
    && (released ==> c in s.callers && (s.callers[c].Finished? || s.callers[c].Releasing?))
  }

  lemma CallerKeepsStanding(s: State, who: Id, does: CallerStep, c: Id, failed: bool, released: bool)
    requires Standing(s, c, failed, released) && CancelInv(s) && NextCaller(s, who, does).Some?
    ensures Standing(NextCaller(s, who, does).value, c, failed || Fails(s, Caller(who, does), c),
                     released || Caller(who, does) == Caller(c, BeginRelease))
  {
  }

  lemma ProcessorKeepsStanding(s: State, job: ProcessorStep, c: Id, failed: bool, released: bool)
    requires Standing(s, c, failed, released) && NextProcessor(s, job).Some?
    ensures Standing(NextProcessor(s, job).value, c, failed, released)
  {
  }

  lemma StepKeepsStanding(s: State, step: Step, c: Id, failed: bool, released: bool)
    requires Standing(s, c, failed, released) && CancelInv(s) && Next(s, step).Some?
    ensures Standing(Next(s, step).value, c, failed || Fails(s, step, c), released || step == Caller(c, BeginRelease))
  {
    match step
    case Caller(who, does) => CallerKeepsStanding(s, who, does, c, failed, released);
    case Processor(job) => ProcessorKeepsStanding(s, job, c, failed, released);
    case Closer(_) =>
    case Cancel(_) =>
  }

  lemma {:induction false} RunStanding(capacity: nat, queueSize: nat, run: seq<Step>, c: Id)
    requires Exec(Init(capacity, queueSize), run).Some?
    ensures Standing(Exec(Init(capacity, queueSize), run).value, c,
                     FailsIn(Init(capacity, queueSize), run, c), Caller(c, BeginRelease) in run)
    decreases |run|
  {
    var init := Init(capacity, queueSize);
    if run != [] {
      var n := |run| - 1;
      RunStanding(capacity, queueSize, run[..n], c);
      RunKeepsCancelInv(init, run[..n]);
      FailsInSnoc(init, run, c);
      assert run == run[..n] + [run[n]];
      StepKeepsStanding(Exec(init, run[..n]).value, run[n], c, FailsIn(init, run[..n], c), Caller(c, BeginRelease) in run[..n]);
    }
  }

  /**
   In every run, an Acquire has returned an error without its caller leaving a wait if and
   only if the run holds a step in which it arrived at a closed bulkhead, gave up or was
   refused with its context cancelled, or found the queue full.
   */
  lemma AcquireFailsIff(capacity: nat, queueSize: nat, run: seq<Step>, c: Id)
    requires Exec(Init(capacity, queueSize), run).Some?
    ensures At(Exec(Init(capacity, queueSize), run).value, c, Finished) && Caller(c, BeginRelease) !in run
       <==> FailsIn(Init(capacity, queueSize), run, c)
  {
    RunStanding(capacity, queueSize, run, c);
  }

  lemma StepKeepsQueueBound(s: State, step: Step)
    requires |s.queue| <= s.queueSize && Next(s, step).Some?
    ensures Next(s, step).value.queueSize == s.queueSize && |Next(s, step).value.queue| <= s.queueSize
  {
    match step
    case Caller(_, _) =>
    case Processor(_) =>
    case Closer(_) =>
    case Cancel(_) =>
  }

  /** The queue never holds more requests than it was made for, and Close leaves the pool only when it has emptied it. */
  lemma {:induction false} QueueBounded(capacity: nat, queueSize: nat, run: seq<Step>)
    requires Exec(Init(capacity, queueSize), run).Some?
    ensures var s := Exec(Init(capacity, queueSize), run).value;
            && s.queueSize == queueSize && |s.queue| <= queueSize
            && (Next(s, Closer(DrainEnd)).Some? <==> s.draining && s.free == 0)
    decreases |run|
  {
    if run != [] {
      QueueBounded(capacity, queueSize, run[..|run| - 1]);
      StepKeepsQueueBound(Exec(Init(capacity, queueSize), run[..|run| - 1]).value, run[|run| - 1]);
    }
  }

  /** With a slot free, a caller whose context is alive takes it: it can do nothing else. */
  lemma FreeSlotIsTaken(s: State, c: Id, does: CallerStep)
    requires At(s, c, Entered) && s.free > 0 && c !in s.cancelled
    ensures NextCaller(s, c, does).Some? <==> does == TakeFree
    ensures At(NextCaller(s, c, TakeFree).value, c, Holding)
  {
  }

  /** A caller that found no slot sends its request whenever the queue has room for it. */
  lemma RoomIsUsed(s: State, c: Id, does: CallerStep)
    requires At(s, c, Queueing) && !s.closed && |s.queue| < s.queueSize
    ensures NextCaller(s, c, does).Some? <==> does == Enqueue
    ensures At(NextCaller(s, c, Enqueue).value, c, Waiting(NoReply))
  {
  }

  // ---------------------------------------------------------------- what Close does to callers under way

  /** A caller about to send on the queue can move if and only if the queue is still open; on a closed one the send panics. */
  lemma SendPossibleIff(s: State, c: Id)
    requires At(s, c, Queueing)
    ensures (exists does :: NextCaller(s, c, does).Some?) <==> !s.closed
  {
    if !s.closed {
      assert NextCaller(s, c, Enqueue).Some? || NextCaller(s, c, Handoff).Some? || NextCaller(s, c, QueueFull).Some?;
    }
  }

  /** The caller has passed the check of Acquire, has not sent, and is about to send or free to decide to. */
  predicate MaySend(s: State, c: Id) {
    At(s, c, Queueing) || (At(s, c, Entered) && c !in s.cancelled)
  }

  lemma ClosedCallerAddsNoSender(s: State, who: Id, does: CallerStep, c: Id)
    requires s.closed && NextCaller(s, who, does).Some? && !MaySend(s, c)
    ensures NextCaller(s, who, does).value.closed && !MaySend(NextCaller(s, who, does).value, c)
  {
  }

  lemma ClosedStepAddsNoSender(s: State, step: Step, c: Id)
    requires s.closed && Next(s, step).Some? && !MaySend(s, c)
    ensures Next(s, step).value.closed && !MaySend(Next(s, step).value, c)
  {
    match step
    case Caller(who, does) => ClosedCallerAddsNoSender(s, who, does, c);
    case Processor(_) =>
    case Closer(_) =>
    case Cancel(_) =>
  }

  lemma {:induction false} ClosedRunAddsNoSender(s: State, run: seq<Step>, c: Id)
    requires s.closed && Exec(s, run).Some? && !MaySend(s, c)
    ensures Exec(s, run).value.closed && !MaySend(Exec(s, run).value, c)
    decreases |run|
  {
    if run != [] {
      ClosedRunAddsNoSender(s, run[..|run| - 1], c);
      ClosedStepAddsNoSender(Exec(s, run[..|run| - 1]).value, run[|run| - 1], c);
    }
  }

  function Drains(n: nat): seq<Step> {
    seq(n, _ => Closer(DrainOne))
  }

  lemma {:induction false} DrainsRun(s: State, n: nat)
    requires s.draining && n <= s.free
    ensures Exec(s, Drains(n)) == Some(s.(free := s.free - n, lost := s.lost + n))
    decreases n
  {
    if n > 0 {
      DrainsRun(s, n - 1);
      assert Drains(n)[..n - 1] == Drains(n - 1);
    }
  }

  /**
   After Close some continuation brings a caller to its send on the closed queue if and
   only if, when Close came, it had passed the check of Acquire and not yet sent: it was
   about to send, or had still to find the pool empty and its context was alive.
   */
  lemma SendAfterCloseIff(s: State, c: Id)
    requires !s.closed
    ensures var closed := s.(closed := true, draining := true);
            && Next(s, Closer(Close)) == Some(closed)
            && ((exists run :: Exec(closed, run).Some? && At(Exec(closed, run).value, c, Queueing)) <==> MaySend(s, c))
  {
    var closed := s.(closed := true, draining := true);
    if !MaySend(s, c) {
      forall run | Exec(closed, run).Some? ensures !At(Exec(closed, run).value, c, Queueing) {
        ClosedRunAddsNoSender(closed, run, c);
      }
    } else if At(s, c, Queueing) {
      assert Exec(closed, []) == Some(closed);
    } else {
      DrainsRun(closed, s.free);
      var run := Drains(s.free) + [Caller(c, GoQueue)];
      assert run[..s.free] == Drains(s.free);
      assert Exec(closed, run).Some?;
    }
  }

  /** Nothing is free, nobody can put a slot back, and Close has happened. */
  ghost predicate Drained(s: State) {
    s.closed && s.free == 0 && forall c :: c in s.callers ==> !s.callers[c].Releasing?
  }

  lemma DrainedStep(s: State, step: Step)
    requires Drained(s) && Next(s, step).Some?
    ensures Drained(Next(s, step).value) && step != Processor(Grant)
  {
    match step
    case Caller(_, _) =>
    case Processor(_) =>
    case Closer(_) =>
    case Cancel(_) =>
  }

  lemma HangingStep(s: State, step: Step, c: Id)
    requires Drained(s) && Next(s, step).Some? && step != Cancel(c)
    requires Pleads(s, c)
    ensures Pleads(Next(s, step).value, c)
  {
    match step
    case Caller(_, _) =>
    case Processor(_) =>
    case Closer(_) =>
    case Cancel(_) =>
  }

  lemma {:induction false} DrainedForever(s: State, run: seq<Step>)
    requires Drained(s) && Exec(s, run).Some?
    ensures Drained(Exec(s, run).value) && Processor(Grant) !in run
    decreases |run|
  {
    if run != [] {
      var n := |run| - 1;
      DrainedForever(s, run[..n]);
      DrainedStep(Exec(s, run[..n]).value, run[n]);
      assert run == run[..n] + [run[n]];
    }
  }

  lemma {:induction false} HangsOn(s: State, run: seq<Step>, c: Id)
    requires Drained(s) && Exec(s, run).Some? && Pleads(s, c) && Cancel(c) !in run
    ensures Pleads(Exec(s, run).value, c)
    decreases |run|
  {
    if run != [] {
      var n := |run| - 1;
      assert run[n] in run && forall step :: step in run[..n] ==> step in run;
      DrainedForever(s, run[..n]);
      HangsOn(s, run[..n], c);
      HangingStep(Exec(s, run[..n]).value, run[n], c);
    }
  }

  /** The caller's request is sent, unanswered, and its context alive. */
  predicate Pleads(s: State, c: Id) {
    At(s, c, Waiting(NoReply)) && c !in s.cancelled
  }

  /**
   Once Close has drained the pool and no Release is half way, no request is granted any
   more; a caller that waits then hangs for as long as its context is not cancelled.
   */
  lemma WaiterHangs(s: State, run: seq<Step>, c: Id)
    requires Drained(s) && Exec(s, run).Some?
    ensures Drained(Exec(s, run).value) && Processor(Grant) !in run
    ensures Pleads(s, c) && Cancel(c) !in run ==> Pleads(Exec(s, run).value, c)
  {
    DrainedForever(s, run);
    if Pleads(s, c) && Cancel(c) !in run {
      HangsOn(s, run, c);
    }
  }

  /** The processor returns only from an empty, closed queue. */
  ghost predicate StopInv(s: State) {
    s.stopped ==> s.closed && s.processing.None? && s.queue == []
  }

  lemma StepKeepsStopInv(s: State, step: Step)
    requires StopInv(s) && Next(s, step).Some?
    ensures StopInv(Next(s, step).value)
  {
    match step
    case Caller(_, _) =>
    case Processor(_) =>
    case Closer(_) =>
    case Cancel(_) =>
  }

  lemma {:induction false} RunKeepsStopInv(s: State, run: seq<Step>)
    requires StopInv(s) && Exec(s, run).Some?
    ensures StopInv(Exec(s, run).value)
    decreases |run|
  {
    if run != [] {
      RunKeepsStopInv(s, run[..|run| - 1]);
      StepKeepsStopInv(Exec(s, run[..|run| - 1]).value, run[|run| - 1]);
    }
  }

  lemma ReachableStopInv(s: State)
    requires Reachable(s)
    ensures StopInv(s)
  {
    var capacity: nat, queueSize: nat, run :| Exec(Init(capacity, queueSize), run) == Some(s);
    RunKeepsStopInv(Init(capacity, queueSize), run);
  }

  /** The run does not cancel the caller and ends with a grant in its channel. */
  ghost predicate Serves(s: State, run: seq<Step>, c: Id) {
    Exec(s, run).Some? && Cancel(c) !in run && At(Exec(s, run).value, c, Waiting(Granted))
  }

  lemma ServesFirst(s: State, step: Step, run: seq<Step>, c: Id)
    requires Next(s, step).Some? && step != Cancel(c) && Serves(Next(s, step).value, run, c)
    ensures Serves(s, [step] + run, c)
  {
    ExecFirst(s, step, run);
  }

  /** How far the processor is from the last request it has before it. */
  ghost function Ahead(s: State): nat {
    2 * |Open(s)| + if s.processing.None? then 1 else 0
  }

  lemma DequeueStep(s: State, c: Id) returns (t: State)
    requires Inv(s) && StopInv(s) && Pleads(s, c) && s.processing.None?
    ensures Next(s, Processor(Dequeue)) == Some(t) && Inv(t) && StopInv(t) && Pleads(t, c)
    ensures t.free == s.free && Ahead(t) < Ahead(s)
  {
    assert c in Open(s) && Open(s) == s.queue;
    t := Next(s, Processor(Dequeue)).value;
    NextKeepsInv(s, Processor(Dequeue));
    assert Open(t) == Open(s);
  }

  /** Whoever is ahead of the caller can be cancelled and then refused. */
  lemma RefuseSteps(s: State, c: Id) returns (t: State, u: State)
    requires Inv(s) && StopInv(s) && Pleads(s, c) && s.processing.Some? && s.processing.value != c
    ensures Next(s, Cancel(s.processing.value)) == Some(t) && Next(t, Processor(Refuse)) == Some(u)
    ensures Inv(u) && StopInv(u) && Pleads(u, c) && u.free == s.free && Ahead(u) < Ahead(s)
  {
    var d := s.processing.value;
    InHandIsOpen(s);
    t := Next(s, Cancel(d)).value;
    NextKeepsInv(s, Cancel(d));
    u := Next(t, Processor(Refuse)).value;
    NextKeepsInv(t, Processor(Refuse));
    assert Open(s) == [d] + s.queue && Open(u) == s.queue;
  }

  /** With a slot free, the processor can be brought to grant it to a caller that waits. */
  lemma {:induction false} WaiterServed(s: State, c: Id) returns (run: seq<Step>)
    requires Inv(s) && StopInv(s) && Pleads(s, c) && s.free > 0
    ensures Serves(s, run, c)
    decreases Ahead(s)
  {
    if s.processing.None? {
      var t := DequeueStep(s, c);
      var rest := WaiterServed(t, c);
      ServesFirst(s, Processor(Dequeue), rest, c);
      run := [Processor(Dequeue)] + rest;
    } else if s.processing.value == c {
      var t := Next(s, Processor(Grant)).value;
      assert Exec(t, []) == Some(t);
      ServesFirst(s, Processor(Grant), [], c);
      run := [Processor(Grant)] + [];
    } else {
      var d := s.processing.value;
      var t, u := RefuseSteps(s, c);
      var rest := WaiterServed(u, c);
      ServesFirst(t, Processor(Refuse), rest, c);
      ServesFirst(s, Cancel(d), [Processor(Refuse)] + rest, c);
      run := [Cancel(d)] + ([Processor(Refuse)] + rest);
    }
  }

  /**
   After Close, a caller whose request waits can still be granted a slot without being
   cancelled if and only if a slot is free or a Release is half way.
   */
  lemma WaiterServableIff(s: State, c: Id)
    requires Reachable(s) && s.closed && Pleads(s, c)
    ensures (exists run :: Serves(s, run, c)) <==> !Drained(s)
  {
    ReachableInv(s);
    ReachableStopInv(s);
    if Drained(s) {
      forall run | Exec(s, run).Some? && Cancel(c) !in run ensures !Serves(s, run, c) {
        WaiterHangs(s, run, c);
      }
    } else if s.free > 0 {
      var run := WaiterServed(s, c);
    } else {
      var d :| d in s.callers && s.callers[d].Releasing?;
      var step := Caller(d, EndRelease);
      ReleaseHasRoom(s, d);
      NextKeepsInv(s, step);
      StepKeepsStopInv(s, step);
      var rest := WaiterServed(Next(s, step).value, c);
      ServesFirst(s, step, rest, c);
    }
  }

  /** Such a caller exists: its request was queued before Close and the slot's holder releases after it. */
  lemma HangReachable() returns (s: State)
    ensures Reachable(s) && Drained(s) && !s.draining && At(s, 1, Waiting(NoReply)) && s.cancelled == {}
  {
    s := LeakPrefix();
    s := StepReachable(s, Closer(Close));
    s := StepReachable(s, Closer(DrainEnd));
  }

  /** The panic of a send racing with Close is reachable: the check and the send are not one step. */
  lemma SendAfterCloseReachable() returns (s: State)
    ensures Reachable(s) && s.closed && At(s, 1, Queueing)
  {
    s := SenderReachable();
    s := StepReachable(s, Closer(Close));
  }
}
