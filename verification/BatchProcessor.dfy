/**
 The batch processor of pkg/clients/batch_processor.go: callers of Submit, workers
 that collect requests into batches and answer them operation by operation, and
 Close, as interleaved steps over the queue, the worker tokens and one result channel
 per request.
 */
module BatchProcessor {
  import opened Common

  datatype Operation = Operation(name: string)

  /** `box` tells requests apart: it is the result channel.  The textual id need not be unique. */
  datatype Request = Request(box: nat, operation: Operation, id: string)

  datatype Result = Result(id: string, data: string)

  function ResultOf(r: Request): Result {
    Result(r.id, "Processed " + r.id)
  }

  // ---------------------------------------------------------------- grouping by operation

  /** The requests of one operation, in their order. */
  function OfOperation(s: seq<Request>, op: Operation): seq<Request> {
    if s == [] then []
    else OfOperation(s[..|s| - 1], op) + if s[|s| - 1].operation == op then [s[|s| - 1]] else []
  }

  function Operations(s: seq<Request>): set<Operation> {
    set r | r in s :: r.operation
  }

  /** The groups one after the other, in the given order of operations. */
  function Plan(batch: seq<Request>, order: seq<Operation>): seq<Request> {
    if order == [] then [] else Plan(batch, order[..|order| - 1]) + OfOperation(batch, order[|order| - 1])
  }

  /** An order in which a map with these operations as keys may be iterated. */
  ghost predicate Covers(batch: seq<Request>, order: seq<Operation>) {
    && (forall i, j :: 0 <= i < j < |order| ==> order[i] != order[j])
    && forall op :: op in order <==> op in Operations(batch)
  }

  lemma {:induction false} OfOperationConcat(a: seq<Request>, b: seq<Request>, op: Operation)
    ensures OfOperation(a + b, op) == OfOperation(a, op) + OfOperation(b, op)
    decreases |b|
  {
    if b == [] {
      assert a + b == a;
    } else {
      assert (a + b)[..|a + b| - 1] == a + b[..|b| - 1];
      OfOperationConcat(a, b[..|b| - 1], op);
    }
  }

  lemma {:induction false} GroupOfGroup(s: seq<Request>, inner: Operation, op: Operation)
    ensures OfOperation(OfOperation(s, inner), op) == if inner == op then OfOperation(s, op) else []
    decreases |s|
  {
    if s != [] {
      GroupOfGroup(s[..|s| - 1], inner, op);
      OfOperationConcat(OfOperation(s[..|s| - 1], inner), if s[|s| - 1].operation == inner then [s[|s| - 1]] else [], op);
    }
  }

  lemma {:induction false} OtherOperationEmpty(s: seq<Request>, op: Operation)
    requires op !in Operations(s)
    ensures OfOperation(s, op) == []
    decreases |s|
  {
    if s != [] {
      assert s[|s| - 1].operation in Operations(s);
      forall o | o in Operations(s[..|s| - 1]) ensures o in Operations(s) {
        var r :| r in s[..|s| - 1] && r.operation == o;
        assert r in s;
      }
      OtherOperationEmpty(s[..|s| - 1], op);
    }
  }

  lemma PlanSnoc(batch: seq<Request>, init: seq<Operation>, last: Operation, op: Operation)
    ensures OfOperation(Plan(batch, init + [last]), op)
         == OfOperation(Plan(batch, init), op) + if last == op then OfOperation(batch, op) else []
  {
    assert (init + [last])[..|init|] == init;
    OfOperationConcat(Plan(batch, init), OfOperation(batch, last), op);
    GroupOfGroup(batch, last, op);
  }

  lemma {:induction false} PlanOfOperation(batch: seq<Request>, order: seq<Operation>, op: Operation)
    requires forall i, j :: 0 <= i < j < |order| ==> order[i] != order[j]
    ensures OfOperation(Plan(batch, order), op) == if op in order then OfOperation(batch, op) else []
    decreases |order|
  {
    if order != [] {
      var init, last := order[..|order| - 1], order[|order| - 1];
      assert order == init + [last] && last !in init;
      PlanOfOperation(batch, init, op);
      PlanSnoc(batch, init, last, op);
    }
  }

  /** Two sequences that agree operation by operation hold the same requests. */
  lemma SameGroupsSameRequests(a: seq<Request>, b: seq<Request>)
    requires forall op :: OfOperation(a, op) == OfOperation(b, op)
    ensures multiset(a) == multiset(b)
  {
    forall r ensures multiset(a)[r] == multiset(b)[r] {
      CountInGroup(a, r);
      CountInGroup(b, r);
      assert OfOperation(a, r.operation) == OfOperation(b, r.operation);
    }
  }

  lemma {:induction false} CountInGroup(s: seq<Request>, r: Request)
    ensures multiset(s)[r] == multiset(OfOperation(s, r.operation))[r]
    decreases |s|
  {
    if s != [] {
      CountInGroup(s[..|s| - 1], r);
      assert s == s[..|s| - 1] + [s[|s| - 1]];
    }
  }

  /** Grouping is a partition of the batch that keeps the order within each operation. */
  lemma {:induction false} GroupingPartitions(batch: seq<Request>, order: seq<Operation>)
    requires Covers(batch, order)
    ensures forall op :: OfOperation(Plan(batch, order), op) == OfOperation(batch, op)
    ensures multiset(Plan(batch, order)) == multiset(batch)
  {
    forall op ensures OfOperation(Plan(batch, order), op) == OfOperation(batch, op) {
      PlanOfOperation(batch, order, op);
      if op !in order {
        OtherOperationEmpty(batch, op);
      }
    }
    SameGroupsSameRequests(Plan(batch, order), batch);
  }

  lemma OperationsSnoc(s: seq<Request>, r: Request)
    ensures Operations(s + [r]) == Operations(s) + {r.operation}
  {
    assert r in s + [r];
    forall o | o in Operations(s) ensures o in Operations(s + [r]) {
      var q :| q in s && q.operation == o;
      assert q in s + [r];
    }
  }

  /** The map holds the group of every operation, and nothing else. */
  ghost predicate Grouped(groups: map<Operation, seq<Request>>, s: seq<Request>) {
    && (forall op :: op in groups <==> op in Operations(s))
    && forall op :: op in groups ==> groups[op] == OfOperation(s, op)
  }

  function AddToGroup(groups: map<Operation, seq<Request>>, r: Request): map<Operation, seq<Request>> {
    groups[r.operation := (if r.operation in groups then groups[r.operation] else []) + [r]]
  }

  lemma GroupedNext(groups: map<Operation, seq<Request>>, s: seq<Request>, r: Request)
    requires Grouped(groups, s)
    ensures Grouped(AddToGroup(groups, r), s + [r])
  {
    OperationsSnoc(s, r);
    if r.operation !in groups {
      OtherOperationEmpty(s, r.operation);
    }
    forall op ensures OfOperation(s + [r], op) == OfOperation(s, op) + if r.operation == op then [r] else [] {
      assert (s + [r])[..|s|] == s;
    }
  }

  /** The grouping loop of processBatch. */
  method GroupByOperation(batch: seq<Request>) returns (groups: map<Operation, seq<Request>>)
    ensures Grouped(groups, batch)
  {
    groups := map[];
    for i := 0 to |batch|
      invariant Grouped(groups, batch[..i])
    {
      GroupedNext(groups, batch[..i], batch[i]);
      assert batch[..i + 1] == batch[..i] + [batch[i]];
      groups := AddToGroup(groups, batch[i]);
    }
    assert batch[..|batch|] == batch;
  }

  /** The result carries the request's own id and says that it was processed. */
  predicate IsFor(x: Result, r: Request) {
    x.id == r.id && x.data == "Processed " + r.id
  }

  /** One right result per request, in the order of `requests`. */
  predicate Answers(sent: seq<(Request, Result)>, requests: seq<Request>) {
    |sent| == |requests| && forall i :: 0 <= i < |sent| ==> sent[i].0 == requests[i] && IsFor(sent[i].1, requests[i])
  }

  /** processBatch: one result per request, group after group in some order of the map. */
  method ProcessBatch(batch: seq<Request>) returns (sent: seq<(Request, Result)>, ghost order: seq<Operation>)
    ensures Covers(batch, order) && Answers(sent, Plan(batch, order))
    ensures |sent| == |batch|
    ensures forall x :: x in sent ==> x.1.id == x.0.id && x.1.data == "Processed " + x.0.id
  {
    var groups := GroupByOperation(batch);
    sent, order := [], [];
    var left := groups.Keys;
    while left != {}
      invariant left <= groups.Keys
      invariant forall op :: op in order <==> op in groups.Keys - left
      invariant forall i, j :: 0 <= i < j < |order| ==> order[i] != order[j]
      invariant Answers(sent, Plan(batch, order))
      decreases left
    {
      var op :| op in left;
      assert op !in order;
      var results := ProcessOperationGroup(groups[op]);
      AnswersNext(batch, order, op, sent, results);
      sent, order, left := sent + results, order + [op], left - {op};
    }
    GroupingPartitions(batch, order);
    SizeOfSameMultiset(Plan(batch, order), batch);
  }

  lemma AnswersNext(batch: seq<Request>, order: seq<Operation>, op: Operation,
                    sent: seq<(Request, Result)>, results: seq<(Request, Result)>)
    requires Answers(sent, Plan(batch, order)) && Answers(results, OfOperation(batch, op))
    ensures Answers(sent + results, Plan(batch, order + [op]))
  {
    assert (order + [op])[..|order|] == order;
  }

  lemma SizeOfSameMultiset(a: seq<Request>, b: seq<Request>)
    requires multiset(a) == multiset(b)
    ensures |a| == |b|
  {
    assert |multiset(a)| == |a| && |multiset(b)| == |b|;
  }

  method ProcessOperationGroup(requests: seq<Request>) returns (sent: seq<(Request, Result)>)
    ensures Answers(sent, requests)
  {
    sent := [];
    for i := 0 to |requests|
      invariant Answers(sent, requests[..i])
    {
      sent := sent + [(requests[i], ResultOf(requests[i]))];
    }
    assert requests[..|requests|] == requests;
  }

  // ---------------------------------------------------------------- the processor as interleaved steps

  datatype Phase =
    | Collecting(batch: seq<Request>)                                 // in the select, with an open batch
    | Ready(batch: seq<Request>, last: bool)                          // processBatch, blocked on a worker token
    | Processing(batch: seq<Request>, todo: seq<Request>, last: bool) // answering; `todo` is still to come
    | Returned

  /** `taken` and `gave` are histories: what the worker received from the queue and what it answered. */
  datatype Worker = Worker(phase: Phase, taken: seq<Request>, gave: seq<Request>)

  datatype Caller = Waiting | Got(result: Result) | Left

  /** The result channel, with room for one result, and the caller behind it. */
  datatype Box = Box(reply: Option<Result>, caller: Caller)

  datatype State = State(
    maxBatch: nat,
    queueSize: nat,
    queue: seq<Request>,
    workers: seq<Worker>,
    tokens: nat,
    shutdown: bool,          // the shutdown channel is closed
    closed: bool,            // the queue is closed: Close has returned
    accepted: seq<Request>,  // history: every request that entered the queue
    boxes: seq<Box>,
    dropped: nat             // results thrown away because a channel was full
  )

  datatype WorkerStep = Take | Timer | Stop | Begin(order: seq<Operation>) | Answer | Finish

  datatype Step =
    | Submit(operation: Operation, id: string)
    | Handoff(receiver: nat, operation: Operation, id: string)
    | Work(i: nat, does: WorkerStep)
    | Receive(box: nat)
    | Cancel(box: nat)
    | Shutdown
    | CloseQueue

  /** NewBatchProcessor. */
  function Init(maxBatch: nat, queueSize: nat, workers: nat): State {
    State(maxBatch, queueSize, [], seq(workers, _ => Worker(Collecting([]), [], [])), workers, false, false, [], [], 0)
  }

  function Enqueue(s: State, op: Operation, id: string): State {
    var r := Request(|s.accepted|, op, id);
    s.(queue := s.queue + [r], accepted := s.accepted + [r], boxes := s.boxes + [Box(None, Waiting)])
  }

  function Put(s: State, i: nat, w: Worker): State
    requires i < |s.workers|
  {
    s.(workers := s.workers[i := w])
  }

  /** The send on the result channel, which gives up when the channel is full. */
  function Send(s: State, r: Request): State {
    if r.box < |s.boxes| && s.boxes[r.box].reply.None? then
      s.(boxes := s.boxes[r.box := s.boxes[r.box].(reply := Some(ResultOf(r)))])
    else s.(dropped := s.dropped + 1)
  }

  ghost function NextWorker(s: State, i: nat, step: WorkerStep): Option<State>
    requires i < |s.workers|
  {
    var w := s.workers[i];
    match step
    case Take =>
      if w.phase.Collecting? && s.queue != [] then
        var r := s.queue[0];
        var batch := w.phase.batch + [r];
        var phase := if |batch| >= s.maxBatch then Ready(batch, false) else Collecting(batch);
        Some(Put(s, i, w.(phase := phase, taken := w.taken + [r])).(queue := s.queue[1..]))
      else None
    case Timer =>
      if w.phase.Collecting? then
        Some(if w.phase.batch == [] then s else Put(s, i, w.(phase := Ready(w.phase.batch, false))))
      else None
    case Stop =>
      if w.phase.Collecting? && s.shutdown then
        Some(Put(s, i, w.(phase := if w.phase.batch == [] then Returned else Ready(w.phase.batch, true))))
      else None
    case Begin(order) =>
      if w.phase.Ready? && s.tokens > 0 && Covers(w.phase.batch, order) then
        var todo := Plan(w.phase.batch, order);
        Some(Put(s, i, w.(phase := Processing(w.phase.batch, todo, w.phase.last))).(tokens := s.tokens - 1))
      else None
    case Answer =>
      if w.phase.Processing? && w.phase.todo != [] then
        var r := w.phase.todo[0];
        Some(Send(Put(s, i, w.(phase := w.phase.(todo := w.phase.todo[1..]), gave := w.gave + [r])), r))
      else None
    case Finish =>
      if w.phase.Processing? && w.phase.todo == [] then
        Some(Put(s, i, w.(phase := if w.phase.last then Returned else Collecting([]))).(tokens := s.tokens + 1))
      else None
  }

  predicate AllReturned(s: State) {
    forall w :: w in s.workers ==> w.phase.Returned?
  }

  /** One step of one participant; `None` when the step is not enabled. */
  ghost function Next(s: State, step: Step): Option<State> {
    match step
    case Submit(op, id) =>
      if !s.closed && |s.queue| < s.queueSize then Some(Enqueue(s, op, id)) else None
    case Handoff(i, op, id) =>
      if !s.closed && s.queueSize == 0 && s.queue == [] && i < |s.workers| then NextWorker(Enqueue(s, op, id), i, Take)
      else None
    case Work(i, does) =>
      if i < |s.workers| then NextWorker(s, i, does) else None
    case Receive(b) =>
      if b < |s.boxes| && s.boxes[b].caller.Waiting? && s.boxes[b].reply.Some? then
        Some(s.(boxes := s.boxes[b := Box(None, Got(s.boxes[b].reply.value))]))
      else None
    case Cancel(b) =>
      if b < |s.boxes| && s.boxes[b].caller.Waiting? then
        Some(s.(boxes := s.boxes[b := s.boxes[b].(caller := Left)]))
      else None
    case Shutdown =>
      if s.shutdown then None else Some(s.(shutdown := true))
    case CloseQueue =>
      if s.shutdown && !s.closed && AllReturned(s) then Some(s.(closed := true)) else None
  }

  ghost function Exec(s: State, run: seq<Step>): Option<State>
    decreases |run|
  {
    if run == [] then Some(s)
    else
      match Exec(s, run[..|run| - 1])
      case None => None
      case Some(t) => Next(t, run[|run| - 1])
  }

  ghost predicate Reachable(s: State) {
    exists maxBatch: nat, queueSize: nat, workers: nat, run :: Exec(Init(maxBatch, queueSize, workers), run) == Some(s)
  }

  // ---------------------------------------------------------------- counting over the workers

  /** What a worker has received and not answered. */
  function Held(p: Phase): seq<Request> {
    match p
    case Collecting(batch) => batch
    case Ready(batch, _) => batch
    case Processing(_, todo, _) => todo
    case Returned => []
  }

  datatype Ledger = Taken | Gave | InHand

  function Entries(w: Worker, l: Ledger): seq<Request> {
    match l
    case Taken => w.taken
    case Gave => w.gave
    case InHand => Held(w.phase)
  }

  /** How often a request is entered in the ledgers of all workers. */
  function Tally(ws: seq<Worker>, l: Ledger, r: Request): nat {
    if ws == [] then 0 else Tally(ws[..|ws| - 1], l, r) + multiset(Entries(ws[|ws| - 1], l))[r]
  }

  lemma TallyLast(ws: seq<Worker>, l: Ledger, r: Request)
    requires ws != []
    ensures Tally(ws, l, r) == Tally(ws[..|ws| - 1], l, r) + multiset(Entries(ws[|ws| - 1], l))[r]
  {
  }

  lemma {:induction false} TallyUpdate(ws: seq<Worker>, i: nat, w: Worker, l: Ledger, r: Request)
    requires i < |ws|
    ensures Tally(ws[i := w], l, r) + multiset(Entries(ws[i], l))[r] == Tally(ws, l, r) + multiset(Entries(w, l))[r]
    decreases |ws|
  {
    var n, ws' := |ws| - 1, ws[i := w];
    TallyLast(ws, l, r);
    TallyLast(ws', l, r);
    if i == n {
      assert ws'[..n] == ws[..n];
    } else {
      assert ws'[..n] == ws[..n][i := w] && ws'[n] == ws[n] && ws[..n][i] == ws[i];
      TallyUpdate(ws[..n], i, w, l, r);
    }
  }

  lemma {:induction false} TallyAtLeast(ws: seq<Worker>, i: nat, l: Ledger, r: Request)
    requires i < |ws|
    ensures Tally(ws, l, r) >= multiset(Entries(ws[i], l))[r]
    decreases |ws|
  {
    if i < |ws| - 1 {
      TallyAtLeast(ws[..|ws| - 1], i, l, r);
    }
  }

  lemma {:induction false} TallyAtLeastTwo(ws: seq<Worker>, i: nat, j: nat, l: Ledger, r: Request)
    requires i < j < |ws|
    ensures Tally(ws, l, r) >= multiset(Entries(ws[i], l))[r] + multiset(Entries(ws[j], l))[r]
    decreases |ws|
  {
    if j < |ws| - 1 {
      TallyAtLeastTwo(ws[..|ws| - 1], i, j, l, r);
    } else {
      TallyAtLeast(ws[..|ws| - 1], i, l, r);
    }
  }

  function Busy(ws: seq<Worker>): nat {
    if ws == [] then 0 else Busy(ws[..|ws| - 1]) + if ws[|ws| - 1].phase.Processing? then 1 else 0
  }

  lemma {:induction false} BusyUpdate(ws: seq<Worker>, i: nat, w: Worker)
    requires i < |ws|
    ensures Busy(ws) <= |ws|
    ensures Busy(ws[i := w]) + (if ws[i].phase.Processing? then 1 else 0) == Busy(ws) + if w.phase.Processing? then 1 else 0
    ensures !ws[i].phase.Processing? ==> Busy(ws) < |ws|
    decreases |ws|
  {
    var n := |ws| - 1;
    if i == n {
      assert ws[i := w][..n] == ws[..n];
      BusyBound(ws[..n]);
    } else {
      assert ws[i := w][..n] == ws[..n][i := w];
      BusyUpdate(ws[..n], i, w);
    }
  }

  lemma BusyBound(ws: seq<Worker>)
    ensures Busy(ws) <= |ws|
  {
  }

  // ---------------------------------------------------------------- the invariant

  /** Operation by operation, a worker has answered a prefix of what it took and holds the rest, in order. */
  ghost predicate InOrder(w: Worker) {
    forall op :: OfOperation(w.taken, op) == OfOperation(w.gave, op) + OfOperation(Held(w.phase), op)
  }

  ghost predicate Sized(p: Phase, maxBatch: nat) {
    match p
    case Collecting(batch) => |batch| < Max(1, maxBatch)
    case Ready(batch, _) => 1 <= |batch| <= Max(1, maxBatch)
    case Processing(batch, _, _) => 1 <= |batch| <= Max(1, maxBatch)
    case Returned => true
  }

  ghost predicate WorkersInv(s: State) {
    && (forall w :: w in s.workers ==> InOrder(w) && Sized(w.phase, s.maxBatch))
    && s.tokens + Busy(s.workers) == |s.workers|
  }

  predicate Accepted(s: State, r: Request) {
    r.box < |s.accepted| && s.accepted[r.box] == r
  }

  /** An accepted request is in the queue or was taken by one worker, once. */
  ghost predicate PlaceInv(s: State) {
    && (forall k :: 0 <= k < |s.accepted| ==> s.accepted[k].box == k)
    && forall r :: Tally(s.workers, Taken, r) + multiset(s.queue)[r] == if Accepted(s, r) then 1 else 0
  }

  /** Results that reached the channel: still in it, or received. */
  function Delivered(b: Box): nat {
    (if b.reply.Some? then 1 else 0) + if b.caller.Got? then 1 else 0
  }

  predicate Honest(b: Box, r: Request) {
    && (b.reply.Some? ==> IsFor(b.reply.value, r))
    && (b.caller.Got? ==> IsFor(b.caller.result, r))
  }

  /** Every answer was delivered, with the right content. */
  ghost predicate BoxInv(s: State) {
    && |s.boxes| == |s.accepted| && s.dropped == 0
    && forall r :: Accepted(s, r) ==> Honest(s.boxes[r.box], r) && Delivered(s.boxes[r.box]) == Tally(s.workers, Gave, r)
  }

  ghost predicate Inv(s: State) {
    WorkersInv(s) && PlaceInv(s) && BoxInv(s)
  }

  lemma {:induction false} FreshTally(n: nat, l: Ledger, r: Request)
    ensures var ws := seq(n, _ => Worker(Collecting([]), [], []));
            Tally(ws, l, r) == 0 && Busy(ws) == 0
  {
    var ws := seq(n, _ => Worker(Collecting([]), [], []));
    if n > 0 {
      assert ws[..n - 1] == seq(n - 1, _ => Worker(Collecting([]), [], []));
      FreshTally(n - 1, l, r);
    }
  }

  lemma InitInv(maxBatch: nat, queueSize: nat, workers: nat)
    ensures Inv(Init(maxBatch, queueSize, workers))
  {
    var s := Init(maxBatch, queueSize, workers);
    forall r ensures Tally(s.workers, Taken, r) == 0 && Busy(s.workers) == 0 {
      FreshTally(workers, Taken, r);
    }
    FreshTally(workers, Taken, Request(0, Operation(""), ""));
  }

  /** What a worker took, it answered or holds. */
  lemma LedgersBalance(w: Worker, r: Request)
    requires InOrder(w)
    ensures multiset(w.taken)[r] == multiset(w.gave)[r] + multiset(Held(w.phase))[r]
  {
    var both := w.gave + Held(w.phase);
    forall op ensures OfOperation(w.taken, op) == OfOperation(both, op) {
      OfOperationConcat(w.gave, Held(w.phase), op);
    }
    SameGroupsSameRequests(w.taken, both);
  }

  lemma {:induction false} TalliesBalance(ws: seq<Worker>, r: Request)
    requires forall w :: w in ws ==> InOrder(w)
    ensures Tally(ws, Taken, r) == Tally(ws, Gave, r) + Tally(ws, InHand, r)
    decreases |ws|
  {
    if ws != [] {
      TalliesBalance(ws[..|ws| - 1], r);
      LedgersBalance(ws[|ws| - 1], r);
    }
  }

  // ---------------------------------------------------------------- every step keeps it

  lemma TakeInOrder(w: Worker, w': Worker, r: Request)
    requires InOrder(w) && w'.taken == w.taken + [r] && w'.gave == w.gave && Held(w'.phase) == Held(w.phase) + [r]
    ensures InOrder(w')
  {
    forall op ensures OfOperation(w'.taken, op) == OfOperation(w'.gave, op) + OfOperation(Held(w'.phase), op) {
      OfOperationConcat(w.taken, [r], op);
      OfOperationConcat(Held(w.phase), [r], op);
    }
  }

  lemma AnswerInOrder(w: Worker, w': Worker, r: Request)
    requires InOrder(w) && w'.taken == w.taken && w'.gave == w.gave + [r] && Held(w.phase) == [r] + Held(w'.phase)
    ensures InOrder(w')
  {
    var rest := Held(w'.phase);
    forall op ensures OfOperation(w'.taken, op) == OfOperation(w'.gave, op) + OfOperation(rest, op) {
      OfOperationConcat(w.gave, [r], op);
      OfOperationConcat([r], rest, op);
      var g, x, y := OfOperation(w.gave, op), OfOperation([r], op), OfOperation(rest, op);
      assert OfOperation(w.taken, op) == g + (x + y);
      assert g + (x + y) == (g + x) + y;
    }
  }

  lemma BeginInOrder(w: Worker, w': Worker, order: seq<Operation>)
    requires InOrder(w) && w'.taken == w.taken && w'.gave == w.gave
    requires Covers(Held(w.phase), order) && Held(w'.phase) == Plan(Held(w.phase), order)
    ensures InOrder(w')
  {
    GroupingPartitions(Held(w.phase), order);
    forall op ensures OfOperation(w'.taken, op) == OfOperation(w'.gave, op) + OfOperation(Held(w'.phase), op) {
      assert OfOperation(Held(w'.phase), op) == OfOperation(Held(w.phase), op);
    }
  }

  lemma SameInOrder(w: Worker, w': Worker)
    requires InOrder(w) && w'.taken == w.taken && w'.gave == w.gave && Held(w'.phase) == Held(w.phase)
    ensures InOrder(w')
  {
  }

  /** Only taking touches the queue and `taken`, only answering touches the channels and `gave`. */
  lemma WorkerFrame(s: State, i: nat, step: WorkerStep)
    requires i < |s.workers| && NextWorker(s, i, step).Some?
    ensures var s' := NextWorker(s, i, step).value;
            && s'.accepted == s.accepted && s'.maxBatch == s.maxBatch
            && |s'.workers| == |s.workers| && s'.workers == s.workers[i := s'.workers[i]]
            && (if step.Take? then
                  s.queue != [] && s'.queue == s.queue[1..] && s'.workers[i].taken == s.workers[i].taken + [s.queue[0]]
                else s'.queue == s.queue && s'.workers[i].taken == s.workers[i].taken)
            && (if step.Answer? then
                  && s.workers[i].phase.Processing? && s.workers[i].phase.todo != []
                  && s'.workers[i].gave == s.workers[i].gave + [s.workers[i].phase.todo[0]]
                  && s'.boxes == Send(s, s.workers[i].phase.todo[0]).boxes
                  && s'.dropped == Send(s, s.workers[i].phase.todo[0]).dropped
                else s'.boxes == s.boxes && s'.dropped == s.dropped && s'.workers[i].gave == s.workers[i].gave)
  {
  }

  /** What a step does to what the worker holds. */
  lemma WorkerHolds(s: State, i: nat, step: WorkerStep)
    requires i < |s.workers| && Sized(s.workers[i].phase, s.maxBatch) && NextWorker(s, i, step).Some?
    ensures var s' := NextWorker(s, i, step).value;
            var before := Held(s.workers[i].phase);
            && |s'.workers| == |s.workers| && Sized(s'.workers[i].phase, s.maxBatch)
            && var after := Held(s'.workers[i].phase);
               match step
               case Take => s.queue != [] && after == before + [s.queue[0]]
               case Begin(order) => Covers(before, order) && after == Plan(before, order)
               case Answer => before != [] && after == before[1..]
               case _ => after == before
  {
  }

  lemma WorkerStepInOrder(s: State, i: nat, step: WorkerStep, s': State)
    requires i < |s.workers| && InOrder(s.workers[i]) && Sized(s.workers[i].phase, s.maxBatch)
    requires NextWorker(s, i, step) == Some(s') && |s'.workers| == |s.workers|
    ensures InOrder(s'.workers[i])
  {
    WorkerFrame(s, i, step);
    WorkerHolds(s, i, step);
    var w, w' := s.workers[i], s'.workers[i];
    match step
    case Take => TakeInOrder(w, w', s.queue[0]);
    case Begin(order) => BeginInOrder(w, w', order);
    case Answer => AnswerInOrder(w, w', Held(w.phase)[0]);
    case _ => SameInOrder(w, w');
  }

  lemma WorkerKeepsWorkers(s: State, i: nat, step: WorkerStep)
    requires i < |s.workers| && WorkersInv(s) && NextWorker(s, i, step).Some?
    ensures WorkersInv(NextWorker(s, i, step).value)
  {
    var s' := NextWorker(s, i, step).value;
    assert s.workers[i] in s.workers;
    WorkerFrame(s, i, step);
    WorkerHolds(s, i, step);
    WorkerStepInOrder(s, i, step, s');
    BusyUpdate(s.workers, i, s'.workers[i]);
  }

  lemma TallySame(ws: seq<Worker>, i: nat, w: Worker, l: Ledger, r: Request)
    requires i < |ws| && Entries(w, l) == Entries(ws[i], l)
    ensures Tally(ws[i := w], l, r) == Tally(ws, l, r)
  {
    TallyUpdate(ws, i, w, l, r);
  }

  lemma TallyMore(ws: seq<Worker>, i: nat, w: Worker, l: Ledger, q: Request, r: Request)
    requires i < |ws| && Entries(w, l) == Entries(ws[i], l) + [q]
    ensures Tally(ws[i := w], l, r) == Tally(ws, l, r) + if r == q then 1 else 0
  {
    TallyUpdate(ws, i, w, l, r);
    assert multiset(Entries(w, l))[r] == multiset(Entries(ws[i], l))[r] + multiset([q])[r];
  }

  lemma FirstLeaves(q: seq<Request>, r: Request)
    requires q != []
    ensures multiset(q)[r] == multiset(q[1..])[r] + if r == q[0] then 1 else 0
  {
    assert q == [q[0]] + q[1..];
  }

  lemma WorkerKeepsPlaces(s: State, i: nat, step: WorkerStep, s': State)
    requires i < |s.workers| && PlaceInv(s) && NextWorker(s, i, step) == Some(s')
    ensures PlaceInv(s')
  {
    WorkerFrame(s, i, step);
    forall r ensures Tally(s'.workers, Taken, r) + multiset(s'.queue)[r] == if Accepted(s', r) then 1 else 0 {
      assert Tally(s.workers, Taken, r) + multiset(s.queue)[r] == if Accepted(s, r) then 1 else 0;
      if step.Take? {
        TallyMore(s.workers, i, s'.workers[i], Taken, s.queue[0], r);
        FirstLeaves(s.queue, r);
      } else {
        TallySame(s.workers, i, s'.workers[i], Taken, r);
      }
    }
  }

  /** A request in a worker's hands has had no answer, so its channel has room. */
  lemma HeldMeansUnanswered(s: State, i: nat, r: Request)
    requires WorkersInv(s) && PlaceInv(s) && BoxInv(s)
    requires i < |s.workers| && r in Held(s.workers[i].phase)
    ensures Accepted(s, r) && Tally(s.workers, Gave, r) == 0 && s.boxes[r.box].reply.None?
  {
    TalliesBalance(s.workers, r);
    TallyAtLeast(s.workers, i, InHand, r);
    assert multiset(Entries(s.workers[i], InHand))[r] >= 1;
    assert Tally(s.workers, Taken, r) + multiset(s.queue)[r] == if Accepted(s, r) then 1 else 0;
  }

  lemma AnswerKeepsBoxes(s: State, i: nat, s': State, q: Request)
    requires Inv(s) && i < |s.workers| && q in Held(s.workers[i].phase)
    requires |s'.workers| == |s.workers| && s'.workers == s.workers[i := s'.workers[i]]
    requires s'.accepted == s.accepted && s'.boxes == Send(s, q).boxes && s'.dropped == Send(s, q).dropped
    requires s'.workers[i].gave == s.workers[i].gave + [q]
    ensures BoxInv(s')
  {
    HeldMeansUnanswered(s, i, q);
    forall r | Accepted(s', r)
      ensures Honest(s'.boxes[r.box], r) && Delivered(s'.boxes[r.box]) == Tally(s'.workers, Gave, r)
    {
      assert Accepted(s, r);
      TallyMore(s.workers, i, s'.workers[i], Gave, q, r);
    }
  }

  lemma WorkerKeepsBoxes(s: State, i: nat, step: WorkerStep, s': State)
    requires i < |s.workers| && Inv(s) && NextWorker(s, i, step) == Some(s')
    ensures BoxInv(s')
  {
    WorkerFrame(s, i, step);
    if step.Answer? {
      AnswerKeepsBoxes(s, i, s', s.workers[i].phase.todo[0]);
    } else {
      forall r | Accepted(s', r) ensures Tally(s'.workers, Gave, r) == Tally(s.workers, Gave, r) {
        TallySame(s.workers, i, s'.workers[i], Gave, r);
      }
      assert forall r :: Accepted(s', r) ==> Accepted(s, r);
    }
  }

  lemma WorkerKeepsInv(s: State, i: nat, step: WorkerStep)
    requires i < |s.workers| && Inv(s) && NextWorker(s, i, step).Some?
    ensures Inv(NextWorker(s, i, step).value)
  {
    WorkerKeepsWorkers(s, i, step);
    WorkerKeepsPlaces(s, i, step, NextWorker(s, i, step).value);
    WorkerKeepsBoxes(s, i, step, NextWorker(s, i, step).value);
  }

  lemma EnqueueKeepsInv(s: State, op: Operation, id: string)
    requires Inv(s)
    ensures Inv(Enqueue(s, op, id))
  {
    var s', new_ := Enqueue(s, op, id), Request(|s.accepted|, op, id);
    assert Tally(s.workers, Taken, new_) == 0;
    TalliesBalance(s.workers, new_);
    forall r ensures Tally(s'.workers, Taken, r) + multiset(s'.queue)[r] == if Accepted(s', r) then 1 else 0 {
      assert multiset(s'.queue)[r] == multiset(s.queue)[r] + multiset([new_])[r];
      assert Accepted(s', r) <==> Accepted(s, r) || r == new_;
    }
  }

  lemma NextKeepsInv(s: State, step: Step)
    requires Inv(s) && Next(s, step).Some?
    ensures Inv(Next(s, step).value)
  {
    match step
    case Submit(op, id) => EnqueueKeepsInv(s, op, id);
    case Handoff(i, op, id) =>
      EnqueueKeepsInv(s, op, id);
      WorkerKeepsInv(Enqueue(s, op, id), i, Take);
    case Work(i, does) => WorkerKeepsInv(s, i, does);
    case Receive(b) =>
    case Cancel(b) =>
    case Shutdown =>
    case CloseQueue =>
  }

  lemma {:induction false} RunKeepsInv(s: State, run: seq<Step>)
    requires Inv(s) && Exec(s, run).Some?
    ensures Inv(Exec(s, run).value)
    decreases |run|
  {
    if run != [] {
      RunKeepsInv(s, run[..|run| - 1]);
      NextKeepsInv(Exec(s, run[..|run| - 1]).value, run[|run| - 1]);
    }
  }

  lemma ReachableInv(s: State)
    requires Reachable(s)
    ensures Inv(s)
  {
    var maxBatch: nat, queueSize: nat, workers: nat, run :| Exec(Init(maxBatch, queueSize, workers), run) == Some(s);
    InitInv(maxBatch, queueSize, workers);
    RunKeepsInv(Init(maxBatch, queueSize, workers), run);
  }

  // ---------------------------------------------------------------- main results

  /** An accepted request is in exactly one place: the queue, the hands of one worker, or answered. */
  lemma ExactlyOnePlace(s: State, r: Request)
    requires Reachable(s) && r in s.accepted
    ensures multiset(s.queue)[r] + Tally(s.workers, InHand, r) + Tally(s.workers, Gave, r) == 1
    ensures forall i, j :: 0 <= i < j < |s.workers| ==> !(r in s.workers[i].taken && r in s.workers[j].taken)
  {
    ReachableInv(s);
    var k :| 0 <= k < |s.accepted| && s.accepted[k] == r;
    assert Accepted(s, r);
    TalliesBalance(s.workers, r);
    forall i, j | 0 <= i < j < |s.workers| ensures !(r in s.workers[i].taken && r in s.workers[j].taken) {
      TallyAtLeastTwo(s.workers, i, j, Taken, r);
      assert Entries(s.workers[i], Taken) == s.workers[i].taken && Entries(s.workers[j], Taken) == s.workers[j].taken;
    }
  }

  /** A worker that has returned has answered everything it took from the queue, each request once. */
  lemma ReturnedAnsweredAll(s: State, i: nat, r: Request)
    requires Reachable(s) && i < |s.workers| && s.workers[i].phase.Returned?
    ensures multiset(s.workers[i].gave) == multiset(s.workers[i].taken)
    ensures r in s.workers[i].taken ==> Tally(s.workers, Gave, r) == 1
  {
    ReachableInv(s);
    var w := s.workers[i];
    assert w in s.workers;
    forall q ensures multiset(w.gave)[q] == multiset(w.taken)[q] {
      LedgersBalance(w, q);
    }
    if r in w.taken {
      assert r in multiset(w.gave);
      TallyAtLeast(s.workers, i, Gave, r);
      TalliesBalance(s.workers, r);
      assert Entries(w, Gave) == w.gave;
      assert Tally(s.workers, Taken, r) + multiset(s.queue)[r] == if Accepted(s, r) then 1 else 0;
    }
  }

  /** Within an operation a worker answers in the order in which it took requests from the queue. */
  lemma AnswersInOrder(s: State, i: nat, op: Operation)
    requires Reachable(s) && i < |s.workers|
    ensures OfOperation(s.workers[i].gave, op) <= OfOperation(s.workers[i].taken, op)
  {
    ReachableInv(s);
    assert s.workers[i] in s.workers;
  }

  /** No processed batch is empty or larger than configured, and a worker never waits for a token. */
  lemma BatchesBounded(s: State, i: nat)
    requires Reachable(s) && i < |s.workers|
    requires s.workers[i].phase.Ready? || s.workers[i].phase.Processing?
    ensures 1 <= |s.workers[i].phase.batch| <= Max(1, s.maxBatch)
    ensures s.workers[i].phase.Ready? ==> s.tokens > 0
  {
    ReachableInv(s);
    assert s.workers[i] in s.workers;
    BusyUpdate(s.workers, i, s.workers[i]);
  }

  /**
   No result is thrown away; a request is answered exactly when its result is in its
   channel or received; and that result carries the request's own id.
   */
  lemma CallersGetTheirResult(s: State, r: Request)
    requires Reachable(s) && Accepted(s, r)
    ensures s.dropped == 0 && r.box < |s.boxes|
    ensures var b := s.boxes[r.box];
            && (b.caller.Got? ==> b.caller.result.id == r.id && b.caller.result.data == "Processed " + r.id)
            && (b.reply.Some? ==> b.reply.value.id == r.id && b.reply.value.data == "Processed " + r.id)
            && (Tally(s.workers, Gave, r) == 1 <==> b.caller.Got? || b.reply.Some?)
            && !(b.caller.Got? && b.reply.Some?)
  {
    ReachableInv(s);
    TalliesBalance(s.workers, r);
    assert Tally(s.workers, Taken, r) + multiset(s.queue)[r] == 1;
  }

  /** Callers with different ids never get the same result. */
  lemma ResultsTellApart(s: State, r: Request, q: Request)
    requires Reachable(s) && Accepted(s, r) && Accepted(s, q) && r.id != q.id
    requires r.box < |s.boxes| && q.box < |s.boxes| && s.boxes[r.box].caller.Got? && s.boxes[q.box].caller.Got?
    ensures s.boxes[r.box].caller.result != s.boxes[q.box].caller.result
  {
    CallersGetTheirResult(s, r);
    CallersGetTheirResult(s, q);
  }

  // ---------------------------------------------------------------- order and batches

  /** A worker took requests in the order of acceptance, all before `head`. */
  ghost predicate InTurn(w: Worker, head: int) {
    && (forall i :: 0 <= i < |w.taken| ==> w.taken[i].box < head)
    && forall i, j :: 0 <= i < j < |w.taken| ==> w.taken[i].box < w.taken[j].box
  }

  /** The queue is the tail of the accepted requests. */
  ghost predicate QueueIsTail(s: State) {
    && |s.queue| <= |s.accepted| && s.queue == s.accepted[|s.accepted| - |s.queue|..]
    && forall k :: 0 <= k < |s.accepted| ==> s.accepted[k].box == k
  }

  ghost predicate WorkersInTurn(ws: seq<Worker>, head: int) {
    forall j :: 0 <= j < |ws| ==> InTurn(ws[j], head)
  }

  ghost predicate FifoInv(s: State) {
    QueueIsTail(s) && WorkersInTurn(s.workers, |s.accepted| - |s.queue|)
  }

  lemma EnqueueKeepsFifo(s: State, op: Operation, id: string)
    requires FifoInv(s)
    ensures FifoInv(Enqueue(s, op, id))
  {
    var t, n := Enqueue(s, op, id), |s.accepted| - |s.queue|;
    assert t.accepted[n..] == s.accepted[n..] + [t.accepted[|s.accepted|]];
  }

  lemma TakeInTurn(ws: seq<Worker>, i: nat, w: Worker, r: Request)
    requires i < |ws| && WorkersInTurn(ws, r.box) && w.taken == ws[i].taken + [r]
    ensures WorkersInTurn(ws[i := w], r.box + 1)
  {
    var after := ws[i := w];
    assert InTurn(ws[i], r.box);
    forall j | 0 <= j < |after| ensures InTurn(after[j], r.box + 1) {
      assert j != i ==> InTurn(ws[j], r.box);
    }
  }

  lemma KeepInTurn(ws: seq<Worker>, i: nat, w: Worker, head: int)
    requires i < |ws| && WorkersInTurn(ws, head) && w.taken == ws[i].taken
    ensures WorkersInTurn(ws[i := w], head)
  {
    assert InTurn(ws[i], head);
  }

  lemma WorkerKeepsFifo(s: State, i: nat, step: WorkerStep)
    requires i < |s.workers| && FifoInv(s) && NextWorker(s, i, step).Some?
    ensures FifoInv(NextWorker(s, i, step).value)
  {
    WorkerFrame(s, i, step);
    var t, head := NextWorker(s, i, step).value, |s.accepted| - |s.queue|;
    if step.Take? {
      assert s.queue[0] == s.accepted[head] && t.queue == t.accepted[head + 1..];
      TakeInTurn(s.workers, i, t.workers[i], s.queue[0]);
    } else {
      KeepInTurn(s.workers, i, t.workers[i], head);
    }
  }

  lemma StepKeepsFifo(s: State, step: Step)
    requires FifoInv(s) && Next(s, step).Some?
    ensures FifoInv(Next(s, step).value)
  {
    match step
    case Submit(op, id) => EnqueueKeepsFifo(s, op, id);
    case Handoff(i, op, id) =>
      EnqueueKeepsFifo(s, op, id);
      WorkerKeepsFifo(Enqueue(s, op, id), i, Take);
    case Work(i, does) => WorkerKeepsFifo(s, i, does);
    case Receive(_) =>
    case Cancel(_) =>
    case Shutdown =>
    case CloseQueue =>
  }

  lemma {:induction false} RunKeepsFifo(s: State, run: seq<Step>)
    requires FifoInv(s) && Exec(s, run).Some?
    ensures FifoInv(Exec(s, run).value)
    decreases |run|
  {
    if run != [] {
      RunKeepsFifo(s, run[..|run| - 1]);
      StepKeepsFifo(Exec(s, run[..|run| - 1]).value, run[|run| - 1]);
    }
  }

  /** First come, first served: the queue is the tail of the accepted requests, and every worker takes them in that order. */
  lemma QueueIsFifo(s: State)
    requires Reachable(s)
    ensures |s.queue| <= |s.accepted| && s.queue == s.accepted[|s.accepted| - |s.queue|..]
    ensures forall w, i, j :: w in s.workers && 0 <= i < j < |w.taken| ==> w.taken[i].box < w.taken[j].box
  {
    var maxBatch: nat, queueSize: nat, workers: nat, run :| Exec(Init(maxBatch, queueSize, workers), run) == Some(s);
    RunKeepsFifo(Init(maxBatch, queueSize, workers), run);
    forall w, i, j | w in s.workers && 0 <= i < j < |w.taken| ensures w.taken[i].box < w.taken[j].box {
      var k :| 0 <= k < |s.workers| && s.workers[k] == w;
      assert InTurn(s.workers[k], |s.accepted| - |s.queue|);
    }
  }

  lemma WorkerKeepsQueueBound(s: State, i: nat, step: WorkerStep)
    requires i < |s.workers| && NextWorker(s, i, step).Some?
    ensures NextWorker(s, i, step).value.queueSize == s.queueSize
    ensures |NextWorker(s, i, step).value.queue| == |s.queue| - if step.Take? then 1 else 0
  {
  }

  /** The queue never holds more requests than it was made for. */
  lemma {:induction false} QueueBounded(s: State, run: seq<Step>)
    requires |s.queue| <= s.queueSize && Exec(s, run).Some?
    ensures Exec(s, run).value.queueSize == s.queueSize && |Exec(s, run).value.queue| <= s.queueSize
    decreases |run|
  {
    if run != [] {
      QueueBounded(s, run[..|run| - 1]);
      var t, step := Exec(s, run[..|run| - 1]).value, run[|run| - 1];
      if step.Work? {
        WorkerKeepsQueueBound(t, step.i, step.does);
      } else if step.Handoff? {
        WorkerKeepsQueueBound(Enqueue(t, step.operation, step.id), step.receiver, Take);
      }
    }
  }

  /** A batch is closed exactly when it has become full, when the timer finds it non-empty, or on shutdown. */
  lemma BatchClosesIff(s: State, i: nat, step: WorkerStep, t: State)
    requires i < |s.workers| && s.workers[i].phase.Collecting? && NextWorker(s, i, step) == Some(t)
    ensures i < |t.workers|
    ensures t.workers[i].phase.Ready? <==>
              match step
              case Take => |s.workers[i].phase.batch| + 1 >= s.maxBatch
              case Timer => s.workers[i].phase.batch != []
              case Stop => s.shutdown && s.workers[i].phase.batch != []
              case _ => false
    ensures t.workers[i].phase.Returned? <==> step.Stop? && s.workers[i].phase.batch == []
  {
  }

  /** Once the workers have returned, everything accepted was answered if and only if the queue is empty. */
  lemma AllAnsweredIff(s: State)
    requires Reachable(s) && AllReturned(s)
    ensures (forall r :: Accepted(s, r) ==> Tally(s.workers, Gave, r) == 1) <==> s.queue == []
  {
    ReachableInv(s);
    forall r ensures Tally(s.workers, Gave, r) == Tally(s.workers, Taken, r) {
      TalliesBalance(s.workers, r);
      NothingInHand(s.workers, r);
    }
    if s.queue != [] {
      var r := s.queue[0];
      assert multiset(s.queue)[r] >= 1;
      assert Tally(s.workers, Taken, r) + multiset(s.queue)[r] == if Accepted(s, r) then 1 else 0;
    }
  }

  lemma {:induction false} NothingInHand(ws: seq<Worker>, r: Request)
    requires forall w :: w in ws ==> w.phase.Returned?
    ensures Tally(ws, InHand, r) == 0
    decreases |ws|
  {
    if ws != [] {
      NothingInHand(ws[..|ws| - 1], r);
      assert ws[|ws| - 1] in ws;
    }
  }

  /** What is left in the queue when the workers have returned is never answered, whatever happens afterwards. */
  lemma {:induction false} StrandedForever(s: State, run: seq<Step>, r: Request)
    requires Reachable(s) && AllReturned(s) && Exec(s, run).Some?
    ensures var t := Exec(s, run).value;
            && t.workers == s.workers && s.queue <= t.queue && s.accepted <= t.accepted
            && (r in s.queue ==> Accepted(s, r) && Tally(t.workers, Gave, r) == 0)
    decreases |run|
  {
    if run != [] {
      StrandedForever(s, run[..|run| - 1], r);
      ReturnedWorkersDoNothing(Exec(s, run[..|run| - 1]).value, run[|run| - 1]);
    } else if r in s.queue {
      ReachableInv(s);
      TalliesBalance(s.workers, r);
      assert multiset(s.queue)[r] >= 1;
      assert Tally(s.workers, Taken, r) + multiset(s.queue)[r] == if Accepted(s, r) then 1 else 0;
    }
  }

  lemma ReturnedWorkersDoNothing(s: State, step: Step)
    requires AllReturned(s) && Next(s, step).Some?
    ensures var t := Next(s, step).value; t.workers == s.workers && s.queue <= t.queue && s.accepted <= t.accepted
  {
    assert forall i :: 0 <= i < |s.workers| ==> s.workers[i] in s.workers;
  }

  /** Such a leftover exists: Close can find a request in the queue and return without answering it. */
  lemma StrandedReachable() returns (s: State)
    ensures Reachable(s) && s.closed && AllReturned(s) && s.queue != []
  {
    var r := Request(0, Operation("list"), "list-1");
    s := ShutdownReachable(r);
    var idle, done := Worker(Collecting([]), [], []), Worker(Returned, [], []);
    assert s.workers[0] == idle;
    var t := Put(s, 0, done);
    assert t.workers == [done];
    Reach(s, Work(0, Stop), t);
    s := t.(closed := true);
    Reach(t, CloseQueue, s);
  }

  /** A request is in the queue, the worker idle, and Close has begun. */
  lemma ShutdownReachable(r: Request) returns (s: State)
    requires r.box == 0
    ensures Reachable(s)
    ensures s == State(50, 1000, [r], [Worker(Collecting([]), [], [])], 1, true, false, [r], [Box(None, Waiting)], 0)
  {
    var s0 := Init(50, 1000, 1);
    assert s0.workers == [Worker(Collecting([]), [], [])];
    assert Exec(s0, []) == Some(s0);
    var s1 := Enqueue(s0, r.operation, r.id);
    Reach(s0, Submit(r.operation, r.id), s1);
    s := s1.(shutdown := true);
    Reach(s1, Shutdown, s);
  }

  lemma Reach(s: State, step: Step, t: State)
    requires Reachable(s) && Next(s, step) == Some(t)
    ensures Reachable(t)
  {
    var maxBatch: nat, queueSize: nat, workers: nat, run :| Exec(Init(maxBatch, queueSize, workers), run) == Some(s);
    assert (run + [step])[..|run|] == run;
    assert Exec(Init(maxBatch, queueSize, workers), run + [step]) == Some(t);
  }

  /** An order of operations in which the map may be iterated. */
  function FirstSeen(batch: seq<Request>): (order: seq<Operation>)
    ensures Covers(batch, order)
  {
    if batch == [] then []
    else
      var init, last := batch[..|batch| - 1], batch[|batch| - 1];
      OperationsSnoc(init, last);
      assert batch == init + [last];
      var order := FirstSeen(init);
      if last.operation in order then order else order + [last.operation]
  }

  /** After shutdown every worker that has not returned has a step that brings it closer to returning. */
  lemma WorkerCanProceed(s: State, i: nat) returns (step: WorkerStep)
    requires Reachable(s) && i < |s.workers| && s.shutdown && !s.workers[i].phase.Returned?
    ensures NextWorker(s, i, step).Some? && Moves(s, Work(i, step))
  {
    var p := s.workers[i].phase;
    match p
    case Collecting(_) =>
      step := Stop;
    case Ready(batch, _) =>
      BatchesBounded(s, i);
      step := Begin(FirstSeen(batch));
    case Processing(_, todo, _) =>
      step := if todo == [] then Finish else Answer;
    case Returned =>
  }

  // ---------------------------------------------------------------- how long a worker can go on

  /** The steps a worker can still make before it returns, if it takes nothing more. */
  function StepsLeft(p: Phase): nat {
    match p
    case Collecting(batch) => if batch == [] then 1 else |batch| + 4
    case Ready(batch, _) => |batch| + 3
    case Processing(_, todo, _) => |todo| + 2
    case Returned => 0
  }

  function AllStepsLeft(ws: seq<Worker>): nat {
    if ws == [] then 0 else AllStepsLeft(ws[..|ws| - 1]) + StepsLeft(ws[|ws| - 1].phase)
  }

  lemma {:induction false} StepsLeftUpdate(ws: seq<Worker>, i: nat, w: Worker)
    requires i < |ws|
    ensures AllStepsLeft(ws[i := w]) + StepsLeft(ws[i].phase) == AllStepsLeft(ws) + StepsLeft(w.phase)
    decreases |ws|
  {
    var n := |ws| - 1;
    if i == n {
      assert ws[i := w][..n] == ws[..n];
    } else {
      assert ws[i := w][..n] == ws[..n][i := w];
      StepsLeftUpdate(ws[..n], i, w);
    }
  }

  predicate TakesOne(step: Step) {
    step.Handoff? || (step.Work? && step.does.Take?)
  }

  /** A worker's timer goes off on an empty batch. */
  predicate Idles(s: State, step: Step) {
    step.Work? && step.does.Timer? && step.i < |s.workers| && s.workers[step.i].phase == Collecting([])
  }

  /** A worker step other than taking a request and idling. */
  predicate Moves(s: State, step: Step) {
    step.Work? && !step.does.Take? && !Idles(s, step)
  }

  lemma WorkerStepsLeft(s: State, i: nat, step: WorkerStep, s': State)
    requires i < |s.workers| && NextWorker(s, i, step) == Some(s') && |s'.workers| == |s.workers|
    ensures var before, after := StepsLeft(s.workers[i].phase), StepsLeft(s'.workers[i].phase);
            if step.Take? then after <= before + 4
            else if Idles(s, Work(i, step)) then after == before
            else after < before
  {
    if step.Begin? {
      GroupingPartitions(s.workers[i].phase.batch, step.order);
      SizeOfSameMultiset(Plan(s.workers[i].phase.batch, step.order), s.workers[i].phase.batch);
    }
  }

  lemma StepStepsLeft(s: State, step: Step)
    requires Next(s, step).Some?
    ensures AllStepsLeft(Next(s, step).value.workers) + (if Moves(s, step) then 1 else 0)
         <= AllStepsLeft(s.workers) + if TakesOne(step) then 4 else 0
  {
    var s' := Next(s, step).value;
    if step.Work? {
      WorkerFrame(s, step.i, step.does);
      WorkerStepsLeft(s, step.i, step.does, s');
      StepsLeftUpdate(s.workers, step.i, s'.workers[step.i]);
    } else if step.Handoff? {
      var t := Enqueue(s, step.operation, step.id);
      WorkerFrame(t, step.receiver, Take);
      WorkerStepsLeft(t, step.receiver, Take, s');
      StepsLeftUpdate(t.workers, step.receiver, s'.workers[step.receiver]);
    }
  }

  function CountTakes(run: seq<Step>): nat {
    if run == [] then 0 else CountTakes(run[..|run| - 1]) + if TakesOne(run[|run| - 1]) then 1 else 0
  }

  ghost function CountMoves(s: State, run: seq<Step>): nat
    decreases |run|
  {
    if run == [] then 0
    else
      var t := Exec(s, run[..|run| - 1]);
      CountMoves(s, run[..|run| - 1]) + if t.Some? && Moves(t.value, run[|run| - 1]) then 1 else 0
  }

  /** In every run the workers make at most as many steps as they had left, and four more for each request they take. */
  lemma {:induction false} WorkIsBounded(s: State, run: seq<Step>)
    requires Exec(s, run).Some?
    ensures CountMoves(s, run) + AllStepsLeft(Exec(s, run).value.workers) <= AllStepsLeft(s.workers) + 4 * CountTakes(run)
    decreases |run|
  {
    if run != [] {
      WorkIsBounded(s, run[..|run| - 1]);
      StepStepsLeft(Exec(s, run[..|run| - 1]).value, run[|run| - 1]);
    }
  }

  lemma WorkerKeepsFlags(s: State, i: nat, step: WorkerStep)
    requires i < |s.workers| && NextWorker(s, i, step).Some?
    ensures NextWorker(s, i, step).value.shutdown == s.shutdown && NextWorker(s, i, step).value.closed == s.closed
    ensures !step.Take? ==> NextWorker(s, i, step).value.queue == s.queue
  {
  }

  lemma {:induction false} ExecFirst(s: State, step: Step, run: seq<Step>)
    requires Next(s, step).Some?
    ensures Exec(s, [step] + run) == Exec(Next(s, step).value, run)
    decreases |run|
  {
    var all := [step] + run;
    if run == [] {
      assert all[..0] == [];
    } else {
      assert all[..|all| - 1] == [step] + run[..|run| - 1];
      ExecFirst(s, step, run[..|run| - 1]);
    }
  }

  /** From every state after shutdown the workers alone, taking nothing more, can bring Close to its end. */
  lemma {:induction false} CloseCanReturn(s: State) returns (run: seq<Step>)
    requires Reachable(s) && s.shutdown && !s.closed
    ensures Exec(s, run).Some? && Exec(s, run).value.closed && Exec(s, run).value.queue == s.queue
    ensures Reachable(Exec(s, run).value)
    ensures forall i :: 0 <= i < |run| ==> run[i].Work? || run[i].CloseQueue?
    decreases AllStepsLeft(s.workers)
  {
    if AllReturned(s) {
      run := [CloseQueue];
      assert run[..0] == [];
      Reach(s, CloseQueue, s.(closed := true));
    } else {
      var w :| w in s.workers && !w.phase.Returned?;
      var i: nat :| i < |s.workers| && s.workers[i] == w;
      var does := WorkerCanProceed(s, i);
      var step := Work(i, does);
      var t := Next(s, step).value;
      StepStepsLeft(s, step);
      WorkerKeepsFlags(s, i, does);
      Reach(s, step, t);
      var rest := CloseCanReturn(t);
      run := [step] + rest;
      ExecFirst(s, step, rest);
    }
  }

  // ---------------------------------------------------------------- who is left behind

  /** Close returns after the workers. */
  ghost predicate ClosedInv(s: State) {
    s.closed ==> AllReturned(s)
  }

  lemma StepKeepsClosedInv(s: State, step: Step)
    requires ClosedInv(s) && Next(s, step).Some?
    ensures ClosedInv(Next(s, step).value)
  {
    if s.closed {
      ReturnedWorkersDoNothing(s, step);
    } else if step.Work? {
      WorkerKeepsFlags(s, step.i, step.does);
    } else if step.Handoff? {
      WorkerKeepsFlags(Enqueue(s, step.operation, step.id), step.receiver, Take);
    }
  }

  lemma {:induction false} RunKeepsClosedInv(s: State, run: seq<Step>)
    requires ClosedInv(s) && Exec(s, run).Some?
    ensures ClosedInv(Exec(s, run).value)
    decreases |run|
  {
    if run != [] {
      RunKeepsClosedInv(s, run[..|run| - 1]);
      StepKeepsClosedInv(Exec(s, run[..|run| - 1]).value, run[|run| - 1]);
    }
  }

  /** The request is accepted and has left the queue. */
  predicate LeftQueue(s: State, r: Request) {
    Accepted(s, r) && r !in s.queue
  }

  lemma WorkerKeepsLeftQueue(s: State, i: nat, step: WorkerStep, r: Request)
    requires i < |s.workers| && NextWorker(s, i, step).Some? && LeftQueue(s, r)
    ensures LeftQueue(NextWorker(s, i, step).value, r)
  {
    WorkerFrame(s, i, step);
  }

  lemma StepKeepsLeftQueue(s: State, step: Step, r: Request)
    requires Next(s, step).Some? && LeftQueue(s, r)
    ensures LeftQueue(Next(s, step).value, r)
  {
    if step.Work? {
      WorkerKeepsLeftQueue(s, step.i, step.does, r);
    } else if step.Handoff? {
      var t := Enqueue(s, step.operation, step.id);
      WorkerKeepsLeftQueue(t, step.receiver, Take, r);
    }
  }

  lemma {:induction false} RunKeepsLeftQueue(s: State, run: seq<Step>, r: Request)
    requires Exec(s, run).Some? && LeftQueue(s, r)
    ensures LeftQueue(Exec(s, run).value, r)
    decreases |run|
  {
    if run != [] {
      RunKeepsLeftQueue(s, run[..|run| - 1], r);
      StepKeepsLeftQueue(Exec(s, run[..|run| - 1]).value, run[|run| - 1], r);
    }
  }

  /** A request that a worker took is answered by the time Close returns. */
  lemma TakenIsAnswered(t: State, r: Request)
    requires Inv(t) && AllReturned(t) && LeftQueue(t, r)
    ensures Tally(t.workers, Gave, r) == 1
  {
    TalliesBalance(t.workers, r);
    NothingInHand(t.workers, r);
    assert Tally(t.workers, Taken, r) + multiset(t.queue)[r] == 1;
  }

  /** A request in the queue is not answered. */
  lemma QueuedIsUnanswered(t: State, r: Request)
    requires Inv(t) && r in t.queue
    ensures Tally(t.workers, Gave, r) == 0
  {
    TalliesBalance(t.workers, r);
    assert multiset(t.queue)[r] >= 1;
    assert Tally(t.workers, Taken, r) + multiset(t.queue)[r] == if Accepted(t, r) then 1 else 0;
  }

  /** The run brings Close to its end with the request unanswered. */
  ghost predicate Strands(s: State, run: seq<Step>, r: Request) {
    Exec(s, run).Some? && Exec(s, run).value.closed && Tally(Exec(s, run).value.workers, Gave, r) == 0
  }

  /** Once shutdown is signalled, Close can return without answering a request if and only if it is still in the queue. */
  lemma StrandedIff(s: State, r: Request)
    requires Reachable(s) && s.shutdown && !s.closed && Accepted(s, r)
    ensures (exists run :: Strands(s, run, r)) <==> r in s.queue
  {
    ReachableInv(s);
    if r in s.queue {
      var run := CloseCanReturn(s);
      var t := Exec(s, run).value;
      ReachableInv(t);
      QueuedIsUnanswered(t, r);
      assert Strands(s, run, r);
    } else {
      forall run | Exec(s, run).Some? && Exec(s, run).value.closed ensures !Strands(s, run, r) {
        RunKeepsInv(s, run);
        RunKeepsClosedInv(s, run);
        RunKeepsLeftQueue(s, run, r);
        TakenIsAnswered(Exec(s, run).value, r);
      }
    }
  }
}
