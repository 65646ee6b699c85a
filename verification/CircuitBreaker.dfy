/**
 The circuit breaker of pkg/clients/rest_api_client.go.  Its counters are folds over
 the history of outcomes, and its mode is explained by that history: why it is
 open, since when it is half-open, and what had to happen before it closed again.

 The methods are atomic here, except in the last section, where the moment in
 getState without a lock (lines 832-833) is split into two steps.
 */
module CircuitBreaker {
  import opened Common

  datatype Mode = Closed | Open | HalfOpen

  datatype Params = Params(maxFailures: int, retryTimeout: int, successThreshold: int)

  datatype Breaker = Breaker(mode: Mode, failures: nat, successes: nat, nextRetry: Time)

  function OnSuccess(p: Params, b: Breaker): Breaker {
    var n := b.successes + 1;
    if b.mode.HalfOpen? && n >= p.successThreshold then b.(mode := Closed, failures := 0, successes := 0)
    else b.(failures := 0, successes := n)
  }

  function OnFailure(p: Params, b: Breaker, now: Time): Breaker {
    var n := b.failures + 1;
    if n >= p.maxFailures then Breaker(Open, n, 0, now + p.retryTimeout)
    else b.(failures := n, successes := 0)
  }

  predicate RetryDue(b: Breaker, now: Time) {
    b.mode.Open? && now > b.nextRetry
  }

  function ToHalfOpen(b: Breaker): Breaker {
    b.(mode := HalfOpen, successes := 0)
  }

  /** getState as one step. */
  function OnPoll(b: Breaker, now: Time): Breaker {
    if RetryDue(b, now) then ToHalfOpen(b) else b
  }

  function Permits(b: Breaker, now: Time): bool {
    b.mode.Open? ==> now > b.nextRetry
  }

  class CircuitBreaker {
    var state: Mode
    var failures: nat
    var consecutiveSuccesses: nat
    var lastFailureTime: Option<Time>
    var nextRetryTime: Time
    const params: Params

    function View(): Breaker
      reads this
    {
      Breaker(state, failures, consecutiveSuccesses, nextRetryTime)
    }

    constructor (params: Params)
      ensures this.params == params && View() == Initial
    {
      this.params := params;
      state, failures, consecutiveSuccesses, lastFailureTime, nextRetryTime := Closed, 0, 0, None, 0;
    }

    method CanAttempt(now: Time) returns (ok: bool)
      ensures ok == Permits(View(), now)
    {
      match state
      case Closed => ok := true;
      case Open => ok := now > nextRetryTime;
      case HalfOpen => ok := true;
    }

    method RecordSuccess()
      modifies this`state, this`failures, this`consecutiveSuccesses
      ensures View() == OnSuccess(params, old(View()))
    {
      failures := 0;
      consecutiveSuccesses := consecutiveSuccesses + 1;
      if state == HalfOpen && consecutiveSuccesses >= params.successThreshold {
        state := Closed;
        consecutiveSuccesses := 0;
      }
    }

    method RecordFailure(now: Time)
      modifies this
      ensures View() == OnFailure(params, old(View()), now) && lastFailureTime == Some(now)
    {
      failures := failures + 1;
      consecutiveSuccesses := 0;
      lastFailureTime := Some(now);
      if failures >= params.maxFailures {
        state := Open;
        nextRetryTime := now + params.retryTimeout;
      }
    }

    method GetState(now: Time) returns (m: Mode)
      modifies this`state, this`consecutiveSuccesses
      ensures View() == OnPoll(old(View()), now) && m == state
    {
      if state == Open && now > nextRetryTime {
        state := HalfOpen;
        consecutiveSuccesses := 0;
      }
      m := state;
    }
  }

  // ---------------------------------------------------------------- histories

  datatype Event = Succeeded(at: Time) | Failed(at: Time) | Polled(at: Time)

  const Initial := Breaker(Closed, 0, 0, 0)

  function Apply(p: Params, b: Breaker, e: Event): Breaker {
    match e
    case Succeeded(_) => OnSuccess(p, b)
    case Failed(at) => OnFailure(p, b, at)
    case Polled(at) => OnPoll(b, at)
  }

  function Run(p: Params, es: seq<Event>): Breaker {
    if es == [] then Initial else Apply(p, Run(p, es[..|es| - 1]), es[|es| - 1])
  }

  /** The outcomes, without the polls. */
  function Outcomes(es: seq<Event>): seq<bool> {
    if es == [] then []
    else
      match es[|es| - 1]
      case Succeeded(_) => Outcomes(es[..|es| - 1]) + [true]
      case Failed(_) => Outcomes(es[..|es| - 1]) + [false]
      case Polled(_) => Outcomes(es[..|es| - 1])
  }

  /** How many outcomes at the end of the history are all `o`. */
  function Trailing(os: seq<bool>, o: bool): nat {
    if os == [] || os[|os| - 1] != o then 0 else 1 + Trailing(os[..|os| - 1], o)
  }

  lemma {:induction false} TrailingMeansAll(os: seq<bool>, o: bool, n: nat)
    ensures n <= Trailing(os, o) <==> n <= |os| && forall i :: |os| - n <= i < |os| ==> os[i] == o
    decreases |os|
  {
    if n > 0 && os != [] {
      var before := os[..|os| - 1];
      TrailingMeansAll(before, o, n - 1);
      assert n <= |os| && (forall i :: |os| - n <= i < |os| ==> os[i] == o) ==> os[|os| - 1] == o;
      assert forall i :: 0 <= i < |before| ==> before[i] == os[i];
    }
  }

  function FailuresUpTo(es: seq<Event>, i: nat): nat
    requires i < |es|
  {
    Trailing(Outcomes(es[..i + 1]), false)
  }

  /** The event at `i` is a failure that completes a row of maxFailures failures. */
  predicate Opening(p: Params, es: seq<Event>, i: nat) {
    i < |es| && es[i].Failed? && FailuresUpTo(es, i) >= p.maxFailures
  }

  predicate LastOpening(p: Params, es: seq<Event>, o: nat) {
    Opening(p, es, o) && forall j :: o < j < |es| ==> !Opening(p, es, j)
  }

  /** Half-open since the poll at `h`, which came more than retryTimeout after the last opening failure, at `o`. */
  predicate HalfOpenSince(p: Params, es: seq<Event>, o: nat, h: nat) {
    && LastOpening(p, es, o) && o < h < |es|
    && es[h].Polled? && es[h].at > es[o].at + p.retryTimeout
  }

  function SuccessesSince(es: seq<Event>, h: nat): nat
    requires h < |es|
  {
    Trailing(Outcomes(es[h + 1..]), true)
  }

  /** Why the breaker is in its mode: the last opening failure at `o`, the poll that made it half-open at `h`. */
  ghost predicate Explained(p: Params, es: seq<Event>, b: Breaker, o: nat, h: nat) {
    && (b.mode.Open? ==> LastOpening(p, es, o) && b.nextRetry == es[o].at + p.retryTimeout)
    && (b.mode.HalfOpen? ==> HalfOpenSince(p, es, o, h) && b.successes == SuccessesSince(es, h))
  }

  lemma Snoc(p: Params, es: seq<Event>, e: Event)
    ensures Run(p, es + [e]) == Apply(p, Run(p, es), e)
    ensures Outcomes(es + [e]) == Outcomes(es) + if e.Polled? then [] else [e.Succeeded?]
  {
    assert (es + [e])[..|es|] == es;
  }

  lemma OpeningSnoc(p: Params, es: seq<Event>, e: Event)
    ensures forall j: nat :: j < |es| ==> (Opening(p, es + [e], j) <==> Opening(p, es, j))
    ensures Opening(p, es + [e], |es|) <==> e.Failed? && Trailing(Outcomes(es + [e]), false) >= p.maxFailures
  {
    forall j: nat | j < |es| ensures Opening(p, es + [e], j) <==> Opening(p, es, j) {
      assert (es + [e])[..j + 1] == es[..j + 1];
    }
    assert (es + [e])[..|es| + 1] == es + [e];
  }

  lemma SuccessesSnoc(p: Params, es: seq<Event>, e: Event, h: nat)
    requires h < |es|
    ensures SuccessesSince(es + [e], h) ==
              if e.Succeeded? then SuccessesSince(es, h) + 1 else if e.Failed? then 0 else SuccessesSince(es, h)
  {
    var tail := es[h + 1..];
    assert (es + [e])[h + 1..] == tail + [e];
    Snoc(p, tail, e);
    if !e.Polled? {
      assert (Outcomes(tail) + [e.Succeeded?])[..|Outcomes(tail)|] == Outcomes(tail);
    }
  }

  lemma TrailingSnoc(os: seq<bool>, o: bool, x: bool)
    ensures Trailing(os + [x], o) == if x == o then Trailing(os, o) + 1 else 0
  {
    assert (os + [x])[..|os|] == os;
  }

  /** A half-open breaker stays explained by the same poll until it closes or opens. */
  lemma HalfOpenSnoc(p: Params, es: seq<Event>, e: Event, o: nat, h: nat)
    requires HalfOpenSince(p, es, o, h) && !Opening(p, es + [e], |es|)
    ensures HalfOpenSince(p, es + [e], o, h)
  {
    OpeningSnoc(p, es, e);
  }

  lemma FailuresStep(p: Params, es: seq<Event>, e: Event)
    requires Run(p, es).failures == Trailing(Outcomes(es), false)
    ensures Run(p, es + [e]).failures == Trailing(Outcomes(es + [e]), false)
  {
    Snoc(p, es, e);
    if !e.Polled? {
      TrailingSnoc(Outcomes(es), false, e.Succeeded?);
    } else {
      assert Outcomes(es) + [] == Outcomes(es);
    }
  }

  lemma OpenSnoc(p: Params, es: seq<Event>, e: Event, o: nat)
    requires LastOpening(p, es, o) && !Opening(p, es + [e], |es|)
    ensures LastOpening(p, es + [e], o)
  {
    OpeningSnoc(p, es, e);
  }

  /** A failure that opens the breaker explains it afresh. */
  lemma OpeningExplains(p: Params, es: seq<Event>, e: Event, b: Breaker)
    requires Opening(p, es + [e], |es|) && b.failures == Trailing(Outcomes(es), false)
    requires Apply(p, b, e).failures == Trailing(Outcomes(es + [e]), false)
    ensures Explained(p, es + [e], Apply(p, b, e), |es|, 0)
  {
    OpeningSnoc(p, es, e);
  }

  /** An open breaker stays explained by its opening failure, also when a poll makes it half-open. */
  lemma OpenStaysExplained(p: Params, es: seq<Event>, e: Event, b: Breaker, o: nat)
    requires b.mode.Open? && LastOpening(p, es, o) && b.nextRetry == es[o].at + p.retryTimeout
    requires LastOpening(p, es + [e], o) && (e.Failed? ==> Apply(p, b, e).failures < p.maxFailures)
    ensures Explained(p, es + [e], Apply(p, b, e), o, |es|)
  {
    assert (es + [e])[|es| + 1..] == [];
    assert (es + [e])[o] == es[o];
  }

  lemma HalfOpenStaysExplained(p: Params, es: seq<Event>, e: Event, b: Breaker, o: nat, h: nat)
    requires b.mode.HalfOpen? && HalfOpenSince(p, es, o, h) && b.successes == SuccessesSince(es, h)
    requires HalfOpenSince(p, es + [e], o, h) && (e.Failed? ==> Apply(p, b, e).failures < p.maxFailures)
    ensures Explained(p, es + [e], Apply(p, b, e), o, h)
  {
    SuccessesSnoc(p, es, e, h);
  }

  lemma ExplainedStep(p: Params, es: seq<Event>, e: Event, b: Breaker, o: nat, h: nat) returns (o': nat, h': nat)
    requires Explained(p, es, b, o, h) && b.failures == Trailing(Outcomes(es), false)
    requires Apply(p, b, e).failures == Trailing(Outcomes(es + [e]), false)
    ensures Explained(p, es + [e], Apply(p, b, e), o', h')
  {
    o', h' := o, h;
    OpeningSnoc(p, es, e);
    if Opening(p, es + [e], |es|) {
      o', h' := |es|, 0;
      OpeningExplains(p, es, e, b);
    } else if b.mode.Open? {
      h' := |es|;
      OpenSnoc(p, es, e, o);
      OpenStaysExplained(p, es, e, b, o);
    } else if b.mode.HalfOpen? {
      HalfOpenSnoc(p, es, e, o, h);
      HalfOpenStaysExplained(p, es, e, b, o, h);
    }
  }

  lemma {:induction false} RunExplained(p: Params, es: seq<Event>) returns (o: nat, h: nat)
    ensures Run(p, es).failures == Trailing(Outcomes(es), false)
    ensures Explained(p, es, Run(p, es), o, h)
    decreases |es|
  {
    o, h := 0, 0;
    if es != [] {
      var before, e := es[..|es| - 1], es[|es| - 1];
      o, h := RunExplained(p, before);
      assert es == before + [e];
      FailuresStep(p, before, e);
      o, h := ExplainedStep(p, before, e, Run(p, before), o, h);
    }
  }

  // ---------------------------------------------------------------- the results

  /** The failure counter is the length of the row of failures that ends the outcome history. */
  lemma {:induction false} FailuresAreTrailing(p: Params, es: seq<Event>)
    ensures Run(p, es).failures == Trailing(Outcomes(es), false)
  {
    var _, _ := RunExplained(p, es);
  }

  /** A recorded failure opens the breaker exactly when the last maxFailures outcomes all failed. */
  lemma OpensExactlyAfterMaxFailures(p: Params, es: seq<Event>, at: Time)
    ensures var os := Outcomes(es) + [false];
            var allFailed := p.maxFailures <= |os| && forall i :: |os| - p.maxFailures <= i < |os| ==> !os[i];
            var b, b' := Run(p, es), Run(p, es + [Failed(at)]);
            if allFailed then b'.mode == Open && b'.nextRetry == at + p.retryTimeout
            else b'.mode == b.mode && b'.nextRetry == b.nextRetry
  {
    Snoc(p, es, Failed(at));
    FailuresAreTrailing(p, es);
    TrailingSnoc(Outcomes(es), false, false);
    if p.maxFailures >= 0 {
      TrailingMeansAll(Outcomes(es) + [false], false, p.maxFailures);
    }
  }

  /**
   The breaker closes only from half-open, on a success, more than retryTimeout
   after the last opening failure, with successThreshold straight successes since it went half-open.
   */
  lemma ClosesOnlyAfterRecovery(p: Params, es: seq<Event>, e: Event) returns (o: nat, h: nat)
    requires !Run(p, es).mode.Closed? && Run(p, es + [e]).mode.Closed?
    requires forall i, j :: 0 <= i < j < |es + [e]| ==> (es + [e])[i].at <= (es + [e])[j].at
    ensures e.Succeeded? && Run(p, es).mode.HalfOpen?
    ensures HalfOpenSince(p, es + [e], o, h)
    ensures e.at > (es + [e])[o].at + p.retryTimeout
    ensures SuccessesSince(es + [e], h) >= p.successThreshold
  {
    Snoc(p, es, e);
    o, h := RunExplained(p, es);
    OpeningSnoc(p, es, e);
    HalfOpenSnoc(p, es, e, o, h);
    SuccessesSnoc(p, es, e, h);
    assert (es + [e])[h].at <= (es + [e])[|es|].at;
  }

  /** While the breaker is open, an attempt is let through exactly once retryTimeout has passed since the last opening failure. */
  lemma OpenBlocksUntilRetry(p: Params, es: seq<Event>, o: nat, now: Time)
    requires Run(p, es).mode.Open? && LastOpening(p, es, o)
    ensures Permits(Run(p, es), now) <==> now > es[o].at + p.retryTimeout
  {
    var q, _ := RunExplained(p, es);
    assert q == o;
  }

  /** An attempt is held back only by an open breaker, and a poll ends that exactly once the retry timeout is over. */
  lemma PollRecoversIff(p: Params, es: seq<Event>, o: nat, now: Time)
    requires Run(p, es).mode.Open? ==> LastOpening(p, es, o)
    ensures var b, b' := Run(p, es), Run(p, es + [Polled(now)]);
            && (if b.mode.Open? && now > es[o].at + p.retryTimeout then b' == b.(mode := HalfOpen, successes := 0) else b' == b)
            && (!b.mode.Open? ==> Permits(b, now))
  {
    Snoc(p, es, Polled(now));
    if Run(p, es).mode.Open? {
      var q, _ := RunExplained(p, es);
      assert q == o;
    }
  }

  /** A success closes a half-open breaker exactly when it is the successThreshold-th in a row since the poll, and moves no other. */
  lemma SuccessClosesIff(p: Params, es: seq<Event>, at: Time) returns (o: nat, h: nat)
    ensures var b, b' := Run(p, es), Run(p, es + [Succeeded(at)]);
            if b.mode.HalfOpen? then
              && HalfOpenSince(p, es, o, h)
              && b'.mode == if SuccessesSince(es, h) + 1 >= p.successThreshold then Closed else HalfOpen
            else b'.mode == b.mode
  {
    Snoc(p, es, Succeeded(at));
    o, h := RunExplained(p, es);
  }

  // ---------------------------------------------------------------- getState with its gap

  /** getState checks under the read lock, lets go of it, and later writes under the write lock. */
  datatype GapEvent = Outcome(e: Event) | Checked(poller: nat, at: Time) | Committed(poller: nat, at: Time)

  datatype GapState = GapState(breaker: Breaker, due: set<nat>)

  function When(e: GapEvent): Time {
    if e.Outcome? then e.e.at else e.at
  }

  function ApplyGap(p: Params, s: GapState, e: GapEvent): GapState {
    match e
    case Outcome(o) => s.(breaker := Apply(p, s.breaker, o))
    case Checked(poller, at) => if RetryDue(s.breaker, at) then s.(due := s.due + {poller}) else s
    case Committed(poller, _) =>
      if poller in s.due then GapState(ToHalfOpen(s.breaker), s.due - {poller}) else s
  }

  function RunGap(p: Params, es: seq<GapEvent>): GapState {
    if es == [] then GapState(Initial, {}) else ApplyGap(p, RunGap(p, es[..|es| - 1]), es[|es| - 1])
  }

  function GapOutcomes(es: seq<GapEvent>): seq<Event> {
    if es == [] then []
    else GapOutcomes(es[..|es| - 1]) + if es[|es| - 1].Outcome? then [es[|es| - 1].e] else []
  }

  /** The failure counter does not depend on the gap. */
  lemma {:induction false} GapKeepsFailures(p: Params, es: seq<GapEvent>)
    ensures RunGap(p, es).breaker.failures == Trailing(Outcomes(GapOutcomes(es)), false)
    decreases |es|
  {
    if es != [] {
      var before := es[..|es| - 1];
      GapKeepsFailures(p, before);
      if es[|es| - 1].Outcome? {
        assert GapOutcomes(es)[..|GapOutcomes(before)|] == GapOutcomes(before);
      } else {
        assert GapOutcomes(es) == GapOutcomes(before);
      }
    }
  }

  predicate TimeOrdered(es: seq<GapEvent>) {
    forall i, j :: 0 <= i < j < |es| ==> When(es[i]) <= When(es[j])
  }

  /** The event at `i` is a failure that completes a row of maxFailures failures. */
  predicate Opens(p: Params, es: seq<GapEvent>, i: nat) {
    && i < |es| && es[i].Outcome? && es[i].e.Failed?
    && Trailing(Outcomes(GapOutcomes(es[..i + 1])), false) >= p.maxFailures
  }

  predicate LastOpens(p: Params, es: seq<GapEvent>, o: nat) {
    Opens(p, es, o) && forall j :: o < j < |es| ==> !Opens(p, es, j)
  }

  /** The write of getState at `i` lands on a breaker that has opened again and whose retry time is not over. */
  predicate EarlyCommit(p: Params, es: seq<GapEvent>, i: nat) {
    && i < |es| && es[i].Committed?
    && var s := RunGap(p, es[..i]);
       es[i].poller in s.due && s.breaker.mode.Open? && es[i].at <= s.breaker.nextRetry
  }

  ghost predicate NoEarlyCommit(p: Params, es: seq<GapEvent>) {
    forall i :: 0 <= i < |es| ==> !EarlyCommit(p, es, i)
  }

  predicate Closes(p: Params, es: seq<GapEvent>, i: nat) {
    i < |es| && !RunGap(p, es[..i]).breaker.mode.Closed? && RunGap(p, es[..i + 1]).breaker.mode.Closed?
  }

  /** Every closing comes more than retryTimeout after the last opening failure before it. */
  ghost predicate KeepsTimeout(p: Params, es: seq<GapEvent>) {
    forall i, o :: 0 <= i < |es| && 0 <= o && Closes(p, es, i) && LastOpens(p, es[..i], o) ==>
      When(es[i]) > When(es[o]) + p.retryTimeout
  }

  /** What an event does depends on the events before it only. */
  lemma GapPrefix(p: Params, es: seq<GapEvent>, n: nat, i: nat)
    requires i < n <= |es|
    ensures Opens(p, es[..n], i) <==> Opens(p, es, i)
    ensures EarlyCommit(p, es[..n], i) <==> EarlyCommit(p, es, i)
    ensures Closes(p, es[..n], i) <==> Closes(p, es, i)
  {
    assert es[..n][..i] == es[..i] && es[..n][..i + 1] == es[..i + 1];
  }

  lemma GapLast(p: Params, es: seq<GapEvent>)
    requires es != []
    ensures var n := |es| - 1; RunGap(p, es) == ApplyGap(p, RunGap(p, es[..n]), es[n])
    ensures var n := |es| - 1;
            Opens(p, es, n) <==> es[n].Outcome? && es[n].e.Failed? && RunGap(p, es).breaker.failures >= p.maxFailures
  {
    assert es[..|es|] == es;
    GapKeepsFailures(p, es);
  }

  lemma NoEarlyPrefix(p: Params, es: seq<GapEvent>, n: nat)
    requires NoEarlyCommit(p, es) && n <= |es|
    ensures NoEarlyCommit(p, es[..n])
  {
    forall i: nat | i < n ensures !EarlyCommit(p, es[..n], i) {
      GapPrefix(p, es, n, i);
    }
  }

  lemma LastOpensPrefix(p: Params, es: seq<GapEvent>, n: nat, o: nat)
    requires LastOpens(p, es, o) && o < n <= |es|
    ensures LastOpens(p, es[..n], o)
  {
    forall j: nat | j < n ensures Opens(p, es[..n], j) <==> Opens(p, es, j) {
      GapPrefix(p, es, n, j);
    }
  }

  /** The retry time is set, and over unless the breaker is open. */
  predicate PastRetry(b: Breaker, retry: Time, now: Time) {
    b.nextRetry == retry && (b.mode.Open? || now > b.nextRetry)
  }

  /** One event that neither opens the breaker nor is an early write. */
  lemma PastRetryStep(p: Params, s: GapState, e: GapEvent, retry: Time, now: Time)
    requires PastRetry(s.breaker, retry, now) && now <= When(e)
    requires !(e.Outcome? && e.e.Failed? && ApplyGap(p, s, e).breaker.failures >= p.maxFailures)
    requires !(e.Committed? && e.poller in s.due && s.breaker.mode.Open? && e.at <= s.breaker.nextRetry)
    ensures PastRetry(ApplyGap(p, s, e).breaker, retry, When(e))
  {
  }

  lemma PastRetryNext(p: Params, es: seq<GapEvent>, retry: Time)
    requires |es| >= 2 && TimeOrdered(es) && !EarlyCommit(p, es, |es| - 1) && !Opens(p, es, |es| - 1)
    requires PastRetry(RunGap(p, es[..|es| - 1]).breaker, retry, When(es[|es| - 2]))
    ensures PastRetry(RunGap(p, es).breaker, retry, When(es[|es| - 1]))
  {
    var n := |es| - 1;
    GapLast(p, es);
    PastRetryStep(p, RunGap(p, es[..n]), es[n], retry, When(es[n - 1]));
  }

  /** Once opened, the retry time is that of the last opening failure, and a breaker that is not open is past it. */
  lemma {:induction false} PastRetryUnlessOpen(p: Params, es: seq<GapEvent>, o: nat)
    requires TimeOrdered(es) && NoEarlyCommit(p, es) && LastOpens(p, es, o)
    ensures PastRetry(RunGap(p, es).breaker, When(es[o]) + p.retryTimeout, When(es[|es| - 1]))
    decreases |es|
  {
    var n := |es| - 1;
    GapLast(p, es);
    if o < n {
      NoEarlyPrefix(p, es, n);
      LastOpensPrefix(p, es, n, o);
      PastRetryUnlessOpen(p, es[..n], o);
      PastRetryNext(p, es, When(es[o]) + p.retryTimeout);
    }
  }

  lemma LastOpensExtends(p: Params, es: seq<GapEvent>, o: nat)
    requires es != [] && LastOpens(p, es[..|es| - 1], o) && !Opens(p, es, |es| - 1)
    ensures LastOpens(p, es, o)
  {
    var n := |es| - 1;
    forall j: nat | j < n ensures Opens(p, es[..n], j) <==> Opens(p, es, j) {
      GapPrefix(p, es, n, j);
    }
  }

  /** The retry time is right even where a commit comes early. */
  lemma {:induction false} RetryTimeIsLastOpening(p: Params, es: seq<GapEvent>) returns (o: nat)
    ensures RunGap(p, es).breaker.mode.Open? ==>
              LastOpens(p, es, o) && RunGap(p, es).breaker.nextRetry == When(es[o]) + p.retryTimeout
    decreases |es|
  {
    o := 0;
    if es != [] {
      var n := |es| - 1;
      o := RetryTimeIsLastOpening(p, es[..n]);
      GapLast(p, es);
      if Opens(p, es, n) {
        o := n;
      } else if RunGap(p, es).breaker.mode.Open? {
        LastOpensExtends(p, es, o);
        assert es[..n][o] == es[o];
      }
    }
  }

  /** Without an early commit the retry timeout is kept, gap or no gap. */
  lemma NoEarlyCommitKeepsTimeout(p: Params, es: seq<GapEvent>)
    requires TimeOrdered(es) && NoEarlyCommit(p, es)
    ensures KeepsTimeout(p, es)
  {
    forall i, o | 0 <= i < |es| && 0 <= o && Closes(p, es, i) && LastOpens(p, es[..i], o)
      ensures When(es[i]) > When(es[o]) + p.retryTimeout
    {
      NoEarlyPrefix(p, es, i);
      PastRetryUnlessOpen(p, es[..i], o);
      GapLast(p, es[..i + 1]);
      assert es[..i + 1][..i] == es[..i];
    }
  }

  function Successes(n: nat, at: Time): seq<GapEvent> {
    seq(n, _ => Outcome(Succeeded(at)))
  }

  lemma {:induction false} SuccessesRun(p: Params, es: seq<GapEvent>, n: nat, at: Time)
    requires RunGap(p, es).breaker.mode.HalfOpen? && RunGap(p, es).breaker.successes == 0
    requires n < Max(1, p.successThreshold)
    ensures var b := RunGap(p, es + Successes(n, at)).breaker; b.mode.HalfOpen? && b.successes == n
    decreases n
  {
    if n == 0 {
      assert es + Successes(0, at) == es;
    } else {
      SuccessesRun(p, es, n - 1, at);
      var all := es + Successes(n, at);
      assert all[..|all| - 1] == es + Successes(n - 1, at);
    }
  }

  /** Events that are no failures leave the last opening failure where it was. */
  lemma LastOpensKept(p: Params, es: seq<GapEvent>, o: nat, more: seq<GapEvent>)
    requires LastOpens(p, es, o) && forall i :: 0 <= i < |more| ==> !more[i].Outcome? || !more[i].e.Failed?
    ensures LastOpens(p, es + more, o) && (es + more)[o] == es[o]
  {
    var all := es + more;
    assert all[..|es|] == es;
    forall j: nat | j < |es| ensures Opens(p, all, j) <==> Opens(p, es, j) {
      GapPrefix(p, all, |es|, j);
    }
  }

  /** Enough successes in a row close a breaker that has just become half-open. */
  lemma SuccessesClose(p: Params, es: seq<GapEvent>, at: Time)
    requires RunGap(p, es).breaker.mode.HalfOpen? && RunGap(p, es).breaker.successes == 0
    ensures var n := Max(1, p.successThreshold);
            var all := es + Successes(n, at);
            && all[..|all| - 1] == es + Successes(n - 1, at) && Closes(p, all, |all| - 1)
            && all[|all| - 1] == Outcome(Succeeded(at))
  {
    var n := Max(1, p.successThreshold);
    var all := es + Successes(n, at);
    assert all[..|all| - 1] == es + Successes(n - 1, at) && all[..|all|] == all;
    SuccessesRun(p, es, n - 1, at);
    GapLast(p, all);
  }

  /** After a commit that comes early, successes at that very time close the breaker too soon. */
  lemma EarlyCommitBreaksTimeout(p: Params, es: seq<GapEvent>, i: nat)
    requires EarlyCommit(p, es, i)
    ensures !KeepsTimeout(p, es[..i + 1] + Successes(Max(1, p.successThreshold), es[i].at))
  {
    var at, n := es[i].at, Max(1, p.successThreshold);
    var before, base := es[..i], es[..i + 1];
    var o := RetryTimeIsLastOpening(p, before);
    assert base == before + [es[i]] && base[..i] == before;
    GapLast(p, base);
    SuccessesClose(p, base, at);
    var all := base + Successes(n, at);
    var more := [es[i]] + Successes(n - 1, at);
    assert before + more == base + Successes(n - 1, at);
    LastOpensKept(p, before, o, more);
    assert LastOpens(p, all[..|all| - 1], o) && all[o] == before[o];
  }

  /**
   The retry timeout survives the gap in getState exactly as long as no write of getState
   lands on a breaker that has opened again and whose retry time is not over: then, and
   only then, every prefix of the run keeps the timeout whatever successes follow at once.
   */
  lemma GapKeepsTimeoutIff(p: Params, es: seq<GapEvent>)
    requires TimeOrdered(es)
    ensures NoEarlyCommit(p, es) <==>
              forall i, n: nat :: 0 <= i < |es| ==> KeepsTimeout(p, es[..i + 1] + Successes(n, When(es[i])))
  {
    if NoEarlyCommit(p, es) {
      forall i, n: nat | 0 <= i < |es| ensures KeepsTimeout(p, es[..i + 1] + Successes(n, When(es[i]))) {
        var all := es[..i + 1] + Successes(n, When(es[i]));
        forall j: nat | j < |all| ensures !EarlyCommit(p, all, j) {
          if j <= i {
            GapPrefix(p, all, i + 1, j);
            GapPrefix(p, es, i + 1, j);
            assert all[..i + 1] == es[..i + 1];
          }
        }
        assert TimeOrdered(all);
        NoEarlyCommitKeepsTimeout(p, all);
      }
    } else {
      var i :| 0 <= i < |es| && EarlyCommit(p, es, i);
      EarlyCommitBreaksTimeout(p, es, i);
    }
  }

  /** Such a run exists: the breaker closes one time unit after an opening failure, whatever retryTimeout says. */
  lemma GapBreaksRetryTimeout()
    ensures var p := Params(1, 10, 2);
            var es := [Outcome(Failed(0)), Checked(0, 11), Outcome(Failed(12)), Committed(0, 12),
                       Outcome(Succeeded(13)), Outcome(Succeeded(13))];
            TimeOrdered(es) && RunGap(p, es).breaker.mode == Closed
  {
    var p := Params(1, 10, 2);
    var s0 := GapState(Initial, {});
    var s1 := ApplyGap(p, s0, Outcome(Failed(0)));
    var s2 := ApplyGap(p, s1, Checked(0, 11));
    var s3 := ApplyGap(p, s2, Outcome(Failed(12)));
    var s4 := ApplyGap(p, s3, Committed(0, 12));
    var s5 := ApplyGap(p, s4, Outcome(Succeeded(13)));
    var es := [Outcome(Failed(0)), Checked(0, 11), Outcome(Failed(12)), Committed(0, 12), Outcome(Succeeded(13)), Outcome(Succeeded(13))];
    assert es[..5][..4] == es[..4] && es[..4][..3] == es[..3] && es[..3][..2] == es[..2] && es[..2][..1] == es[..1];
    assert es[..1][..0] == [];
    assert RunGap(p, es[..1]) == s1;
    assert RunGap(p, es[..2]) == s2;
    assert RunGap(p, es[..3]) == s3;
    assert RunGap(p, es[..4]) == s4;
    assert RunGap(p, es[..5]) == s5;
  }
}
