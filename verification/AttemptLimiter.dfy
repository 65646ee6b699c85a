/**
 The in-memory path of the authentication rate limiter (pkg/auth/rate_limiter.go):
 a counter per identifier in a window that starts over once it has expired, and a
 lockout that starts when a check finds the counter full.
 */
module AttemptLimiter {
  import opened Common

  datatype Params = Params(maxAttempts: int, windowSize: int, lockoutPeriod: int)

  datatype Limit = Limit(attempts: int, window: Time, lockedOut: Option<Time>)

  datatype Verdict = Allowed | LockedOut | TooMany

  /** What LoadOrStore puts in place for an identifier it has not seen. */
  function LoadOrStore(l: Option<Limit>, now: Time): Limit {
    if l.Some? then l.value else Limit(0, now, None)
  }

  function Expired(p: Params, l: Limit, now: Time): bool {
    now - l.window > p.windowSize
  }

  /** checkLocalLimit on one identifier's limit. */
  function Check(p: Params, l: Limit, now: Time): (Limit, Verdict) {
    if l.lockedOut.Some? && now < l.lockedOut.value then (l, LockedOut)
    else
      var l' := if Expired(p, l, now) then l.(attempts := 0, window := now) else l;
      if l'.attempts >= p.maxAttempts then (l'.(lockedOut := Some(now + p.lockoutPeriod)), TooMany)
      else (l', Allowed)
  }

  /** recordLocalAttempt on one identifier's limit. */
  function Record(p: Params, l: Limit, now: Time, success: bool): Limit {
    if success then l.(attempts := 0, lockedOut := None)
    else if Expired(p, l, now) then l.(attempts := 1, window := now)
    else l.(attempts := l.attempts + 1)
  }

  class RateLimiter {
    const enabled: bool
    const params: Params
    var localLimits: map<string, Limit>

    constructor (enabled: bool, params: Params)
      ensures this.enabled == enabled && this.params == params && localLimits == map[]
    {
      this.enabled, this.params, localLimits := enabled, params, map[];
    }

    function Lookup(id: string): Option<Limit>
      reads this
    {
      if id in localLimits then Some(localLimits[id]) else None
    }

    method CheckLimit(id: string, now: Time) returns (v: Verdict)
      modifies this
      ensures !enabled ==> v == Allowed && localLimits == old(localLimits)
      ensures enabled ==>
                var r := Check(params, LoadOrStore(old(Lookup(id)), now), now);
                v == r.1 && localLimits == old(localLimits)[id := r.0]
    {
      if !enabled {
        return Allowed;
      }
      if id !in localLimits {
        localLimits := localLimits[id := Limit(0, now, None)];
      }
      var limit := localLimits[id];
      if limit.lockedOut.Some? && now < limit.lockedOut.value {
        return LockedOut;
      }
      if now - limit.window > params.windowSize {
        limit := limit.(attempts := 0, window := now);
      }
      v := Allowed;
      if limit.attempts >= params.maxAttempts {
        limit := limit.(lockedOut := Some(now + params.lockoutPeriod));
        v := TooMany;
      }
      localLimits := localLimits[id := limit];
    }

    method RecordAttempt(id: string, now: Time, success: bool)
      modifies this
      ensures !enabled ==> localLimits == old(localLimits)
      ensures enabled ==>
                localLimits == old(localLimits)[id := Record(params, LoadOrStore(old(Lookup(id)), now), now, success)]
    {
      if !enabled {
        return;
      }
      if id !in localLimits {
        localLimits := localLimits[id := Limit(0, now, None)];
      }
      var limit := localLimits[id];
      if success {
        limit := limit.(attempts := 0, lockedOut := None);
      } else if now - limit.window > params.windowSize {
        limit := limit.(attempts := 1, window := now);
      } else {
        limit := limit.(attempts := limit.attempts + 1);
      }
      localLimits := localLimits[id := limit];
    }
  }

  // ---------------------------------------------------------------- runs of one identifier

  datatype Event = Checked(at: Time) | Failed(at: Time) | Succeeded(at: Time)

  /** A limit with the history the results speak about. */
  datatype Track = Track(
    limit: Option<Limit>,
    now: Time,           // time of the latest event
    outstanding: nat,    // passed checks whose attempt is not yet recorded
    failures: seq<Time>  // failures recorded since the last success
  )

  function VerdictAt(p: Params, t: Track, e: Event): Verdict {
    Check(p, LoadOrStore(t.limit, e.at), e.at).1
  }

  function Step(p: Params, t: Track, e: Event): Track {
    var l := LoadOrStore(t.limit, e.at);
    match e
    case Checked(at) =>
      var r := Check(p, l, at);
      Track(Some(r.0), at, if r.1.Allowed? then t.outstanding + 1 else t.outstanding, t.failures)
    case Failed(at) =>
      Track(Some(Record(p, l, at, false)), at, if t.outstanding > 0 then t.outstanding - 1 else 0, t.failures + [at])
    case Succeeded(at) =>
      Track(Some(Record(p, l, at, true)), at, if t.outstanding > 0 then t.outstanding - 1 else 0, [])
  }

  /** Time does not go back, attempts are recorded after a passed check, and at most `k` are under way at once. */
  predicate Legal(p: Params, k: nat, t: Track, e: Event) {
    && (t.limit.Some? ==> t.now <= e.at)
    && (e.Checked? && VerdictAt(p, t, e).Allowed? ==> t.outstanding < k)
    && (!e.Checked? ==> t.outstanding > 0)
  }

  const Start := Track(None, 0, 0, [])

  function Run(p: Params, t: Track, es: seq<Event>): Track
    decreases |es|
  {
    if es == [] then t else Step(p, Run(p, t, es[..|es| - 1]), es[|es| - 1])
  }

  predicate LegalRun(p: Params, k: nat, t: Track, es: seq<Event>)
    decreases |es|
  {
    es == [] ||
    (LegalRun(p, k, t, es[..|es| - 1]) && Legal(p, k, Run(p, t, es[..|es| - 1]), es[|es| - 1]))
  }

  /** The most failures one window can hold with `k` attempts under way at once. */
  function PerWindow(p: Params, k: nat): nat {
    if k == 0 then 0 else Max(p.maxAttempts, 1) + k - 1
  }

  /** Entries at least `stride` places apart are more than `gap` apart in time. */
  ghost predicate Spaced(f: seq<Time>, stride: nat, gap: int) {
    forall i, j :: 0 <= i && i + stride <= j < |f| ==> f[i] + gap < f[j]
  }

  ghost predicate Inv(p: Params, k: nat, t: Track) {
    var m, n := PerWindow(p, k), |t.failures|;
    if t.limit.None? then t.outstanding == 0 && n == 0
    else
      var l := t.limit.value;
      && l.window <= t.now
      && 0 <= l.attempts <= n
      && l.attempts + t.outstanding <= m
      && (p.maxAttempts <= 0 ==> l.attempts + t.outstanding == 0)
      && (forall j :: 0 <= j < n ==> t.failures[j] <= t.now)
      && (forall j :: 0 <= j < n - l.attempts ==> t.failures[j] <= l.window)
      && (forall j :: 0 <= j < n - l.attempts - m ==> t.failures[j] + p.windowSize < l.window)
      && Spaced(t.failures, 2 * m, p.windowSize)
  }

  /** A failure more, when those a stride back are more than a window old. */
  lemma SpacedSnoc(f: seq<Time>, stride: nat, gap: int, at: Time)
    requires Spaced(f, stride, gap) && forall i :: 0 <= i && i + stride <= |f| && i < |f| ==> f[i] + gap < at
    requires stride > 0
    ensures Spaced(f + [at], stride, gap)
  {
  }

  lemma FailureKeepsInv(p: Params, k: nat, t: Track, e: Event)
    requires k >= 1 && Inv(p, k, t) && Legal(p, k, t, e) && e.Failed?
    ensures Inv(p, k, Step(p, t, e))
  {
    var m, n := PerWindow(p, k), |t.failures|;
    forall i | 0 <= i && i + 2 * m <= n ensures t.failures[i] + p.windowSize < e.at {
    }
    SpacedSnoc(t.failures, 2 * m, p.windowSize, e.at);
  }

  lemma StepKeepsInv(p: Params, k: nat, t: Track, e: Event)
    requires k >= 1 && Inv(p, k, t) && Legal(p, k, t, e)
    ensures Inv(p, k, Step(p, t, e))
  {
    if e.Failed? {
      FailureKeepsInv(p, k, t, e);
    }
  }

  lemma {:induction false} RunKeepsInv(p: Params, k: nat, es: seq<Event>)
    requires k >= 1 && LegalRun(p, k, Start, es)
    ensures Inv(p, k, Run(p, Start, es))
    decreases |es|
  {
    if es != [] {
      RunKeepsInv(p, k, es[..|es| - 1]);
      StepKeepsInv(p, k, Run(p, Start, es[..|es| - 1]), es[|es| - 1]);
    }
  }

  /**
   With at most `k` attempts under way at once the counter never exceeds
   maxAttempts + k - 1 (maxAttempts itself, one at a time), and since the last
   success no closed time span of length windowSize holds more than twice that
   many failures: failures that far apart in number are more than a window apart in time.
   */
  lemma FailuresBounded(p: Params, k: nat, es: seq<Event>)
    requires k >= 1 && LegalRun(p, k, Start, es)
    ensures var t := Run(p, Start, es);
            && (t.limit.Some? ==> t.limit.value.attempts <= PerWindow(p, k))
            && Spaced(t.failures, 2 * PerWindow(p, k), p.windowSize)
  {
    RunKeepsInv(p, k, es);
  }

  lemma {:induction false} RefusedUntil(p: Params, k: nat, t: Track, end: Time, es: seq<Event>)
    requires t.limit.Some? && t.limit.value.lockedOut == Some(end)
    requires forall e :: e in es ==> e.at < end
    requires (t.outstanding == 0 && LegalRun(p, k, t, es)) || (forall e :: e in es ==> !e.Succeeded?)
    ensures var u := Run(p, t, es);
            && u.limit.Some? && u.limit.value.lockedOut == Some(end)
            && (t.outstanding == 0 && LegalRun(p, k, t, es) ==> u.outstanding == 0)
    decreases |es|
  {
    if es != [] {
      RefusedUntil(p, k, t, end, es[..|es| - 1]);
      assert es[|es| - 1] in es;
    }
  }

  /**
   Once a check answers "too many attempts", every later check before the lockout
   ends is refused - provided no success is recorded in between, which cannot
   happen when no attempt was under way at the refusal.
   */
  lemma LockoutHolds(p: Params, k: nat, t: Track, first: Event, es: seq<Event>, next: Event)
    requires first.Checked? && next.Checked? && VerdictAt(p, t, first) == TooMany
    requires forall e :: e in es ==> e.at < first.at + p.lockoutPeriod
    requires next.at < first.at + p.lockoutPeriod
    requires (t.outstanding == 0 && LegalRun(p, k, Step(p, t, first), es)) || (forall e :: e in es ==> !e.Succeeded?)
    ensures VerdictAt(p, Run(p, Step(p, t, first), es), next) == LockedOut
  {
    RefusedUntil(p, k, Step(p, t, first), first.at + p.lockoutPeriod, es);
  }

  /** Every check that can follow a prefix of `es` before `end` is refused. */
  ghost predicate RefusedThroughout(p: Params, t: Track, es: seq<Event>, end: Time) {
    forall n, at :: 0 <= n <= |es| && (n > 0 ==> es[n - 1].at <= at) && at < end ==>
      !VerdictAt(p, Run(p, t, es[..n]), Checked(at)).Allowed?
  }

  /**
   After "too many attempts" every check before the lockout ends is refused if and only
   if no success is recorded before it ends.
   */
  lemma LockoutHoldsIff(p: Params, t: Track, first: Event, es: seq<Event>)
    requires p.maxAttempts >= 1 && first.Checked? && VerdictAt(p, t, first) == TooMany
    requires forall e :: e in es ==> e.at < first.at + p.lockoutPeriod
    ensures RefusedThroughout(p, Step(p, t, first), es, first.at + p.lockoutPeriod) <==> forall e :: e in es ==> !e.Succeeded?
  {
    var t', end := Step(p, t, first), first.at + p.lockoutPeriod;
    if forall e :: e in es ==> !e.Succeeded? {
      forall n, at | 0 <= n <= |es| && at < end ensures !VerdictAt(p, Run(p, t', es[..n]), Checked(at)).Allowed? {
        LockoutHolds(p, 1, t, first, es[..n], Checked(at));
      }
    } else {
      var i :| 0 <= i < |es| && es[i].Succeeded?;
      assert es[..i + 1][..i] == es[..i];
      assert Run(p, t', es[..i + 1]) == Step(p, Run(p, t', es[..i]), es[i]);
      assert VerdictAt(p, Run(p, t', es[..i + 1]), Checked(es[i].at)).Allowed?;
    }
  }

  /** A success does come during a lockout: with two attempts under way, the second to return may be the one that succeeds. */
  lemma LockoutLiftedReachable()
    ensures var p := Params(1, 10, 100);
            var es := [Checked(0), Checked(0), Failed(1)];
            var t := Run(p, Start, es);
            && LegalRun(p, 2, Start, es + [Checked(2), Succeeded(3), Checked(4)])
            && VerdictAt(p, t, Checked(2)) == TooMany
            && VerdictAt(p, Run(p, Start, es + [Checked(2), Succeeded(3)]), Checked(4)) == Allowed
  {
    var p := Params(1, 10, 100);
    var es := [Checked(0), Checked(0), Failed(1), Checked(2), Succeeded(3), Checked(4)];
    assert es[..1][..0] == [] && es[..2][..1] == es[..1] && es[..3][..2] == es[..2] && es[..4][..3] == es[..3];
    assert es[..5][..4] == es[..4] && es[..6] == es;
    assert es[..3] == [Checked(0), Checked(0), Failed(1)];
    assert es[..3] + [Checked(2), Succeeded(3)] == es[..5];
    assert es[..3] + [Checked(2), Succeeded(3), Checked(4)] == es;
    assert Run(p, Start, es[..1]) == Track(Some(Limit(0, 0, None)), 0, 1, []);
    assert Run(p, Start, es[..2]) == Track(Some(Limit(0, 0, None)), 0, 2, []);
    assert Run(p, Start, es[..3]) == Track(Some(Limit(1, 0, None)), 1, 1, [1]);
    assert Run(p, Start, es[..4]) == Track(Some(Limit(1, 0, Some(102))), 2, 1, [1]);
    assert Run(p, Start, es[..5]) == Track(Some(Limit(0, 0, None)), 3, 0, []);
    assert LegalRun(p, 2, Start, es[..1]);
    assert LegalRun(p, 2, Start, es[..2]);
    assert LegalRun(p, 2, Start, es[..3]);
    assert LegalRun(p, 2, Start, es[..4]);
    assert LegalRun(p, 2, Start, es[..5]);
  }

  // ---------------------------------------------------------------- when a check passes

  /** The event with which the window in force began: the first one, or one that found the window before it over. */
  function Opened(p: Params, es: seq<Event>): (o: nat)
    requires es != []
    ensures o < |es|
    decreases |es|, 0
  {
    var n := |es| - 1;
    if n == 0 then 0
    else
      var o := Opened(p, es[..n]);
      if Restarts(p, es[..n], es[n]) && es[n].at > es[o].at + p.windowSize then n else o
  }

  /** A failure may begin a window, and so may a check, unless a lockout is in force; a success does not. */
  predicate Restarts(p: Params, es: seq<Event>, e: Event)
    decreases |es|, 3
  {
    e.Failed? || (e.Checked? && !Locked(p, es, e.at))
  }

  /** The failures from the event at `o` on that no success has followed. */
  function FailuresFrom(es: seq<Event>, o: nat): nat {
    if |es| <= o || es[|es| - 1].Succeeded? then 0
    else FailuresFrom(es[..|es| - 1], o) + if es[|es| - 1].Failed? then 1 else 0
  }

  /** The failures that count against a check at this time: those of a window that is not over. */
  function Counting(p: Params, es: seq<Event>, at: Time): nat
    decreases |es|, 1
  {
    if es == [] || at > es[Opened(p, es)].at + p.windowSize then 0 else FailuresFrom(es, Opened(p, es))
  }

  /** When the last lockout that no success has lifted ends. */
  function LockEnd(p: Params, es: seq<Event>): Option<Time>
    decreases |es|, 0
  {
    if es == [] || es[|es| - 1].Succeeded? then None
    else
      var before, e := es[..|es| - 1], es[|es| - 1];
      if e.Checked? && !Locked(p, before, e.at) && Counting(p, before, e.at) >= p.maxAttempts then
        Some(e.at + p.lockoutPeriod)
      else LockEnd(p, before)
  }

  predicate Locked(p: Params, es: seq<Event>, at: Time)
    decreases |es|, 2
  {
    LockEnd(p, es).Some? && at < LockEnd(p, es).value
  }

  /** What the history says of the limit. */
  function FromHistory(p: Params, es: seq<Event>): Option<Limit> {
    if es == [] then None
    else Some(Limit(FailuresFrom(es, Opened(p, es)), es[Opened(p, es)].at, LockEnd(p, es)))
  }

  lemma StepIsHistory(p: Params, es: seq<Event>)
    requires es != []
    ensures Some(OneStep(p, FromHistory(p, es[..|es| - 1]), es[|es| - 1])) == FromHistory(p, es)
  {
    var n := |es| - 1;
    var before, e, limit := es[..n], es[n], FromHistory(p, es).value;
    FailuresBeforeStart(before, n);
    var next := OneStep(p, FromHistory(p, before), e);
    var end := LockEnd(p, before);
    assert Locked(p, before, e.at) <==> end.Some? && e.at < end.value;
    assert Restarts(p, before, e) <==> e.Failed? || (e.Checked? && !Locked(p, before, e.at));
    assert Counting(p, before, e.at) ==
           if n == 0 || e.at > before[Opened(p, before)].at + p.windowSize then 0 else FailuresFrom(before, Opened(p, before));
    if n > 0 {
      var o := Opened(p, before);
      assert before[o] == es[o];
      assert Opened(p, es) == if Restarts(p, before, e) && e.at > es[o].at + p.windowSize then n else o;
    }
    assert next.window == limit.window;
    assert next.attempts == limit.attempts;
    assert next.lockedOut == limit.lockedOut;
  }

  lemma {:induction false} LimitIsHistory(p: Params, es: seq<Event>)
    ensures Run(p, Start, es).limit == FromHistory(p, es)
    decreases |es|
  {
    if es != [] {
      var before := es[..|es| - 1];
      LimitIsHistory(p, before);
      StepIsOneStep(p, Run(p, Start, before), es[|es| - 1]);
      StepIsHistory(p, es);
    }
  }

  lemma FailuresBeforeStart(es: seq<Event>, o: nat)
    requires |es| <= o
    ensures FailuresFrom(es, o) == 0
  {
  }

  /**
   A check passes if and only if no lockout is in force and fewer than maxAttempts
   failures count against it: those recorded, since the last success, in a window
   that is not over.
   */
  lemma CheckPassesIff(p: Params, es: seq<Event>, at: Time)
    ensures VerdictAt(p, Run(p, Start, es), Checked(at)).Allowed? <==>
              !Locked(p, es, at) && Counting(p, es, at) < p.maxAttempts
    ensures VerdictAt(p, Run(p, Start, es), Checked(at)).LockedOut? <==> Locked(p, es, at)
  {
    LimitIsHistory(p, es);
  }

  lemma {:induction false} LockEndBound(p: Params, es: seq<Event>, at: Time)
    requires forall e :: e in es ==> e.at + p.lockoutPeriod <= at
    ensures !Locked(p, es, at)
    decreases |es|
  {
    if es != [] {
      assert es[|es| - 1] in es && forall e :: e in es[..|es| - 1] ==> e in es;
      LockEndBound(p, es[..|es| - 1], at);
    }
  }

  /** Whatever happened before, after a silence as long as the window and the lockout a check passes. */
  lemma SilenceIsForgiven(p: Params, es: seq<Event>, at: Time)
    requires p.maxAttempts >= 1
    requires forall e :: e in es ==> e.at + p.windowSize < at && e.at + p.lockoutPeriod <= at
    ensures VerdictAt(p, Run(p, Start, es), Checked(at)).Allowed?
  {
    LockEndBound(p, es, at);
    CheckPassesIff(p, es, at);
    if es != [] {
      assert es[Opened(p, es)] in es;
    }
  }

  // ---------------------------------------------------------------- identifiers do not interfere

  function OneStep(p: Params, l: Option<Limit>, e: Event): Limit {
    var limit := LoadOrStore(l, e.at);
    match e
    case Checked(at) => Check(p, limit, at).0
    case Failed(at) => Record(p, limit, at, false)
    case Succeeded(at) => Record(p, limit, at, true)
  }

  function RunAll(p: Params, m: map<string, Limit>, es: seq<(string, Event)>): map<string, Limit>
    decreases |es|
  {
    if es == [] then m
    else
      var before := RunAll(p, m, es[..|es| - 1]);
      var (id, e) := es[|es| - 1];
      before[id := OneStep(p, if id in before then Some(before[id]) else None, e)]
  }

  function Only(es: seq<(string, Event)>, id: string): seq<Event> {
    if es == [] then []
    else
      var (who, e) := es[|es| - 1];
      Only(es[..|es| - 1], id) + if who == id then [e] else []
  }

  lemma StepIsOneStep(p: Params, t: Track, e: Event)
    ensures Step(p, t, e).limit == Some(OneStep(p, t.limit, e))
  {
  }

  /** In a run over all identifiers, each one's limit is that of a run of its own events alone. */
  lemma {:induction false} IdentifiersIndependent(p: Params, es: seq<(string, Event)>, id: string)
    ensures var all := RunAll(p, map[], es);
            Run(p, Start, Only(es, id)).limit == if id in all then Some(all[id]) else None
    decreases |es|
  {
    if es != [] {
      var n := |es| - 1;
      IdentifiersIndependent(p, es[..n], id);
      var (who, e) := es[n];
      var before, own := Only(es[..n], id), Only(es, id);
      var all := RunAll(p, map[], es[..n]);
      assert RunAll(p, map[], es) == all[who := OneStep(p, if who in all then Some(all[who]) else None, e)];
      if who == id {
        assert own == before + [e] && own[..|own| - 1] == before;
        assert Run(p, Start, own) == Step(p, Run(p, Start, before), e);
        StepIsOneStep(p, Run(p, Start, before), e);
      } else {
        assert own == before;
      }
    }
  }

  /** The failures of one identifier since its last success, in a run over all identifiers. */
  function FailuresOf(es: seq<(string, Event)>, id: string): seq<Time> {
    if es == [] then []
    else
      var (who, e) := es[|es| - 1];
      var before := FailuresOf(es[..|es| - 1], id);
      if who != id || e.Checked? then before else if e.Failed? then before + [e.at] else []
  }

  lemma {:induction false} FailuresOfAlone(p: Params, es: seq<(string, Event)>, id: string)
    ensures FailuresOf(es, id) == Run(p, Start, Only(es, id)).failures
    decreases |es|
  {
    if es != [] {
      var n := |es| - 1;
      var before, own := Only(es[..n], id), Only(es, id);
      FailuresOfAlone(p, es[..n], id);
      if es[n].0 == id {
        assert own == before + [es[n].1] && own[..|own| - 1] == before;
        assert Run(p, Start, own) == Step(p, Run(p, Start, before), es[n].1);
      } else {
        assert own == before;
      }
    }
  }

  /** In every run over all identifiers, each one that keeps the discipline stays within its own bounds. */
  lemma IdentifierFailuresBounded(p: Params, k: nat, es: seq<(string, Event)>, id: string)
    requires k >= 1 && LegalRun(p, k, Start, Only(es, id))
    ensures var all := RunAll(p, map[], es);
            && (id in all ==> all[id].attempts <= PerWindow(p, k))
            && Spaced(FailuresOf(es, id), 2 * PerWindow(p, k), p.windowSize)
  {
    IdentifiersIndependent(p, es, id);
    FailuresOfAlone(p, es, id);
    FailuresBounded(p, k, Only(es, id));
  }
}
