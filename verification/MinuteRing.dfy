/**
 The ring of per-minute error counts in pkg/clients/error_metrics.go, against the
 unbounded log it stands for.  A tick is one whole minute counted by
 updateTimeBuckets; `log` has one entry per tick, the last one being the current.
 */
module MinuteRing {

  const Slots := 60
  const Minute := 60_000_000_000 // nanoseconds

  /** Errors recorded `j` ticks ago. */
  function Ago(log: seq<nat>, j: nat): nat {
    if j < |log| then log[|log| - 1 - j] else 0
  }

  /** The last 60 ticks of the log, oldest first. */
  function Window(log: seq<nat>): seq<nat> {
    seq(Slots, k requires 0 <= k < Slots => Ago(log, Slots - 1 - k))
  }

  function Total(s: seq<nat>): nat {
    if s == [] then 0 else Total(s[..|s| - 1]) + s[|s| - 1]
  }

  function Zeros(n: nat): seq<nat> {
    seq(n, _ => 0)
  }

  /** The index of the slot `j` ticks behind the current one. */
  function Behind(current: nat, j: nat): nat
    requires current < Slots && j < Slots
  {
    if j <= current then current - j else current - j + Slots
  }

  /** How many slots after the current one an index lies. */
  function Ahead(current: nat, x: nat): nat
    requires current < Slots && x < Slots
  {
    if current <= x then x - current else x - current + Slots
  }

  /** Every slot holds the errors of its tick. */
  ghost predicate Refines(ring: seq<nat>, current: nat, log: seq<nat>) {
    && |ring| == Slots && current < Slots
    && forall j :: 0 <= j < Slots ==> ring[Behind(current, j)] == Ago(log, j)
  }

  /** The ring after clearing the `n` slots that follow the current one. */
  ghost predicate Cleared(before: seq<nat>, current: nat, n: nat, after: seq<nat>) {
    && |before| == |after| == Slots && current < Slots
    && forall x :: 0 <= x < Slots ==> after[x] == if 1 <= Ahead(current, x) <= n then 0 else before[x]
  }

  lemma ClearOne(before: seq<nat>, current: nat, n: nat, ring: seq<nat>)
    requires 1 <= n < Slots && Cleared(before, current, n - 1, ring)
    ensures Cleared(before, current, n, ring[(current + n) % Slots := 0])
  {
    var idx := (current + n) % Slots;
    assert idx == if current + n < Slots then current + n else current + n - Slots;
    assert forall x :: 0 <= x < Slots ==> (Ahead(current, x) == n <==> x == idx);
  }

  /** Less than an hour apart, an update of the ring is an update of the log. */
  lemma ShortGapRefines(before: seq<nat>, current: nat, log: seq<nat>, gap: nat, after: seq<nat>)
    requires Refines(before, current, log) && gap < Slots && Cleared(before, current, gap, after)
    ensures Refines(after, (current + gap) % Slots, log + Zeros(gap))
  {
    var current', log' := (current + gap) % Slots, log + Zeros(gap);
    assert current' == if current + gap < Slots then current + gap else current + gap - Slots;
    forall j | 0 <= j < Slots ensures after[Behind(current', j)] == Ago(log', j) {
      if j < gap {
        assert Ahead(current, Behind(current', j)) == gap - j;
        assert Ago(log', j) == 0;
      } else {
        assert Behind(current', j) == Behind(current, j - gap);
        assert Ago(log', j) == Ago(log, j - gap);
      }
    }
  }

  /** After an hour or more the one slot that is not cleared decides. */
  lemma LongGapRefinesIff(before: seq<nat>, current: nat, log: seq<nat>, gap: nat, after: seq<nat>)
    requires Refines(before, current, log) && gap >= Slots && Cleared(before, current, Slots - 1, after)
    ensures Refines(after, (current + gap) % Slots, log + Zeros(gap)) <==> before[current] == 0
  {
    var current', log' := (current + gap) % Slots, log + Zeros(gap);
    assert forall j :: 0 <= j < Slots ==> Ago(log', j) == 0;
    assert forall x :: 0 <= x < Slots && x != current ==> after[x] == 0;
    var j := Ahead(current, current');
    assert Behind(current', j) == current && after[current] == before[current];
  }

  /** The ring, read from the slot after the current one, is the window. */
  lemma RotatedRingIsWindow(ring: seq<nat>, current: nat, log: seq<nat>)
    requires Refines(ring, current, log)
    ensures ring[current + 1..] + ring[..current + 1] == Window(log)
  {
    var rotated := ring[current + 1..] + ring[..current + 1];
    forall k | 0 <= k < Slots ensures rotated[k] == Window(log)[k] {
      assert rotated[k] == ring[Behind(current, Slots - 1 - k)];
    }
  }

  lemma {:induction false} TotalConcat(a: seq<nat>, b: seq<nat>)
    ensures Total(a + b) == Total(a) + Total(b)
    decreases |b|
  {
    if b == [] {
      assert a + b == a;
    } else {
      assert (a + b)[..|a + b| - 1] == a + b[..|b| - 1];
      TotalConcat(a, b[..|b| - 1]);
    }
  }

  /** Summing the ring in any rotation sums the last 60 ticks. */
  lemma RingTotal(ring: seq<nat>, current: nat, log: seq<nat>)
    requires Refines(ring, current, log)
    ensures Total(ring) == Total(Window(log))
  {
    RotatedRingIsWindow(ring, current, log);
    TotalConcat(ring[current + 1..], ring[..current + 1]);
    TotalConcat(ring[..current + 1], ring[current + 1..]);
    assert ring[..current + 1] + ring[current + 1..] == ring;
  }

  /** The number of whole minutes, truncated; a clock that went back gives none. */
  function WholeMinutes(from: int, to: int): nat {
    if to <= from then 0 else (to - from) / Minute
  }

  // ---------------------------------------------------------------- ticks and wall-clock time

  /** updateTimeBuckets stamps the time of an update that counted a minute, dropping the fraction. */
  function StampAfter(last: int, now: int): int {
    if WholeMinutes(last, now) > 0 then now else last
  }

  /** The stamp after updates at the given times. */
  function Stamp(start: int, times: seq<int>): int {
    if times == [] then start else StampAfter(Stamp(start, times[..|times| - 1]), times[|times| - 1])
  }

  /** The ticks counted by updates at the given times. */
  function Ticks(start: int, times: seq<int>): nat {
    if times == [] then 0
    else Ticks(start, times[..|times| - 1]) + WholeMinutes(Stamp(start, times[..|times| - 1]), times[|times| - 1])
  }

  ghost predicate Ascending(start: int, times: seq<int>) {
    && (forall i :: 0 <= i < |times| ==> start <= times[i])
    && forall i, j :: 0 <= i < j < |times| ==> times[i] <= times[j]
  }

  /** After an update the stamp is less than a minute old. */
  lemma {:induction false} StampIsRecent(start: int, times: seq<int>)
    requires Ascending(start, times) && times != []
    ensures Stamp(start, times) <= times[|times| - 1] < Stamp(start, times) + Minute
    decreases |times|
  {
    var n := |times| - 1;
    if n > 0 {
      StampIsRecent(start, times[..n]);
    }
  }

  /** A tick takes at least one minute and less than two. */
  lemma {:induction false} TicksTakeMinutes(start: int, times: seq<int>, i: nat)
    requires Ascending(start, times) && i <= |times|
    ensures Ticks(start, times[..i]) <= Ticks(start, times)
    ensures var k, d := Ticks(start, times) - Ticks(start, times[..i]), Stamp(start, times) - Stamp(start, times[..i]);
            k * Minute <= d <= 2 * k * Minute
    decreases |times|
  {
    var n := |times| - 1;
    if i == |times| {
      assert times[..i] == times;
    } else {
      assert times[..n][..i] == times[..i];
      TicksTakeMinutes(start, times[..n], i);
      var w := WholeMinutes(Stamp(start, times[..n]), times[n]);
      assert w > 0 ==> w * Minute <= times[n] - Stamp(start, times[..n]) < (w + 1) * Minute;
    }
  }

  /**
   What an error recorded at one update and the rate computed at another have to do with
   the clock: what lies within the window is less than 119 minutes old, and
   what has fallen out of it is more than 59 minutes old.
   */
  lemma WindowAge(start: int, times: seq<int>, i: nat, j: nat)
    requires Ascending(start, times) && i <= j < |times|
    ensures var ticks := Ticks(start, times[..j + 1]) - Ticks(start, times[..i + 1]);
            && ticks >= 0
            && (ticks < Slots ==> times[j] - times[i] < 119 * Minute)
            && (ticks >= Slots ==> times[j] - times[i] > 59 * Minute)
  {
    var upTo := times[..j + 1];
    StampIsRecent(start, upTo);
    StampIsRecent(start, times[..i + 1]);
    assert upTo[..i + 1] == times[..i + 1];
    TicksTakeMinutes(start, upTo, i + 1);
  }

  class ErrorMetrics {
    const errorsPerMinute: array<nat>
    var currentMinute: nat
    var lastMinuteUpdate: int
    var errorRate: real
    ghost var log: seq<nat>

    ghost predicate Shaped()
      reads this
    {
      errorsPerMinute.Length == Slots && currentMinute < Slots && log != []
    }

    /** The ring tells the truth about the log. */
    ghost predicate Valid()
      reads this, errorsPerMinute
    {
      Shaped() && Refines(errorsPerMinute[..], currentMinute, log)
    }

    constructor (now: int)
      ensures Valid() && log == [0] && lastMinuteUpdate == now && fresh(errorsPerMinute)
    {
      errorsPerMinute := new nat[Slots](_ => 0);
      currentMinute, lastMinuteUpdate, errorRate, log := 0, now, 0.0, [0];
    }

    /** The gap can be bridged: it is under an hour, or nothing was recorded in the tick it starts from. */
    ghost predicate Bridges(now: int)
      requires Shaped()
      reads this, errorsPerMinute
    {
      WholeMinutes(lastMinuteUpdate, now) < Slots || errorsPerMinute[currentMinute] == 0
    }

    /** The clearing loop: zeroes the slots the ring is about to move over, at most all but the current one. */
    method ClearAhead(gap: nat)
      requires Shaped()
      modifies errorsPerMinute
      ensures Cleared(old(errorsPerMinute[..]), currentMinute, if gap < Slots then gap else Slots - 1, errorsPerMinute[..])
    {
      ghost var before := errorsPerMinute[..];
      var i := 1;
      while i <= gap && i < Slots
        invariant 1 <= i <= Slots && i <= gap + 1
        invariant Cleared(before, currentMinute, i - 1, errorsPerMinute[..])
      {
        var idx := (currentMinute + i) % Slots;
        ghost var ring := errorsPerMinute[..];
        errorsPerMinute[idx] := 0;
        assert errorsPerMinute[..] == ring[idx := 0];
        ClearOne(before, currentMinute, i, ring);
        i := i + 1;
      }
    }

    /** Moves the log on by the elapsed ticks; the ring follows it if and only if the gap can be bridged. */
    method UpdateTimeBuckets(now: int)
      requires Valid()
      modifies this`currentMinute, this`lastMinuteUpdate, this`log, errorsPerMinute
      ensures Shaped()
      ensures log == old(log) + Zeros(WholeMinutes(old(lastMinuteUpdate), now))
      ensures Valid() <==> old(Bridges(now))
      ensures lastMinuteUpdate == StampAfter(old(lastMinuteUpdate), now)
    {
      var gap := WholeMinutes(lastMinuteUpdate, now);
      if gap > 0 {
        ghost var before := errorsPerMinute[..];
        ClearAhead(gap);
        if gap < Slots {
          ShortGapRefines(before, currentMinute, log, gap, errorsPerMinute[..]);
        } else {
          LongGapRefinesIff(before, currentMinute, log, gap, errorsPerMinute[..]);
        }
        currentMinute := (currentMinute + gap) % Slots;
        lastMinuteUpdate := now;
      } else {
        assert log + Zeros(0) == log;
      }
      log := log + Zeros(gap);
    }

    /** Counts one error in the current tick; if the gap can be bridged, the rate is that of the last 60 ticks. */
    method RecordError(now: int)
      requires Valid()
      modifies this, errorsPerMinute
      ensures Shaped()
      ensures var ticks := old(log) + Zeros(WholeMinutes(old(lastMinuteUpdate), now));
              log == ticks[|ticks| - 1 := ticks[|ticks| - 1] + 1]
      ensures old(Bridges(now)) ==> Valid() && errorRate == Total(Window(log)) as real / 60.0
    {
      UpdateTimeBuckets(now);
      ghost var ticks, ring := log, errorsPerMinute[..];
      errorsPerMinute[currentMinute] := errorsPerMinute[currentMinute] + 1;
      log := ticks[|ticks| - 1 := ticks[|ticks| - 1] + 1];
      if Refines(ring, currentMinute, ticks) {
        assert Behind(currentMinute, 0) == currentMinute;
        assert errorsPerMinute[..] == ring[currentMinute := ring[currentMinute] + 1];
        RecordRefines(ring, currentMinute, ticks);
        RingTotal(errorsPerMinute[..], currentMinute, log);
      }
      CalculateErrorRate();
    }

    method CalculateErrorRate()
      requires Shaped()
      modifies this`errorRate
      ensures errorRate == Total(errorsPerMinute[..]) as real / 60.0
    {
      var total := 0;
      for i := 0 to errorsPerMinute.Length
        invariant total == Total(errorsPerMinute[..i])
      {
        assert errorsPerMinute[..i + 1][..i] == errorsPerMinute[..i];
        total := total + errorsPerMinute[i];
      }
      assert errorsPerMinute[..errorsPerMinute.Length] == errorsPerMinute[..];
      errorRate := total as real / 60.0;
    }
  }

  lemma RecordRefines(ring: seq<nat>, current: nat, log: seq<nat>)
    requires Refines(ring, current, log) && log != []
    ensures Refines(ring[current := ring[current] + 1], current, log[|log| - 1 := log[|log| - 1] + 1])
  {
    var log' := log[|log| - 1 := log[|log| - 1] + 1];
    forall j | 0 <= j < Slots ensures ring[current := ring[current] + 1][Behind(current, j)] == Ago(log', j) {
      assert j > 0 ==> Behind(current, j) != current;
    }
  }
}
