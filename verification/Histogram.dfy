/**
 The latency histogram of pkg/clients/observability_manager.go: observations are
 counted per bucket, and percentiles are answered from the counts alone.  Values are
 reals; rounding of floating point is not modelled.
 */
module Histogram {

  /** The bucket boundaries every histogram is created with. */
  const Buckets: seq<real> := [0.001, 0.01, 0.1, 0.5, 1.0, 5.0, 10.0]

  /** The answer of GetPercentile; `Zero` is its answer without a bucket. */
  datatype Answer = Zero | Bound(boundary: real) | Infinity

  lemma BucketsIncrease()
    ensures forall i, j :: 0 <= i < j < |Buckets| ==> Buckets[i] < Buckets[j]
  {
  }

  // ---------------------------------------------------------------- counting observations

  /** How many observations are at most `b`. */
  function AtMost(obs: seq<real>, b: real): nat {
    if obs == [] then 0 else AtMost(obs[..|obs| - 1], b) + if obs[|obs| - 1] <= b then 1 else 0
  }

  /** The value lies in the interval of bucket `i`: at most its boundary and above the one before. */
  predicate InBucket(v: real, i: nat)
    requires i <= |Buckets|
  {
    (i < |Buckets| ==> v <= Buckets[i]) && (i > 0 ==> v > Buckets[i - 1])
  }

  function Count(obs: seq<real>, i: nat): nat
    requires i <= |Buckets|
  {
    if obs == [] then 0 else Count(obs[..|obs| - 1], i) + if InBucket(obs[|obs| - 1], i) then 1 else 0
  }

  function Sum(obs: seq<real>): real {
    if obs == [] then 0.0 else Sum(obs[..|obs| - 1]) + obs[|obs| - 1]
  }

  /** Observations in the buckets up to and including `i`. */
  function UpTo(obs: seq<real>, i: nat): nat
    requires i <= |Buckets|
  {
    if i < |Buckets| then AtMost(obs, Buckets[i]) else |obs|
  }

  lemma {:induction false} CountsAddUp(obs: seq<real>, i: nat)
    requires i <= |Buckets|
    ensures UpTo(obs, i) == (if i == 0 then 0 else UpTo(obs, i - 1)) + Count(obs, i)
    decreases |obs|
  {
    BucketsIncrease();
    if obs != [] {
      CountsAddUp(obs[..|obs| - 1], i);
    }
  }

  lemma {:induction false} AtMostMonotone(obs: seq<real>, a: real, b: real)
    requires a <= b
    ensures AtMost(obs, a) <= AtMost(obs, b) <= |obs|
    decreases |obs|
  {
    if obs != [] {
      AtMostMonotone(obs[..|obs| - 1], a, b);
    }
  }

  // ---------------------------------------------------------------- percentiles

  function Ceil(x: real): int {
    -((-x).Floor)
  }

  function Target(n: nat, percentile: real): int {
    Ceil(n as real * percentile / 100.0)
  }

  /** The target is the least whole number not below the share of the count. */
  lemma TargetIsCeiling(n: nat, percentile: real)
    ensures Target(n, percentile) as real - 1.0 < n as real * percentile / 100.0 <= Target(n, percentile) as real
  {
  }

  /** The observations at most `b`, by their places. */
  function Places(obs: seq<real>, b: real): set<int> {
    set i | 0 <= i < |obs| && obs[i] <= b
  }

  lemma {:induction false} AtMostIsCount(obs: seq<real>, b: real)
    ensures AtMost(obs, b) == |Places(obs, b)|
    decreases |obs|
  {
    if obs != [] {
      var n := |obs| - 1;
      AtMostIsCount(obs[..n], b);
      assert Places(obs, b) == Places(obs[..n], b) + if obs[n] <= b then {n} else {};
    }
  }

  /** The least boundary that at least `target` observations do not exceed. */
  ghost predicate IsLeastBound(obs: seq<real>, target: int, b: real) {
    && b in Buckets && AtMost(obs, b) >= target
    && forall i :: 0 <= i < |Buckets| && Buckets[i] < b ==> AtMost(obs, Buckets[i]) < target
  }

  ghost predicate Answers(obs: seq<real>, target: int, r: Answer) {
    match r
    case Zero => obs == [] || target > |obs|
    case Bound(b) => obs != [] && IsLeastBound(obs, target, b)
    case Infinity =>
      && obs != [] && target <= |obs|
      && forall i :: 0 <= i < |Buckets| ==> AtMost(obs, Buckets[i]) < target
  }

  /** For percentiles up to 100 the target can be met, so `Zero` is answered only by an empty histogram. */
  lemma TargetWithinCount(n: nat, percentile: real)
    requires percentile <= 100.0
    ensures Target(n, percentile) <= n
  {
    var x := n as real * percentile / 100.0;
    assert n as real * percentile <= n as real * 100.0;
    assert x <= n as real;
    var m: int := n;
    assert -(m as real) <= -x;
    assert (-x).Floor >= -m;
  }

  lemma TargetMonotone(n: nat, p: real, q: real)
    requires p <= q
    ensures Target(n, p) <= Target(n, q)
  {
    assert n as real * p <= n as real * q;
  }

  predicate AnswerLeq(r: Answer, s: Answer) {
    match (r, s)
    case (_, Infinity) => true
    case (Bound(a), Bound(b)) => a <= b
    case (Zero, Zero) => true
    case _ => false
  }

  lemma LeastBoundIsLeast(obs: seq<real>, target: int, b: real, c: real)
    requires IsLeastBound(obs, target, b) && c in Buckets && AtMost(obs, c) >= target
    ensures b <= c
  {
    var i :| 0 <= i < |Buckets| && Buckets[i] == c;
  }

  /** A higher percentile never gets a lower answer. */
  lemma PercentilesMonotone(obs: seq<real>, p: real, q: real, r: Answer, s: Answer)
    requires p <= q <= 100.0
    requires Answers(obs, Target(|obs|, p), r) && Answers(obs, Target(|obs|, q), s)
    ensures AnswerLeq(r, s)
  {
    TargetWithinCount(|obs|, p);
    TargetWithinCount(|obs|, q);
    TargetMonotone(|obs|, p, q);
    if r.Bound? && s.Bound? {
      LeastBoundIsLeast(obs, Target(|obs|, p), r.boundary, s.boundary);
    }
  }

  /** The answer is determined by what it promises. */
  lemma AnswerUnique(obs: seq<real>, target: int, r: Answer, s: Answer)
    requires Answers(obs, target, r) && Answers(obs, target, s)
    ensures r == s
  {
    if r.Bound? && s.Bound? {
      var i :| 0 <= i < |Buckets| && Buckets[i] == r.boundary;
      var j :| 0 <= j < |Buckets| && Buckets[j] == s.boundary;
    } else if r.Bound? {
      var i :| 0 <= i < |Buckets| && Buckets[i] == r.boundary;
      AtMostMonotone(obs, r.boundary, r.boundary);
    } else if s.Bound? {
      var j :| 0 <= j < |Buckets| && Buckets[j] == s.boundary;
      AtMostMonotone(obs, s.boundary, s.boundary);
    }
  }

  class Histogram {
    const counts: array<nat>
    var sum: real
    var count: nat
    ghost var observed: seq<real>

    ghost predicate Valid()
      reads this, counts
    {
      && counts.Length == |Buckets| + 1
      && count == |observed| && sum == Sum(observed)
      && forall i :: 0 <= i < counts.Length ==> counts[i] == Count(observed, i)
    }

    constructor ()
      ensures Valid() && observed == [] && fresh(counts)
    {
      counts := new nat[|Buckets| + 1](_ => 0);
      sum, count, observed := 0.0, 0, [];
    }

    method Observe(value: real)
      requires Valid()
      modifies this`sum, this`count, this`observed, counts
      ensures Valid() && observed == old(observed) + [value]
    {
      ghost var before := observed;
      sum := sum + value;
      count := count + 1;
      observed := observed + [value];
      assert observed[..|before|] == before;
      var i := 0;
      while i < |Buckets|
        invariant 0 <= i <= |Buckets|
        invariant i > 0 ==> value > Buckets[i - 1]
      {
        if value <= Buckets[i] {
          break;
        }
        i := i + 1;
      }
      BucketsIncrease();
      assert forall j :: 0 <= j <= |Buckets| ==> (InBucket(value, j) <==> j == i);
      counts[i] := counts[i] + 1;
    }

    method GetPercentile(percentile: real) returns (r: Answer)
      requires Valid()
      ensures Answers(observed, Target(|observed|, percentile), r)
      ensures percentile <= 100.0 ==> (r == Zero <==> observed == [])
    {
      if count == 0 {
        return Zero;
      }
      var target := Target(count, percentile);
      if percentile <= 100.0 {
        TargetWithinCount(count, percentile);
      }
      var cumulative := 0;
      for i := 0 to counts.Length
        invariant cumulative == if i == 0 then 0 else UpTo(observed, i - 1)
        invariant forall j :: 0 <= j < i ==> UpTo(observed, j) < target
      {
        CountsAddUp(observed, i);
        cumulative := cumulative + counts[i];
        if cumulative >= target {
          BucketsIncrease();
          assert forall j :: 0 <= j < |Buckets| && j < i ==> UpTo(observed, j) == AtMost(observed, Buckets[j]);
          if i < |Buckets| {
            return Bound(Buckets[i]);
          }
          return Infinity;
        }
      }
      return Zero;
    }
  }
}
