/**
 The per-tenant token bucket of pkg/clients/security_manager.go (CheckRateLimit).
 Times are seconds and token counts are reals; rounding of floating point is not modelled.

 One call reads the clock up to three times: when it creates the bucket, when it
 measures the elapsed time, and when it stamps the refill.
 */
module TokenBucket {
  import opened Common

  datatype Rate = Rate(perMinute: nat, burst: nat)

  datatype Bucket = Bucket(rate: Rate, tokens: real, lastRefill: real)

  datatype Call = Call(created: real, measured: real, stamped: real)

  predicate Ordered(c: Call) {
    c.created <= c.measured <= c.stamped
  }

  /** The tokens that accrue between two times. */
  function Earned(r: Rate, from: real, to: real): real {
    (to - from) * r.perMinute as real / 60.0
  }

  function LoadOrCreate(r: Rate, b: Option<Bucket>, c: Call): Bucket {
    if b.Some? then b.value else Bucket(r, r.burst as real, c.created)
  }

  function Refill(b: Bucket, c: Call): Bucket {
    var level := b.tokens + Earned(b.rate, b.lastRefill, c.measured);
    var cap := b.rate.burst as real;
    Bucket(b.rate, if level < cap then level else cap, c.stamped)
  }

  /** The bucket after the call, and whether the request was admitted. */
  function Take(b: Bucket, c: Call): (Bucket, bool) {
    var full := Refill(b, c);
    if full.tokens >= 1.0 then (full.(tokens := full.tokens - 1.0), true) else (full, false)
  }

  class TenantRateLimiter {
    const enabled: bool
    const defaultRate: Rate
    var tenantLimits: map<string, Bucket>
    var limitExceeded: map<string, nat>

    constructor (enabled: bool, rate: Rate)
      ensures this.enabled == enabled && defaultRate == rate && tenantLimits == map[] && limitExceeded == map[]
    {
      this.enabled, defaultRate, tenantLimits, limitExceeded := enabled, rate, map[], map[];
    }

    function Lookup(tenant: string): Option<Bucket>
      reads this
    {
      if tenant in tenantLimits then Some(tenantLimits[tenant]) else None
    }

    function Exceeded(tenant: string): nat
      reads this
    {
      if tenant in limitExceeded then limitExceeded[tenant] else 0
    }

    method CheckRateLimit(tenant: string, c: Call) returns (ok: bool)
      modifies this
      ensures !enabled ==> ok && tenantLimits == old(tenantLimits) && limitExceeded == old(limitExceeded)
      ensures enabled ==>
                var r := Take(LoadOrCreate(defaultRate, old(Lookup(tenant)), c), c);
                && ok == r.1
                && tenantLimits == old(tenantLimits)[tenant := r.0]
                && Exceeded(tenant) == old(Exceeded(tenant)) + (if ok then 0 else 1)
                && forall other :: other != tenant ==> Exceeded(other) == old(Exceeded(other))
    {
      if !enabled {
        return true;
      }
      if tenant !in tenantLimits {
        tenantLimits := tenantLimits[tenant := Bucket(defaultRate, defaultRate.burst as real, c.created)];
      }
      var limit := tenantLimits[tenant];
      var level := limit.tokens + Earned(limit.rate, limit.lastRefill, c.measured);
      if limit.rate.burst as real <= level {
        level := limit.rate.burst as real;
      }
      limit := limit.(tokens := level, lastRefill := c.stamped);
      ok := limit.tokens >= 1.0;
      if ok {
        limit := limit.(tokens := limit.tokens - 1.0);
      } else {
        limitExceeded := limitExceeded[tenant := (if tenant in limitExceeded then limitExceeded[tenant] else 0) + 1];
      }
      tenantLimits := tenantLimits[tenant := limit];
    }
  }

  // ---------------------------------------------------------------- runs of one tenant

  function Run(r: Rate, calls: seq<Call>): Option<Bucket> {
    if calls == [] then None
    else Some(Take(LoadOrCreate(r, Run(r, calls[..|calls| - 1]), calls[|calls| - 1]), calls[|calls| - 1]).0)
  }

  function AdmittedLast(r: Rate, calls: seq<Call>): bool
    requires calls != []
  {
    Take(LoadOrCreate(r, Run(r, calls[..|calls| - 1]), calls[|calls| - 1]), calls[|calls| - 1]).1
  }

  /** The requests admitted with a clock reading in [a, b]. */
  function AdmittedBetween(r: Rate, calls: seq<Call>, a: real, b: real): nat {
    if calls == [] then 0
    else
      AdmittedBetween(r, calls[..|calls| - 1], a, b)
      + if AdmittedLast(r, calls) && a <= calls[|calls| - 1].measured <= b then 1 else 0
  }

  /** The clock does not go back. */
  predicate Clocked(calls: seq<Call>) {
    && (forall i :: 0 <= i < |calls| ==> Ordered(calls[i]))
    && (forall i :: 0 < i < |calls| ==> calls[i - 1].stamped <= calls[i].created)
  }

  lemma EarnedMonotone(r: Rate, x: real, y: real)
    requires x <= y
    ensures Earned(r, x, y) >= 0.0
  {
    assert (y - x) * r.perMinute as real >= 0.0;
  }

  lemma EarnedAdds(r: Rate, x: real, y: real, z: real)
    ensures Earned(r, x, y) + Earned(r, y, z) == Earned(r, x, z)
  {
    var k := r.perMinute as real;
    assert (y - x) * k + (z - y) * k == (z - x) * k;
  }

  /** One call: what is admitted comes out of the bucket, which gains at most what the time since `since` earns. */
  lemma TakeConserves(b: Bucket, c: Call, since: real)
    requires 0.0 <= b.tokens <= b.rate.burst as real && since <= b.lastRefill <= c.measured
    ensures var r := Take(b, c);
            var used := if r.1 then 1.0 else 0.0;
            && r.0.rate == b.rate && r.0.lastRefill == c.stamped
            && 0.0 <= r.0.tokens
            && r.0.tokens + used <= b.rate.burst as real
            && r.0.tokens + used <= b.tokens + Earned(b.rate, since, c.measured)
  {
    EarnedAdds(b.rate, since, b.lastRefill, c.measured);
    EarnedMonotone(b.rate, since, b.lastRefill);
    EarnedMonotone(b.rate, b.lastRefill, c.measured);
  }

  lemma {:induction false} TokensWithinBurst(r: Rate, calls: seq<Call>)
    requires Clocked(calls) && calls != []
    ensures var b := Run(r, calls).value;
            b.rate == r && b.lastRefill == calls[|calls| - 1].stamped && 0.0 <= b.tokens <= r.burst as real
    decreases |calls|
  {
    var before, c := calls[..|calls| - 1], calls[|calls| - 1];
    if before != [] {
      TokensWithinBurst(r, before);
      assert before[|before| - 1] == calls[|calls| - 2];
    }
    var b := LoadOrCreate(r, Run(r, before), c);
    TakeConserves(b, c, b.lastRefill);
  }

  /** The bound after one more call, from the bound before it. */
  lemma CarryBound(r: Rate, n: real, tokens: real, tokens': real, used: real, a: real, m: real, m': real, b: real)
    requires a <= m' <= b && m <= m' && tokens' >= 0.0
    requires tokens' + used <= r.burst as real
    requires tokens' + used <= tokens + Earned(r, m, m')
    requires m < a ==> n == 0.0
    requires a <= m ==> n + tokens <= r.burst as real + Earned(r, a, m)
    ensures n + used + tokens' <= r.burst as real + Earned(r, a, m')
    ensures n + used <= r.burst as real + Earned(r, a, b)
  {
    EarnedAdds(r, a, m, m');
    EarnedAdds(r, a, m', b);
    EarnedMonotone(r, a, m');
    EarnedMonotone(r, m', b);
  }

  lemma {:induction false} AdmissionsBoundedAux(r: Rate, calls: seq<Call>, a: real, b: real)
    requires Clocked(calls) && a <= b && calls != []
    ensures var n := AdmittedBetween(r, calls, a, b) as real;
            var m := calls[|calls| - 1].measured;
            && n <= r.burst as real + Earned(r, a, b)
            && (a <= m <= b ==> n + Run(r, calls).value.tokens <= r.burst as real + Earned(r, a, m))
            && (m < a ==> n == 0.0)
    decreases |calls|
  {
    var before, c := calls[..|calls| - 1], calls[|calls| - 1];
    EarnedMonotone(r, a, b);
    var b0 := LoadOrCreate(r, Run(r, before), c);
    var m, n := b0.lastRefill, 0.0;
    if before != [] {
      TokensWithinBurst(r, before);
      AdmissionsBoundedAux(r, before, a, b);
      m, n := before[|before| - 1].measured, AdmittedBetween(r, before, a, b) as real;
      assert before[|before| - 1] == calls[|calls| - 2];
    }
    TakeConserves(b0, c, m);
    if a <= c.measured <= b {
      var (b1, ok) := Take(b0, c);
      var used := if ok then 1.0 else 0.0;
      if before == [] && a <= m {
        EarnedMonotone(r, a, m);
      }
      CarryBound(r, n, b0.tokens, b1.tokens, used, a, m, c.measured, b);
    }
  }

  /**
   In every run, between any two times at most BurstSize requests plus the time's
   worth at RequestsPerMinute are admitted.
   */
  lemma AdmissionsBounded(r: Rate, calls: seq<Call>, a: real, b: real)
    requires Clocked(calls) && a <= b
    ensures AdmittedBetween(r, calls, a, b) as real <= r.burst as real + (b - a) * r.perMinute as real / 60.0
  {
    assert Earned(r, a, b) == (b - a) * r.perMinute as real / 60.0;
    EarnedMonotone(r, a, b);
    if calls != [] {
      AdmissionsBoundedAux(r, calls, a, b);
    }
  }

  /** A tenant that keeps away for one request's worth of time is admitted, whatever it did before. */
  lemma PatientTenantAdmitted(r: Rate, calls: seq<Call>)
    requires Clocked(calls) && |calls| >= 2 && r.burst >= 1
    requires Earned(r, calls[|calls| - 2].stamped, calls[|calls| - 1].measured) >= 1.0
    ensures AdmittedLast(r, calls)
  {
    var before := calls[..|calls| - 1];
    assert before[|before| - 1] == calls[|calls| - 2];
    TokensWithinBurst(r, before);
  }

  /** The last call finds the bucket full: it is the tenant's first, or enough was left and earned since to fill it. */
  predicate FindsFull(r: Rate, calls: seq<Call>)
    requires calls != []
  {
    var n := |calls| - 1;
    n == 0 || Run(r, calls[..n]).value.tokens + Earned(r, calls[n - 1].stamped, calls[n].measured) >= r.burst as real
  }

  /** Requests admitted from the call at `i` on. */
  function AdmittedFrom(r: Rate, calls: seq<Call>, i: nat): nat {
    if |calls| <= i then 0
    else AdmittedFrom(r, calls[..|calls| - 1], i) + if AdmittedLast(r, calls) then 1 else 0
  }

  /** The tokens earned between the calls from the one at `i` on. */
  function EarnedFrom(r: Rate, calls: seq<Call>, i: nat): real {
    if |calls| <= i + 1 then 0.0
    else EarnedFrom(r, calls[..|calls| - 1], i) + Earned(r, calls[|calls| - 2].stamped, calls[|calls| - 1].measured)
  }

  /** Since the bucket was last full, what it holds is the burst and everything earned, less what was admitted. */
  lemma {:induction false} NothingIsLost(r: Rate, calls: seq<Call>) returns (i: nat)
    requires Clocked(calls) && calls != []
    ensures i < |calls| && FindsFull(r, calls[..i + 1])
    ensures Run(r, calls).value.tokens == r.burst as real + EarnedFrom(r, calls, i) - AdmittedFrom(r, calls, i) as real
    decreases |calls|
  {
    var n := |calls| - 1;
    var before, c := calls[..n], calls[n];
    assert calls[..n + 1] == calls;
    if n > 0 {
      TokensWithinBurst(r, before);
    }
    if FindsFull(r, calls) {
      i := n;
      EarnedMonotone(r, c.created, c.measured);
      assert AdmittedFrom(r, before, n) == 0;
    } else {
      i := NothingIsLost(r, before);
      assert before[..i + 1] == calls[..i + 1];
      assert before[|before| - 1] == calls[n - 1];
    }
  }

  /**
   A refusal is justified: since the bucket was last full, more was admitted than the
   burst and everything earned since, less one, so that not one whole token was left.
   */
  lemma RefusalJustified(r: Rate, calls: seq<Call>) returns (i: nat)
    requires Clocked(calls) && calls != [] && !AdmittedLast(r, calls)
    ensures i < |calls| && FindsFull(r, calls[..i + 1])
    ensures AdmittedFrom(r, calls, i) as real > r.burst as real + EarnedFrom(r, calls, i) - 1.0
  {
    i := NothingIsLost(r, calls);
  }

  lemma FullCallAdmitted(r: Rate, calls: seq<Call>)
    requires Clocked(calls) && calls != [] && FindsFull(r, calls) && r.burst >= 1
    ensures AdmittedLast(r, calls) && Run(r, calls).value.tokens == r.burst as real - 1.0
  {
    var n := |calls| - 1;
    if n > 0 {
      TokensWithinBurst(r, calls[..n]);
      assert calls[..n][n - 1] == calls[n - 1];
    }
    EarnedMonotone(r, calls[n].created, calls[n].measured);
  }

  lemma CoveredCallAdmitted(r: Rate, calls: seq<Call>, left: nat)
    requires Clocked(calls) && |calls| >= 2 && 1 <= left <= r.burst
    requires Run(r, calls[..|calls| - 1]).value.tokens >= left as real
    ensures AdmittedLast(r, calls) && Run(r, calls).value.tokens >= left as real - 1.0
  {
    var n := |calls| - 1;
    TokensWithinBurst(r, calls[..n]);
    assert calls[..n][n - 1] == calls[n - 1];
    EarnedMonotone(r, calls[n - 1].stamped, calls[n].measured);
  }

  /** A new tenant, or one whose bucket is full again, is admitted BurstSize times in a row, however fast it asks. */
  lemma {:induction false} BurstAdmitted(r: Rate, calls: seq<Call>, more: seq<Call>)
    requires Clocked(calls + more) && more != [] && |more| <= r.burst && FindsFull(r, calls + more[..1])
    ensures AdmittedLast(r, calls + more)
    ensures Run(r, calls + more).value.tokens >= r.burst as real - |more| as real
    decreases |more|
  {
    var all := calls + more;
    if |more| == 1 {
      assert more[..1] == more;
      FullCallAdmitted(r, all);
    } else {
      var init := more[..|more| - 1];
      assert all[..|all| - 1] == calls + init && init[..1] == more[..1];
      ClockedPrefix(all, |all| - 1);
      BurstAdmitted(r, calls, init);
      CoveredCallAdmitted(r, all, r.burst - |init|);
    }
  }

  lemma ClockedPrefix(calls: seq<Call>, n: nat)
    requires Clocked(calls) && n <= |calls|
    ensures Clocked(calls[..n])
  {
  }

  // ---------------------------------------------------------------- tenants do not interfere

  function RunAll(r: Rate, m: map<string, Bucket>, calls: seq<(string, Call)>): map<string, Bucket>
    decreases |calls|
  {
    if calls == [] then m
    else
      var before := RunAll(r, m, calls[..|calls| - 1]);
      var (who, c) := calls[|calls| - 1];
      before[who := Take(LoadOrCreate(r, if who in before then Some(before[who]) else None, c), c).0]
  }

  function Only(calls: seq<(string, Call)>, tenant: string): seq<Call> {
    if calls == [] then []
    else
      var (who, c) := calls[|calls| - 1];
      Only(calls[..|calls| - 1], tenant) + if who == tenant then [c] else []
  }

  /** Whatever other tenants do, a tenant's bucket is that of a run of its own calls alone. */
  lemma {:induction false} TenantsIndependent(r: Rate, calls: seq<(string, Call)>, tenant: string)
    ensures var all := RunAll(r, map[], calls);
            Run(r, Only(calls, tenant)) == if tenant in all then Some(all[tenant]) else None
    decreases |calls|
  {
    if calls != [] {
      TenantsIndependent(r, calls[..|calls| - 1], tenant);
      var (who, c) := calls[|calls| - 1];
      var before := Only(calls[..|calls| - 1], tenant);
      if who == tenant {
        assert (before + [c])[..|before|] == before;
      } else {
        assert Only(calls, tenant) == before;
      }
    }
  }

  /** The requests of one tenant admitted with a clock reading in [a, b], in a run of all tenants. */
  function TenantAdmitted(r: Rate, calls: seq<(string, Call)>, tenant: string, a: real, b: real): nat {
    if calls == [] then 0
    else
      var before := RunAll(r, map[], calls[..|calls| - 1]);
      var (who, c) := calls[|calls| - 1];
      var admitted := Take(LoadOrCreate(r, if who in before then Some(before[who]) else None, c), c).1;
      TenantAdmitted(r, calls[..|calls| - 1], tenant, a, b)
      + if who == tenant && admitted && a <= c.measured <= b then 1 else 0
  }

  /** The clock does not go back over the calls of all tenants, which the limiter's lock puts in a row. */
  ghost predicate AllClocked(calls: seq<(string, Call)>) {
    && (forall i :: 0 <= i < |calls| ==> Ordered(calls[i].1))
    && (forall i, j :: 0 <= i < j < |calls| ==> calls[i].1.stamped <= calls[j].1.created)
  }

  lemma {:induction false} OnlyLast(calls: seq<(string, Call)>, tenant: string) returns (i: nat)
    ensures var own := Only(calls, tenant); own != [] ==> i < |calls| && calls[i].1 == own[|own| - 1]
    decreases |calls|
  {
    i := 0;
    if calls != [] {
      var n := |calls| - 1;
      if calls[n].0 == tenant {
        i := n;
      } else {
        assert Only(calls, tenant) == Only(calls[..n], tenant);
        i := OnlyLast(calls[..n], tenant);
      }
    }
  }

  lemma ClockedSnoc(calls: seq<Call>, c: Call)
    requires Clocked(calls) && Ordered(c) && (calls != [] ==> calls[|calls| - 1].stamped <= c.created)
    ensures Clocked(calls + [c])
  {
  }

  lemma {:induction false} OnlyClocked(calls: seq<(string, Call)>, tenant: string)
    requires AllClocked(calls)
    ensures Clocked(Only(calls, tenant))
    decreases |calls|
  {
    if calls != [] {
      var n := |calls| - 1;
      var before := Only(calls[..n], tenant);
      OnlyClocked(calls[..n], tenant);
      if calls[n].0 == tenant {
        var i := OnlyLast(calls[..n], tenant);
        assert before != [] ==> calls[i].1.stamped <= calls[n].1.created;
        ClockedSnoc(before, calls[n].1);
      } else {
        assert Only(calls, tenant) == before;
      }
    }
  }

  lemma {:induction false} TenantAdmittedAlone(r: Rate, calls: seq<(string, Call)>, tenant: string, a: real, b: real)
    ensures TenantAdmitted(r, calls, tenant, a, b) == AdmittedBetween(r, Only(calls, tenant), a, b)
    decreases |calls|
  {
    if calls != [] {
      var n := |calls| - 1;
      var before := Only(calls[..n], tenant);
      TenantAdmittedAlone(r, calls[..n], tenant, a, b);
      TenantsIndependent(r, calls[..n], tenant);
      if calls[n].0 == tenant {
        assert Only(calls, tenant)[..|before|] == before;
      } else {
        assert Only(calls, tenant) == before;
      }
    }
  }

  /** In every run of all tenants, each one stays within its own bound. */
  lemma TenantAdmissionsBounded(r: Rate, calls: seq<(string, Call)>, tenant: string, a: real, b: real)
    requires AllClocked(calls) && a <= b
    ensures TenantAdmitted(r, calls, tenant, a, b) as real <= r.burst as real + (b - a) * r.perMinute as real / 60.0
  {
    OnlyClocked(calls, tenant);
    TenantAdmittedAlone(r, calls, tenant, a, b);
    AdmissionsBounded(r, Only(calls, tenant), a, b);
  }
}
