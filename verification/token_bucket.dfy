/** The token bucket, over real numbers, and the bound it puts on any window of calls. */
module TokenBuckets {

  /** Refill rate per second and capacity. */
  datatype Quota = Quota(rate: real, burst: real)

  datatype Bucket = Bucket(tokens: real, updatedAt: real)

  function Fresh(q: Quota, now: real): Bucket {
    Bucket(q.burst, now)
  }

  function Refill(q: Quota, b: Bucket, now: real): Bucket {
    if now > b.updatedAt then
      var t := b.tokens + (now - b.updatedAt) * q.rate;
      Bucket(if t > q.burst then q.burst else t, now)
    else b
  }

  /** The bucket after one call at time now, and whether the call is allowed. */
  function Charge(q: Quota, b: Bucket, now: real): (Bucket, bool) {
    if q.rate <= 0.0 then (b, true)
    else
      var r := Refill(q, b, now);
      if r.tokens < 1.0 then (r, false) else (r.(tokens := r.tokens - 1.0), true)
  }

  /** A bucket that is between empty and full. */
  predicate Sane(q: Quota, b: Bucket) {
    0.0 <= b.tokens <= q.burst
  }

  class TokenBucket {
    const ratePerSecond: real
    const burst: real
    var tokens: real
    var updatedAt: real

    function Limit(): Quota {
      Quota(ratePerSecond, burst)
    }

    function State(): Bucket
      reads this
    {
      Bucket(tokens, updatedAt)
    }

    constructor (ratePerMinute: int, burst: int, now: real)
      ensures Limit() == QuotaOf(ratePerMinute, burst)
      ensures State() == Fresh(Limit(), now)
    {
      var capacity := if burst <= 0 then ratePerMinute else burst;
      this.ratePerSecond := ratePerMinute as real / 60.0;
      this.burst := capacity as real;
      this.tokens := capacity as real;
      this.updatedAt := now;
    }

    method Allow(now: real) returns (ok: bool)
      modifies this
      ensures (State(), ok) == Charge(Limit(), old(State()), now)
    {
      if ratePerSecond <= 0.0 {
        return true;
      }
      var elapsed := now - updatedAt;
      if elapsed > 0.0 {
        tokens := tokens + elapsed * ratePerSecond;
        if tokens > burst {
          tokens := burst;
        }
        updatedAt := now;
      }
      if tokens < 1.0 {
        return false;
      }
      tokens := tokens - 1.0;
      return true;
    }
  }

  /** The quota a limiter configured per minute gives each bucket. */
  function QuotaOf(ratePerMinute: int, burst: int): Quota {
    Quota(ratePerMinute as real / 60.0,
          (if burst <= 0 then ratePerMinute else burst) as real)
  }

  lemma RefillGains(q: Quota, b: Bucket, now: real)
    requires q.rate > 0.0 && Sane(q, b) && b.updatedAt <= now
    ensures Sane(q, Refill(q, b, now))
    ensures Refill(q, b, now).tokens <= b.tokens + (now - b.updatedAt) * q.rate
    ensures Refill(q, b, now).updatedAt == now
  {
    var d := now - b.updatedAt;
    var gain := d * q.rate;
    Product(d, q.rate);
    assert d > 0.0 ==> Refill(q, b, now).tokens
                       == if b.tokens + gain > q.burst then q.burst else b.tokens + gain;
  }

  lemma Product(a: real, b: real)
    requires a >= 0.0 && b >= 0.0
    ensures a * b >= 0.0
  {}

  /** A bucket idle for as long as it takes to refill is as good as new. */
  lemma IdleRefills(q: Quota, b: Bucket, now: real, ttl: real)
    requires q.rate > 0.0 && Sane(q, b)
    requires ttl > 0.0 && q.rate * ttl >= q.burst
    requires now - b.updatedAt >= ttl
    ensures Refill(q, b, now) == Fresh(q, now)
  {
    Product(now - b.updatedAt - ttl, q.rate);
    assert (now - b.updatedAt) * q.rate
        == (now - b.updatedAt - ttl) * q.rate + ttl * q.rate;
  }

  // ------------------------------------------------------------- window bound

  ghost predicate Ascending(times: seq<real>) {
    forall i, j :: 0 <= i < j < |times| ==> times[i] <= times[j]
  }

  /** The bucket after calls at the given times and how many of them were allowed. */
  function Calls(q: Quota, b: Bucket, times: seq<real>): (Bucket, nat) {
    if times == [] then (b, 0)
    else
      var (mid, n) := Calls(q, b, times[..|times| - 1]);
      var (end, ok) := Charge(q, mid, times[|times| - 1]);
      (end, if ok then n + 1 else n)
  }

  /** What any window starting at t0 and ending at t may let through. */
  function Allowance(q: Quota, t0: real, t: real): real {
    q.burst + q.rate * (t - t0)
  }

  lemma AllowanceGrows(q: Quota, t0: real, t1: real, t2: real)
    ensures Allowance(q, t0, t2) == Allowance(q, t0, t1) + (t2 - t1) * q.rate
    ensures Allowance(q, t0, t0) == q.burst
  {
    var x, y := t1 - t0, t2 - t1;
    assert q.rate * (x + y) == q.rate * x + q.rate * y;
    assert t2 - t0 == x + y;
  }

  /** One call spends what it is allowed from what it found and what has been refilled. */
  lemma ChargeSpends(q: Quota, b: Bucket, now: real)
    requires q.rate > 0.0 && Sane(q, b) && b.updatedAt <= now
    ensures var (end, ok) := Charge(q, b, now);
            && Sane(q, end) && end.updatedAt == now
            && end.tokens + (if ok then 1.0 else 0.0) <= b.tokens + (now - b.updatedAt) * q.rate
            && end.tokens + (if ok then 1.0 else 0.0) <= q.burst
  {
    RefillGains(q, b, now);
  }

  lemma {:induction false} CallsInvariant(q: Quota, b: Bucket, times: seq<real>)
    requires q.rate > 0.0 && Sane(q, b)
    requires times != [] && Ascending(times) && b.updatedAt <= times[0]
    ensures var (end, n) := Calls(q, b, times);
            && Sane(q, end)
            && end.updatedAt == times[|times| - 1]
            && end.tokens + n as real <= Allowance(q, times[0], times[|times| - 1])
  {
    var last := |times| - 1;
    var front := times[..last];
    if last == 0 {
      assert front == [];
      ChargeSpends(q, b, times[0]);
      AllowanceGrows(q, times[0], times[0], times[0]);
    } else {
      assert front[last - 1] == times[last - 1] && front[0] == times[0];
      CallsInvariant(q, b, front);
      OneMoreCall(q, Calls(q, b, front).0, Calls(q, b, front).1, times[0], times[last]);
    }
  }

  lemma OneMoreCall(q: Quota, mid: Bucket, n: nat, t0: real, t: real)
    requires q.rate > 0.0 && Sane(q, mid) && mid.updatedAt <= t
    requires mid.tokens + n as real <= Allowance(q, t0, mid.updatedAt)
    ensures var (end, ok) := Charge(q, mid, t);
            && Sane(q, end)
            && end.updatedAt == t
            && end.tokens + (if ok then n + 1 else n) as real <= Allowance(q, t0, t)
  {
    ChargeSpends(q, mid, t);
    AllowanceGrows(q, t0, mid.updatedAt, t);
  }

  /** An enabled bucket stays between empty and full, and lets through at most burst plus
      rate times duration of any run of calls, from any state a bucket can be in. */
  lemma WindowBound(q: Quota, b: Bucket, times: seq<real>)
    requires q.rate > 0.0 && Sane(q, b)
    requires times != [] && Ascending(times) && b.updatedAt <= times[0]
    ensures Sane(q, Calls(q, b, times).0)
    ensures Calls(q, b, times).1 as real <= Allowance(q, times[0], times[|times| - 1])
  {
    CallsInvariant(q, b, times);
  }

  // ------------------------------------------------------- in calls and minutes

  /** How many calls a limiter configured so lets through at once: the burst, or if none is set as many
      as it allows per minute. */
  function AtOnce(ratePerMinute: int, burst: int): int {
    if burst > 0 then burst else ratePerMinute
  }

  function Least(a: int, b: int): int {
    if a < b then a else b
  }

  /** n calls at one moment to a bucket with k tokens get as many through as there are tokens. */
  lemma {:induction false} CallsAtOnce(q: Quota, b: Bucket, k: int, t: real, times: seq<real>)
    requires q.rate > 0.0 && k >= 0 && b == Bucket(k as real, t) && forall i :: 0 <= i < |times| ==> times[i] == t
    ensures Calls(q, b, times).1 == Least(|times|, k)
    ensures Calls(q, b, times).0 == Bucket((k - Least(|times|, k)) as real, t)
  {
    if times != [] {
      CallsAtOnce(q, b, k, t, times[..|times| - 1]);
    }
  }

  /** A new limiter lets through exactly the calls of its burst at once. */
  lemma BurstAtOnce(ratePerMinute: int, burst: int, t: real, times: seq<real>)
    requires ratePerMinute > 0 && forall i :: 0 <= i < |times| ==> times[i] == t
    ensures var q := QuotaOf(ratePerMinute, burst);
            Calls(q, Fresh(q, t), times).1 == Least(|times|, AtOnce(ratePerMinute, burst))
  {
    var q := QuotaOf(ratePerMinute, burst);
    CallsAtOnce(q, Fresh(q, t), AtOnce(ratePerMinute, burst), t, times);
  }

  /** One that is used up lets through as many calls as it allows per minute once that minute has
      passed, but never more than its burst. */
  lemma MinuteAfterBurst(ratePerMinute: int, burst: int, t: real, times: seq<real>)
    requires ratePerMinute > 0 && forall i :: 0 <= i < |times| ==> times[i] == t + 60.0
    ensures Calls(QuotaOf(ratePerMinute, burst), Bucket(0.0, t), times).1
            == Least(|times|, Least(ratePerMinute, AtOnce(ratePerMinute, burst)))
  {
    var q, k := QuotaOf(ratePerMinute, burst), Least(ratePerMinute, AtOnce(ratePerMinute, burst));
    if times != [] {
      assert ratePerMinute as real / 60.0 * 60.0 == ratePerMinute as real;
      var full := Bucket(k as real, t + 60.0);
      assert Refill(q, Bucket(0.0, t), t + 60.0) == full;
      SameFromRefilled(q, Bucket(0.0, t), full, t + 60.0, times);
      CallsAtOnce(q, full, k, t + 60.0, times);
    }
  }

  /** Calls at one moment find the bucket as it is refilled then. */
  lemma {:induction false} SameFromRefilled(q: Quota, b: Bucket, full: Bucket, t: real, times: seq<real>)
    requires q.rate > 0.0 && times != [] && forall i :: 0 <= i < |times| ==> times[i] == t
    requires Refill(q, b, t) == full && full.updatedAt == t
    ensures Calls(q, b, times) == Calls(q, full, times)
  {
    var front := times[..|times| - 1];
    if front != [] {
      SameFromRefilled(q, b, full, t, front);
    }
  }
}
