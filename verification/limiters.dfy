/** The limiters over the bounded bucket map, each call proved to be one step on its value. */
module Limiters {
  import opened TokenBuckets
  import opened Lru
  import opened EvictingMap

  /** One request: touch the key's bucket, then charge it. */
  function Admit(b: Bounds, q: Quota, slots: seq<Slot>, key: string, now: real): (seq<Slot>, bool) {
    var touched := Touch(b, slots, key, now, Fresh(q, now));
    var (charged, ok) := Charge(q, touched[0].bucket, now);
    (touched[0 := touched[0].(bucket := charged)], ok)
  }

  /** Gets or creates the bucket for key and charges it. */
  method ChargeKey(m: EvictingBucketMap, key: string, now: real, ratePerMinute: int, burst: int)
    returns (ok: bool)
    requires m.Valid() && m.quota == QuotaOf(ratePerMinute, burst)
    modifies m.Repr
    ensures m.Valid()
    ensures (m.slots, ok) == Admit(m.bounds, m.quota, old(m.slots), key, now)
    ensures fresh(m.Repr - old(m.Repr))
  {
    var b := m.GetOrCreate(key, now, ratePerMinute, burst);
    ok := ChargeFront(m, b, now);
  }

  /** Charges the bucket at the front of the list, outside the map. */
  method ChargeFront(m: EvictingBucketMap, b: TokenBucket, now: real) returns (ok: bool)
    requires m.Valid() && m.order != [] && m.order[0].bucket == b
    modifies m`slots, b
    ensures m.Valid() && m.Repr == old(m.Repr)
    ensures var (charged, allowed) := Charge(m.quota, old(m.slots)[0].bucket, now);
            ok == allowed && m.slots == old(m.slots)[0 := old(m.slots)[0].(bucket := charged)]
  {
    ok := b.Allow(now);
    m.slots := m.slots[0 := m.slots[0].(bucket := b.State())];
    assert forall i :: 0 < i < |m.order| ==> m.order[i].bucket.State() == old(m.order[i].bucket.State());
  }

  class PerIPLimiter {
    const requestRatePerMinute: int
    const requestBurst: int
    const notFoundRatePerMinute: int
    const requests: EvictingBucketMap
    const notFounds: EvictingBucketMap

    ghost predicate Valid()
      reads requests, requests.Repr, notFounds, notFounds.Repr
    {
      && requests.Repr !! notFounds.Repr
      && requests.Valid() && notFounds.Valid()
      && requests.quota == QuotaOf(requestRatePerMinute, requestBurst)
      && notFounds.quota == QuotaOf(notFoundRatePerMinute, notFoundRatePerMinute)
    }

    constructor (requestRatePerMinute: int, requestBurst: int, notFoundRatePerMinute: int,
                 maxEntries: int, ttl: real)
      ensures Valid() && fresh(requests.Repr) && fresh(notFounds.Repr)
      ensures requests.slots == [] && notFounds.slots == []
      ensures requests.bounds == notFounds.bounds
              == Bounds(if maxEntries <= 0 then DEFAULT_MAX_ENTRIES else maxEntries,
                        if ttl <= 0.0 then DEFAULT_TTL else ttl)
      ensures requests.bounds.maxEntries == (if maxEntries > 0 then maxEntries else 20000)
      ensures requests.bounds.ttl == (if ttl > 0.0 then ttl else 30.0 * 60.0)
      ensures requests.quota.burst == AtOnce(requestRatePerMinute, requestBurst) as real
      ensures notFounds.quota.burst == notFoundRatePerMinute as real
      ensures requests.quota.rate * 60.0 == requestRatePerMinute as real
      ensures notFounds.quota.rate * 60.0 == notFoundRatePerMinute as real
    {
      var cap := if maxEntries <= 0 then DEFAULT_MAX_ENTRIES else maxEntries;
      var idle := if ttl <= 0.0 then DEFAULT_TTL else ttl;
      this.requestRatePerMinute := requestRatePerMinute;
      this.requestBurst := requestBurst;
      this.notFoundRatePerMinute := notFoundRatePerMinute;
      requests := new EvictingBucketMap(cap, idle, QuotaOf(requestRatePerMinute, requestBurst));
      notFounds := new EvictingBucketMap(cap, idle, QuotaOf(notFoundRatePerMinute, notFoundRatePerMinute));
    }

    method AllowRequest(ip: string, now: real) returns (ok: bool)
      requires Valid()
      modifies requests.Repr
      ensures Valid() && notFounds.slots == old(notFounds.slots)
      ensures if requestRatePerMinute <= 0 then ok && requests.slots == old(requests.slots)
              else (requests.slots, ok)
                   == Admit(requests.bounds, requests.quota, old(requests.slots), ip, now)
    {
      if requestRatePerMinute <= 0 {
        return true;
      }
      ok := ChargeKey(requests, ip, now, requestRatePerMinute, requestBurst);
    }

    method AllowNotFound(ip: string, now: real) returns (ok: bool)
      requires Valid()
      modifies notFounds.Repr
      ensures Valid() && requests.slots == old(requests.slots)
      ensures if notFoundRatePerMinute <= 0 then ok && notFounds.slots == old(notFounds.slots)
              else (notFounds.slots, ok)
                   == Admit(notFounds.bounds, notFounds.quota, old(notFounds.slots), ip, now)
    {
      if notFoundRatePerMinute <= 0 {
        return true;
      }
      ok := ChargeKey(notFounds, ip, now, notFoundRatePerMinute, notFoundRatePerMinute);
    }
  }

  class AuthThrottle {
    const ratePerMinute: int
    const burst: int
    const buckets: EvictingBucketMap

    ghost predicate Valid()
      reads buckets, buckets.Repr
    {
      buckets.Valid() && buckets.quota == QuotaOf(ratePerMinute, burst)
    }

    constructor (ratePerMinute: int, burst: int, maxEntries: int, ttl: real)
      ensures Valid() && fresh(buckets.Repr) && buckets.slots == []
      ensures buckets.quota == QuotaOf(ratePerMinute, burst)
      ensures buckets.bounds.maxEntries == (if maxEntries > 0 then maxEntries else 20000)
      ensures buckets.bounds.ttl == (if ttl > 0.0 then ttl else 30.0 * 60.0)
      ensures buckets.quota.burst == AtOnce(ratePerMinute, burst) as real
      ensures buckets.quota.rate * 60.0 == ratePerMinute as real
    {
      var capacity := if burst <= 0 then ratePerMinute else burst;
      this.ratePerMinute := ratePerMinute;
      this.burst := capacity;
      buckets := new EvictingBucketMap(if maxEntries <= 0 then DEFAULT_MAX_ENTRIES else maxEntries,
                                       if ttl <= 0.0 then DEFAULT_TTL else ttl,
                                       QuotaOf(ratePerMinute, burst));
    }

    method FailAllowed(ip: string, now: real) returns (ok: bool)
      requires Valid()
      modifies buckets.Repr
      ensures Valid()
      ensures if ratePerMinute <= 0 then ok && buckets.slots == old(buckets.slots)
              else (buckets.slots, ok)
                   == Admit(buckets.bounds, buckets.quota, old(buckets.slots), ip, now)
    {
      if ratePerMinute <= 0 {
        return true;
      }
      ok := ChargeKey(buckets, ip, now, ratePerMinute, burst);
    }
  }
}
