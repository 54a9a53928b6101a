/** The bounded limiter against the one it replaces, which never evicts: where they agree,
    where they do not, and what each key is let through. */
module LimiterTheorems {
  import opened Sorting
  import opened Text
  import opened TokenBuckets
  import opened Lru
  import opened Limiters
  import opened EvictingMap

  datatype Request = Request(key: string, time: real)

  ghost predicate InOrder(reqs: seq<Request>) {
    forall i, j :: 0 <= i <= j < |reqs| ==> reqs[i].time <= reqs[j].time
  }

  // --------------------------------------------------------------------- runs

  /** The bounded limiter's list after the first n requests. */
  function SlotsAt(b: Bounds, q: Quota, reqs: seq<Request>, n: nat): seq<Slot>
    requires n <= |reqs|
  {
    if n == 0 then []
    else Admit(b, q, SlotsAt(b, q, reqs, n - 1), reqs[n - 1].key, reqs[n - 1].time).0
  }

  /** Its answer to request i. */
  predicate BoundedAnswer(b: Bounds, q: Quota, reqs: seq<Request>, i: nat)
    requires i < |reqs|
  {
    Admit(b, q, SlotsAt(b, q, reqs, i), reqs[i].key, reqs[i].time).1
  }

  /** The bucket the unbounded limiter charges for r: the key's own, or a full one. */
  function BucketFor(q: Quota, buckets: map<string, Bucket>, r: Request): Bucket {
    if r.key in buckets then buckets[r.key] else Fresh(q, r.time)
  }

  /** The unbounded limiter's buckets after the first n requests. */
  function BucketsAt(q: Quota, reqs: seq<Request>, n: nat): map<string, Bucket>
    requires n <= |reqs|
  {
    if n == 0 then map[]
    else
      var buckets, r := BucketsAt(q, reqs, n - 1), reqs[n - 1];
      buckets[r.key := Charge(q, BucketFor(q, buckets, r), r.time).0]
  }

  predicate UnboundedAnswer(q: Quota, reqs: seq<Request>, i: nat)
    requires i < |reqs|
  {
    Charge(q, BucketFor(q, BucketsAt(q, reqs, i), reqs[i]), reqs[i].time).1
  }

  // ---------------------------------------------------------------- soundness

  lemma AdmitKeepsOrder(b: Bounds, q: Quota, slots: seq<Slot>, r: Request, before: real)
    requires DistinctKeys(slots) && WithinCap(b, slots) && ByRecency(slots, before)
    requires before <= r.time
    ensures var next := Admit(b, q, slots, r.key, r.time).0;
            DistinctKeys(next) && WithinCap(b, next) && ByRecency(next, r.time)
  {
    TouchKeepsOrder(b, slots, r.key, r.time, Fresh(q, r.time));
  }

  ghost predicate OrderKept(b: Bounds, q: Quota, reqs: seq<Request>, n: nat) {
    n <= |reqs| ==>
      var slots := SlotsAt(b, q, reqs, n);
      && DistinctKeys(slots) && WithinCap(b, slots)
      && (n > 0 ==> ByRecency(slots, reqs[n - 1].time))
  }

  lemma OrderStep(b: Bounds, q: Quota, reqs: seq<Request>, n: nat)
    requires InOrder(reqs) && n < |reqs| && OrderKept(b, q, reqs, n)
    ensures OrderKept(b, q, reqs, n + 1)
  {
    AdmitKeepsOrder(b, q, SlotsAt(b, q, reqs, n), reqs[n], if n == 0 then reqs[0].time else reqs[n - 1].time);
  }

  /** After every request the list is in recency order, its keys are distinct and it is
      within the cap. */
  lemma BoundedKeepsOrder(b: Bounds, q: Quota, reqs: seq<Request>, n: nat)
    requires InOrder(reqs) && n <= |reqs|
    ensures var slots := SlotsAt(b, q, reqs, n);
            && DistinctKeys(slots) && WithinCap(b, slots)
            && (n > 0 ==> ByRecency(slots, reqs[n - 1].time))
  {
    forall m: nat | m < n && OrderKept(b, q, reqs, m)
      ensures OrderKept(b, q, reqs, m + 1)
    {
      OrderStep(b, q, reqs, m);
    }
    Ascend((m: nat) => OrderKept(b, q, reqs, m), n);
  }

  // --------------------------------------------------------------- refinement

  /** Request i is the last one for k among the first n. */
  ghost predicate LastRequest(reqs: seq<Request>, n: nat, k: string, i: int)
    requires n <= |reqs|
  {
    0 <= i < n && reqs[i].key == k && forall j :: i < j < n ==> reqs[j].key != k
  }

  /** The keys requested strictly between positions i and j. */
  function KeysBetween(reqs: seq<Request>, i: int, j: int): set<string>
    requires -1 <= i && j <= |reqs|
  {
    set t | i < t < j :: reqs[t].key
  }

  /** Between each two consecutive requests for k fewer than maxEntries distinct keys are
      requested. */
  ghost predicate Light(b: Bounds, reqs: seq<Request>, k: string) {
    b.maxEntries > 0 ==>
      forall i, j :: 0 <= i < j < |reqs| && reqs[j].key == k && LastRequest(reqs, j, k, i) ==>
        |KeysBetween(reqs, i, j)| < b.maxEntries
  }

  /** An idle bucket is full again no later than its slot may be dropped. */
  predicate Refills(b: Bounds, q: Quota) {
    b.ttl > 0.0 ==> q.rate * b.ttl >= q.burst
  }

  /** The two limiters answer every request for k alike. */
  ghost predicate Agree(b: Bounds, q: Quota, reqs: seq<Request>, k: string) {
    forall i :: 0 <= i < |reqs| && reqs[i].key == k ==>
      BoundedAnswer(b, q, reqs, i) == UnboundedAnswer(q, reqs, i)
  }

  /** Where key k, last requested at i, is after n requests: in a slot that request stamped,
      with only keys requested since in front of it; or dropped after an idle ttl, or after
      maxEntries other keys. */
  ghost predicate Standing(b: Bounds, reqs: seq<Request>, n: nat, slots: seq<Slot>, k: string, i: int)
    requires 0 <= i < n <= |reqs|
  {
    var p := Position(slots, k);
    if p < |slots| then
      slots[p].lastAccess == reqs[i].time && Lru.Front(slots, p) <= KeysBetween(reqs, i, n)
    else
      || (b.ttl > 0.0 && reqs[n - 1].time - reqs[i].time >= b.ttl)
      || (b.maxEntries > 0 && |KeysBetween(reqs, i, n)| >= b.maxEntries)
  }

  /** How the limiters stand with key k: its slot, while it is there, holds the very bucket. */
  ghost predicate Related(b: Bounds, q: Quota, reqs: seq<Request>, n: nat, slots: seq<Slot>,
                          bucket: Bucket, k: string, i: int)
    requires 0 <= i < n <= |reqs|
  {
    var p := Position(slots, k);
    && Sane(q, bucket) && bucket.updatedAt == reqs[i].time
    && Standing(b, reqs, n, slots, k, i)
    && (p < |slots| ==> slots[p].bucket == bucket)
  }

  ghost predicate Tracked(b: Bounds, q: Quota, reqs: seq<Request>, n: nat, slots: seq<Slot>,
                          buckets: map<string, Bucket>, k: string)
    requires n <= |reqs|
  {
    if k in buckets then
      exists i :: LastRequest(reqs, n, k, i) && Related(b, q, reqs, n, slots, buckets[k], k, i)
    else
      !Has(slots, k) && forall i :: 0 <= i < n ==> reqs[i].key != k
  }

  lemma BetweenGrows(reqs: seq<Request>, i: int, n: nat)
    requires 0 <= i < n < |reqs|
    ensures KeysBetween(reqs, i, n + 1) == KeysBetween(reqs, i, n) + {reqs[n].key}
    ensures |KeysBetween(reqs, i, n + 1)| >= |KeysBetween(reqs, i, n)|
  {
    Subset(KeysBetween(reqs, i, n), KeysBetween(reqs, i, n + 1));
  }

  lemma {:induction false} Subset<T>(a: set<T>, c: set<T>)
    requires a <= c
    ensures |a| <= |c|
  {
    if a != {} {
      var x :| x in a;
      Subset(a - {x}, c - {x});
    }
  }

  lemma {:induction false} FrontSize(slots: seq<Slot>, p: nat)
    requires DistinctKeys(slots) && p <= |slots|
    ensures |Lru.Front(slots, p)| == p
  {
    if p > 0 {
      FrontSize(slots, p - 1);
      var rest, last := Lru.Front(slots, p - 1), slots[p - 1].key;
      assert last !in rest;
      assert Lru.Front(slots, p) == rest + {last};
    }
  }

  lemma ExpireHas(b: Bounds, slots: seq<Slot>, now: real, k: string)
    ensures Has(Expire(b, slots, now), k)
            <==> Position(slots, k) < |Expire(b, slots, now)|
    ensures Has(Expire(b, slots, now), k) ==>
              Position(Expire(b, slots, now), k) == Position(slots, k)
  {
    var live, p := Expire(b, slots, now), Position(slots, k);
    Located(slots, k);
    if p < |live| {
      UniquePosition(live, k, p);
    } else {
      assert forall i :: 0 <= i < |live| ==> live[i] == slots[i];
    }
  }

  /** Charging the front slot leaves every key where it was. */
  lemma ChargeKeepsKeys(slots: seq<Slot>, c: Bucket, k: string)
    requires slots != []
    ensures var next := slots[0 := slots[0].(bucket := c)];
            && Position(next, k) == Position(slots, k)
            && forall p :: 0 <= p <= |slots| ==> Lru.Front(next, p) == Lru.Front(slots, p)
  {
    var next := slots[0 := slots[0].(bucket := c)];
    assert forall i :: 0 <= i < |slots| ==> next[i].key == slots[i].key;
    var p := Position(slots, k);
    Located(slots, k);
    if p < |slots| {
      UniquePosition(next, k, p);
    }
  }

  /** A request for another key may drop k, but never resurrects or changes its slot. */
  lemma OtherKeyStanding(b: Bounds, reqs: seq<Request>, n: nat, slots: seq<Slot>, added: Bucket,
                         k: string, i: int)
    requires InOrder(reqs) && DistinctKeys(slots)
    requires 0 <= i < n < |reqs| && reqs[n].key != k
    requires Standing(b, reqs, n, slots, k, i)
    ensures var touched := Touch(b, slots, reqs[n].key, reqs[n].time, added);
            var p, t := Position(slots, k), Position(touched, k);
            && Standing(b, reqs, n + 1, touched, k, i)
            && (t < |touched| ==> p < |slots| && touched[t].bucket == slots[p].bucket)
  {
    var r, p := reqs[n], Position(slots, k);
    var touched := Touch(b, slots, r.key, r.time, added);
    ExpireHas(b, slots, r.time, k);
    BetweenGrows(reqs, i, n);
    if p < |Expire(b, slots, r.time)| {
      TouchOtherPresent(b, slots, r.key, r.time, added, k);
      if Position(touched, k) == |touched| {
        FrontSize(slots, p);
        Subset(Lru.Front(slots, p) + {r.key}, KeysBetween(reqs, i, n + 1));
      }
    } else {
      TouchOtherAbsent(b, slots, r.key, r.time, added, k);
    }
  }

  lemma ChargeKeepsStanding(b: Bounds, reqs: seq<Request>, n: nat, slots: seq<Slot>, c: Bucket,
                            k: string, i: int)
    requires 0 <= i < n <= |reqs| && slots != []
    requires Standing(b, reqs, n, slots, k, i)
    ensures Standing(b, reqs, n, slots[0 := slots[0].(bucket := c)], k, i)
  {
    ChargeKeepsKeys(slots, c, k);
  }

  lemma AdmitKeepsStanding(b: Bounds, q: Quota, reqs: seq<Request>, n: nat, slots: seq<Slot>,
                           k: string, i: int)
    requires InOrder(reqs) && DistinctKeys(slots)
    requires 0 <= i < n < |reqs| && reqs[n].key != k
    requires Standing(b, reqs, n, slots, k, i)
    ensures Standing(b, reqs, n + 1, Admit(b, q, slots, reqs[n].key, reqs[n].time).0, k, i)
  {
    var r := reqs[n];
    OtherKeyStanding(b, reqs, n, slots, Fresh(q, r.time), k, i);
    var touched := Touch(b, slots, r.key, r.time, Fresh(q, r.time));
    ChargeKeepsStanding(b, reqs, n + 1, touched, Charge(q, touched[0].bucket, r.time).0, k, i);
  }

  /** The key just requested is at the front. */
  lemma OwnKeyStanding(b: Bounds, q: Quota, reqs: seq<Request>, n: nat, slots: seq<Slot>)
    requires n < |reqs|
    ensures var next := Admit(b, q, slots, reqs[n].key, reqs[n].time).0;
            && Position(next, reqs[n].key) == 0 && next != []
            && Standing(b, reqs, n + 1, next, reqs[n].key, n)
  {
    UniquePosition(Admit(b, q, slots, reqs[n].key, reqs[n].time).0, reqs[n].key, 0);
  }

  ghost predicate StandingBy(b: Bounds, q: Quota, reqs: seq<Request>, n: nat, k: string, i: int) {
    0 <= i < n <= |reqs| ==> Standing(b, reqs, n, SlotsAt(b, q, reqs, n), k, i)
  }

  lemma StandingStart(b: Bounds, q: Quota, reqs: seq<Request>, k: string, n: nat)
    requires n < |reqs| && reqs[n].key == k
    ensures StandingBy(b, q, reqs, n + 1, k, n)
  {
    OwnKeyStanding(b, q, reqs, n, SlotsAt(b, q, reqs, n));
  }

  lemma StandingStep(b: Bounds, q: Quota, reqs: seq<Request>, n: nat, k: string, i: int)
    requires InOrder(reqs) && 0 <= i < n < |reqs| && reqs[n].key != k
    requires StandingBy(b, q, reqs, n, k, i)
    ensures StandingBy(b, q, reqs, n + 1, k, i)
  {
    BoundedKeepsOrder(b, q, reqs, n);
    AdmitKeepsStanding(b, q, reqs, n, SlotsAt(b, q, reqs, n), k, i);
  }

  /** Over any run under any bounds and any quota a key is dropped only after an idle ttl, or
      after at least maxEntries distinct other keys were requested since its own last request;
      until then its slot carries that request's stamp and only such keys stand before it. */
  lemma DroppedOnlyFor(b: Bounds, q: Quota, reqs: seq<Request>, n: nat, k: string, i: int)
    requires InOrder(reqs) && n <= |reqs| && LastRequest(reqs, n, k, i)
    ensures Standing(b, reqs, n, SlotsAt(b, q, reqs, n), k, i)
  {
    forall m: nat | m < n && StandingBy(b, q, reqs, m, k, i)
      ensures StandingBy(b, q, reqs, m + 1, k, i)
    {
      if m == i {
        StandingStart(b, q, reqs, k, i);
      } else if m > i {
        StandingStep(b, q, reqs, m, k, i);
      }
    }
    Ascend((m: nat) => StandingBy(b, q, reqs, m, k, i), n);
  }

  /** A request for another key keeps the relation. */
  lemma OtherKeyRelated(b: Bounds, q: Quota, reqs: seq<Request>, n: nat, slots: seq<Slot>,
                        bucket: Bucket, k: string, i: int)
    requires InOrder(reqs) && DistinctKeys(slots)
    requires 0 <= i < n < |reqs| && reqs[n].key != k
    requires Related(b, q, reqs, n, slots, bucket, k, i)
    ensures Related(b, q, reqs, n + 1, Touch(b, slots, reqs[n].key, reqs[n].time, Fresh(q, reqs[n].time)),
                    bucket, k, i)
  {
    OtherKeyStanding(b, reqs, n, slots, Fresh(q, reqs[n].time), k, i);
  }

  lemma OtherKeyStep(b: Bounds, q: Quota, reqs: seq<Request>, n: nat, slots: seq<Slot>,
                     buckets: map<string, Bucket>, c: Bucket, k: string)
    requires InOrder(reqs) && DistinctKeys(slots)
    requires n < |reqs| && reqs[n].key != k
    requires Tracked(b, q, reqs, n, slots, buckets, k)
    ensures Tracked(b, q, reqs, n + 1, Admit(b, q, slots, reqs[n].key, reqs[n].time).0,
                    buckets[reqs[n].key := c], k)
  {
    var r := reqs[n];
    var touched := Touch(b, slots, r.key, r.time, Fresh(q, r.time));
    ChargeKeepsKeys(touched, Charge(q, touched[0].bucket, r.time).0, k);
    if k in buckets {
      var i :| LastRequest(reqs, n, k, i) && Related(b, q, reqs, n, slots, buckets[k], k, i);
      OtherKeyRelated(b, q, reqs, n, slots, buckets[k], k, i);
      assert LastRequest(reqs, n + 1, k, i);
    } else {
      ExpireHas(b, slots, r.time, k);
      TouchOtherAbsent(b, slots, r.key, r.time, Fresh(q, r.time), k);
    }
  }

  /** A request for k itself: both limiters charge the same bucket, or one charges a full
      bucket and the other one that has refilled. */
  lemma SameCharge(b: Bounds, q: Quota, reqs: seq<Request>, n: nat, slots: seq<Slot>,
                   buckets: map<string, Bucket>)
    requires q.rate > 0.0 && Refills(b, q)
    requires InOrder(reqs) && n < |reqs| && Light(b, reqs, reqs[n].key)
    requires Tracked(b, q, reqs, n, slots, buckets, reqs[n].key)
    ensures var r := reqs[n];
            Charge(q, Touch(b, slots, r.key, r.time, Fresh(q, r.time))[0].bucket, r.time)
            == Charge(q, BucketFor(q, buckets, r), r.time)
  {
    var r := reqs[n];
    ExpireHas(b, slots, r.time, r.key);
    if r.key in buckets {
      var i :| LastRequest(reqs, n, r.key, i) && Related(b, q, reqs, n, slots, buckets[r.key], r.key, i);
      if !Has(Expire(b, slots, r.time), r.key) {
        assert b.ttl > 0.0 && r.time - reqs[i].time >= b.ttl;
        IdleRefills(q, buckets[r.key], r.time, b.ttl);
      }
    }
  }

  lemma OwnKeyStep(b: Bounds, q: Quota, reqs: seq<Request>, n: nat, slots: seq<Slot>,
                   buckets: map<string, Bucket>)
    requires q.rate > 0.0 && q.burst >= 0.0 && Refills(b, q)
    requires InOrder(reqs) && n < |reqs| && Light(b, reqs, reqs[n].key)
    requires Tracked(b, q, reqs, n, slots, buckets, reqs[n].key)
    ensures var r := reqs[n];
            var (next, ok) := Admit(b, q, slots, r.key, r.time);
            var (charged, allowed) := Charge(q, BucketFor(q, buckets, r), r.time);
            && ok == allowed
            && Tracked(b, q, reqs, n + 1, next, buckets[r.key := charged], r.key)
  {
    var r := reqs[n];
    SameCharge(b, q, reqs, n, slots, buckets);
    ChargeSpends(q, BucketFor(q, buckets, r), r.time);
    OwnKeyStanding(b, q, reqs, n, slots);
    assert LastRequest(reqs, n + 1, r.key, n);
  }

  lemma TracksStep(b: Bounds, q: Quota, reqs: seq<Request>, n: nat, slots: seq<Slot>,
                   buckets: map<string, Bucket>, k: string)
    requires q.rate > 0.0 && q.burst >= 0.0 && Refills(b, q)
    requires InOrder(reqs) && Light(b, reqs, k) && n < |reqs|
    requires DistinctKeys(slots) && Tracked(b, q, reqs, n, slots, buckets, k)
    ensures var r := reqs[n];
            var (next, ok) := Admit(b, q, slots, r.key, r.time);
            var (charged, allowed) := Charge(q, BucketFor(q, buckets, r), r.time);
            && Tracked(b, q, reqs, n + 1, next, buckets[r.key := charged], k)
            && (r.key == k ==> ok == allowed)
  {
    if reqs[n].key == k {
      OwnKeyStep(b, q, reqs, n, slots, buckets);
    } else {
      OtherKeyStep(b, q, reqs, n, slots, buckets,
                   Charge(q, BucketFor(q, buckets, reqs[n]), reqs[n].time).0, k);
    }
  }

  lemma {:induction false} BoundedTracks(b: Bounds, q: Quota, reqs: seq<Request>, n: nat, k: string)
    requires q.rate > 0.0 && q.burst >= 0.0 && Refills(b, q)
    requires InOrder(reqs) && Light(b, reqs, k) && n <= |reqs|
    ensures Tracked(b, q, reqs, n, SlotsAt(b, q, reqs, n), BucketsAt(q, reqs, n), k)
    ensures n > 0 && reqs[n - 1].key == k ==>
              BoundedAnswer(b, q, reqs, n - 1) == UnboundedAnswer(q, reqs, n - 1)
  {
    if n > 0 {
      BoundedTracks(b, q, reqs, n - 1, k);
      BoundedKeepsOrder(b, q, reqs, n - 1);
      TracksStep(b, q, reqs, n - 1, SlotsAt(b, q, reqs, n - 1), BucketsAt(q, reqs, n - 1), k);
    }
  }

  lemma BoundedAgrees(b: Bounds, q: Quota, reqs: seq<Request>, k: string)
    requires q.rate > 0.0 && q.burst >= 0.0 && Refills(b, q)
    requires InOrder(reqs) && Light(b, reqs, k)
    ensures Agree(b, q, reqs, k)
  {
    forall i | 0 <= i < |reqs| && reqs[i].key == k
      ensures BoundedAnswer(b, q, reqs, i) == UnboundedAnswer(q, reqs, i)
    {
      BoundedTracks(b, q, reqs, i + 1, k);
    }
  }

  // -------------------------------------------------------------- exact bound

  /** A key alone in the list spends one token of its own. */
  lemma AdmitAlone(b: Bounds, q: Quota, k: string, tokens: real, t: real)
    requires q.rate > 0.0 && b.ttl > 0.0 && tokens >= 1.0
    ensures Admit(b, q, [Slot(k, Bucket(tokens, t), t)], k, t)
            == ([Slot(k, Bucket(tokens - 1.0, t), t)], true)
  {
    var slots := [Slot(k, Bucket(tokens, t), t)];
    UniquePosition(slots, k, 0);
    assert Expire(b, slots, t) == slots;
    assert Touch(b, slots, k, t, Fresh(q, t)) == slots;
    ChargeAtOnce(q, tokens, t);
    assert slots[0 := Slot(k, Bucket(tokens - 1.0, t), t)] == [Slot(k, Bucket(tokens - 1.0, t), t)];
  }

  /** With nothing fresh in the list, a key spends one token of a full bucket. */
  lemma AdmitNew(b: Bounds, q: Quota, k: string, slots: seq<Slot>, t: real)
    requires q.rate > 0.0 && q.burst >= 1.0 && b.ttl > 0.0
    requires slots == [] || (|slots| == 1 && Idle(b, slots[0], t))
    ensures Admit(b, q, slots, k, t) == ([Slot(k, Bucket(q.burst - 1.0, t), t)], true)
  {
    if slots != [] {
      assert slots[..0] == [];
    }
    assert Expire(b, slots, t) == [];
    assert Position([], k) == 0;
    var touched := [Slot(k, Fresh(q, t), t)];
    assert Touch(b, slots, k, t, Fresh(q, t)) == touched;
    ChargeAtOnce(q, q.burst, t);
    assert touched[0 := Slot(k, Bucket(q.burst - 1.0, t), t)] == [Slot(k, Bucket(q.burst - 1.0, t), t)];
  }

  /** Two bursts of requests for one key, a ttl apart. */
  function TwoBursts(k: string, burst: nat, ttl: real): (reqs: seq<Request>)
    ensures |reqs| == 2 * burst
  {
    seq(2 * burst, i => Request(k, if i < burst then 0.0 else ttl))
  }

  /** The bounded limiter's list after n of them. */
  function BurstSlots(k: string, burst: nat, ttl: real, n: nat): seq<Slot> {
    if n == 0 then []
    else if n <= burst then [Slot(k, Bucket((burst - n) as real, 0.0), 0.0)]
    else [Slot(k, Bucket((2 * burst - n) as real, ttl), ttl)]
  }

  lemma BurstStep(b: Bounds, q: Quota, k: string, burst: nat, n: nat)
    requires q.rate > 0.0 && q.burst == burst as real && b.ttl > 0.0
    requires n < 2 * burst
    ensures Admit(b, q, BurstSlots(k, burst, b.ttl, n), k, if n < burst then 0.0 else b.ttl)
            == (BurstSlots(k, burst, b.ttl, n + 1), true)
  {
    if n == 0 {
      AdmitNew(b, q, k, [], 0.0);
    } else if n < burst {
      AdmitAlone(b, q, k, (burst - n) as real, 0.0);
    } else if n == burst {
      AdmitNew(b, q, k, [Slot(k, Bucket(0.0, 0.0), 0.0)], b.ttl);
    } else {
      AdmitAlone(b, q, k, (2 * burst - n) as real, b.ttl);
    }
  }

  /** In the bounded limiter the idle ttl makes the bucket full again. */
  ghost predicate BurstBy(b: Bounds, q: Quota, k: string, burst: nat, n: nat) {
    n <= 2 * burst ==>
      var reqs := TwoBursts(k, burst, b.ttl);
      && SlotsAt(b, q, reqs, n) == BurstSlots(k, burst, b.ttl, n)
      && (n > 0 ==> BoundedAnswer(b, q, reqs, n - 1))
  }

  lemma BurstNext(b: Bounds, q: Quota, k: string, burst: nat, n: nat)
    requires q.rate > 0.0 && q.burst == burst as real && b.ttl > 0.0
    requires n < 2 * burst && BurstBy(b, q, k, burst, n)
    ensures BurstBy(b, q, k, burst, n + 1)
  {
    var r := TwoBursts(k, burst, b.ttl)[n];
    assert r == Request(k, if n < burst then 0.0 else b.ttl);
    BurstStep(b, q, k, burst, n);
  }

  lemma BurstsBounded(b: Bounds, q: Quota, k: string, burst: nat, n: nat)
    requires q.rate > 0.0 && q.burst == burst as real && b.ttl > 0.0
    requires n <= 2 * burst
    ensures SlotsAt(b, q, TwoBursts(k, burst, b.ttl), n) == BurstSlots(k, burst, b.ttl, n)
    ensures n > 0 ==> BoundedAnswer(b, q, TwoBursts(k, burst, b.ttl), n - 1)
  {
    forall m: nat | m < n && BurstBy(b, q, k, burst, m)
      ensures BurstBy(b, q, k, burst, m + 1)
    {
      BurstNext(b, q, k, burst, m);
    }
    Ascend((m: nat) => BurstBy(b, q, k, burst, m), n);
  }

  lemma ChargeAtOnce(q: Quota, tokens: real, t: real)
    requires q.rate > 0.0
    ensures Charge(q, Bucket(tokens, t), t)
            == if tokens < 1.0 then (Bucket(tokens, t), false) else (Bucket(tokens - 1.0, t), true)
  {}

  lemma ChargeRefilled(q: Quota, ttl: real)
    requires q.rate > 0.0 && ttl > 0.0 && q.rate * ttl < q.burst
    ensures Charge(q, Bucket(0.0, 0.0), ttl) == Charge(q, Bucket(q.rate * ttl, ttl), ttl)
    ensures q.rate * ttl >= 0.0
  {
    var d := ttl - 0.0;
    assert d == ttl && d * q.rate == q.rate * ttl;
    Product(q.rate, ttl);
    assert Refill(q, Bucket(0.0, 0.0), ttl) == Bucket(q.rate * ttl, ttl);
  }

  /** In the unbounded limiter the second burst has only what was refilled meanwhile, so it is
      not allowed in full. */
  lemma {:induction false} BurstsUnbounded(q: Quota, k: string, burst: nat, ttl: real, n: nat)
    requires q.rate > 0.0 && q.burst == burst as real && ttl > 0.0
    requires q.rate * ttl < q.burst
    requires 0 < n <= 2 * burst
    requires forall i :: 0 <= i < n ==> UnboundedAnswer(q, TwoBursts(k, burst, ttl), i)
    ensures BucketsAt(q, TwoBursts(k, burst, ttl), n)
            == if n <= burst then map[k := Bucket((burst - n) as real, 0.0)]
               else map[k := Bucket(q.rate * ttl - (n - burst) as real, ttl)]
    ensures n > burst ==> q.rate * ttl >= (n - burst) as real
  {
    var reqs := TwoBursts(k, burst, ttl);
    assert UnboundedAnswer(q, reqs, n - 1);
    if n == 1 {
      ChargeAtOnce(q, q.burst, 0.0);
    } else {
      BurstsUnbounded(q, k, burst, ttl, n - 1);
      if n <= burst {
        ChargeAtOnce(q, (burst - (n - 1)) as real, 0.0);
      } else if n == burst + 1 {
        ChargeRefilled(q, ttl);
        ChargeAtOnce(q, q.rate * ttl, ttl);
      } else {
        ChargeAtOnce(q, q.rate * ttl - (n - 1 - burst) as real, ttl);
      }
    }
  }

  /** When a bucket cannot refill within the ttl, two bursts a ttl apart tell them apart. */
  lemma ShortTtlDisagrees(b: Bounds, q: Quota, k: string, burst: nat)
    requires q.rate > 0.0 && q.burst == burst as real && burst > 0
    requires !Refills(b, q)
    ensures var reqs := TwoBursts(k, burst, b.ttl);
            InOrder(reqs) && Light(b, reqs, k) && !Agree(b, q, reqs, k)
  {
    var reqs := TwoBursts(k, burst, b.ttl);
    forall i, j | 0 <= i < j < |reqs| && LastRequest(reqs, j, k, i)
      ensures KeysBetween(reqs, i, j) == {}
    {}
    if Agree(b, q, reqs, k) {
      forall i | 0 <= i < |reqs|
        ensures UnboundedAnswer(q, reqs, i)
      {
        BurstsBounded(b, q, k, burst, i + 1);
      }
      BurstsUnbounded(q, k, burst, b.ttl, 2 * burst);
    }
  }

  /** For every key and every request sequence in which the key is not crowded out, the
      bounded limiter answers as the one that never evicts, exactly when a bucket refills
      within the ttl (or entries do not expire). */
  lemma RefinesExactly(b: Bounds, q: Quota, burst: nat)
    requires q.rate > 0.0 && q.burst == burst as real && burst > 0
    ensures Refills(b, q) <==>
              forall reqs, k :: InOrder(reqs) && Light(b, reqs, k) ==> Agree(b, q, reqs, k)
  {
    if Refills(b, q) {
      forall reqs, k | InOrder(reqs) && Light(b, reqs, k)
        ensures Agree(b, q, reqs, k)
      {
        BoundedAgrees(b, q, reqs, k);
      }
    } else {
      ShortTtlDisagrees(b, q, "k", burst);
    }
  }

  /** k spends its burst, the others follow, then k comes back, all at once. */
  function Crowding(k: string, burst: nat, others: seq<string>): (reqs: seq<Request>)
    ensures |reqs| == burst + |others| + 1
  {
    seq(burst + |others| + 1,
        i requires 0 <= i < burst + |others| + 1 =>
          Request(if burst <= i < burst + |others| then others[i - burst] else k, 0.0))
  }

  ghost predicate NewKeys(k: string, others: seq<string>) {
    k !in others && NoRepeats(others)
  }

  /** A key that is not in the list starts from a full bucket. */
  lemma StartsFull(b: Bounds, q: Quota, slots: seq<Slot>, k: string, t: real)
    requires !Has(slots, k) && q.burst >= 1.0
    ensures Admit(b, q, slots, k, t).1
  {
    ExpireHas(b, slots, t, k);
    assert Touch(b, slots, k, t, Fresh(q, t))[0].bucket == Fresh(q, t);
  }

  lemma {:induction false} TokensSpent(q: Quota, k: string, burst: nat, others: seq<string>, n: nat)
    requires q.rate > 0.0 && q.burst == burst as real && burst > 0
    requires NewKeys(k, others) && 0 < n <= burst + |others|
    ensures var buckets := BucketsAt(q, Crowding(k, burst, others), n);
            k in buckets && buckets[k] == Bucket((if n < burst then burst - n else 0) as real, 0.0)
  {
    if n == 1 {
      ChargeAtOnce(q, q.burst, 0.0);
    } else {
      TokensSpent(q, k, burst, others, n - 1);
      if n <= burst {
        ChargeAtOnce(q, (burst - (n - 1)) as real, 0.0);
      }
    }
  }

  lemma {:induction false} DistinctCount(others: seq<string>, n: nat)
    requires n <= |others|
    requires NoRepeats(others)
    ensures |set t | 0 <= t < n :: others[t]| == n
  {
    if n > 0 {
      DistinctCount(others, n - 1);
      assert (set t | 0 <= t < n :: others[t]) == (set t | 0 <= t < n - 1 :: others[t]) + {others[n - 1]};
    }
  }

  function Elements(others: seq<string>): set<string> {
    set t | 0 <= t < |others| :: others[t]
  }

  lemma CrowdedBetween(k: string, burst: nat, others: seq<string>)
    requires NewKeys(k, others) && burst > 0
    ensures var reqs, last := Crowding(k, burst, others), burst + |others|;
            && LastRequest(reqs, last, k, burst - 1)
            && KeysBetween(reqs, burst - 1, last) == Elements(others)
            && |Elements(others)| == |others|
  {
    var reqs, last := Crowding(k, burst, others), burst + |others|;
    forall x | x in Elements(others)
      ensures x in KeysBetween(reqs, burst - 1, last)
    {
      var t :| 0 <= t < |others| && others[t] == x;
      assert reqs[burst + t].key == x;
    }
    DistinctCount(others, |others|);
  }

  /** Fewer than all of the others follow each one of them. */
  lemma FewFollow(k: string, burst: nat, others: seq<string>, j: nat)
    requires NewKeys(k, others) && j < |others|
    ensures var reqs, last := Crowding(k, burst, others), burst + |others|;
            && LastRequest(reqs, last, others[j], burst + j)
            && |KeysBetween(reqs, burst + j, last)| < |others|
  {
    var reqs, last := Crowding(k, burst, others), burst + |others|;
    forall t | burst + j < t < last
      ensures reqs[t].key != others[j] && reqs[t].key in Elements(others)
    {
      assert reqs[t].key == others[t - burst];
    }
    DistinctCount(others, |others|);
    assert others[j] in Elements(others);
    Subset(KeysBetween(reqs, burst + j, last), Elements(others) - {others[j]});
  }

  /** So it is still in its slot. */
  lemma OtherStays(b: Bounds, q: Quota, k: string, burst: nat, others: seq<string>, j: nat)
    requires |others| == b.maxEntries && NewKeys(k, others) && j < |others|
    ensures Has(SlotsAt(b, q, Crowding(k, burst, others), burst + |others|), others[j])
  {
    FewFollow(k, burst, others, j);
    DroppedOnlyFor(b, q, Crowding(k, burst, others), burst + |others|, others[j], burst + j);
  }

  /** With the others in all of its slots the list has no room for k. */
  lemma NoRoomLeft(slots: seq<Slot>, k: string, others: seq<string>)
    requires DistinctKeys(slots) && |slots| <= |others| && NewKeys(k, others)
    requires forall j :: 0 <= j < |others| ==> Has(slots, others[j])
    ensures !Has(slots, k)
  {
    if Has(slots, k) {
      FrontSize(slots, |slots|);
      DistinctCount(others, |others|);
      assert k in Lru.Front(slots, |slots|);
      Subset(Elements(others) + {k}, Lru.Front(slots, |slots|));
    }
  }

  /** For every capacity, lifetime and quota: once a key has spent its tokens, as many other
      keys as the capacity get it a full bucket, where the unbounded limiter denies it. */
  lemma CrowdedOut(b: Bounds, q: Quota, k: string, burst: nat, others: seq<string>)
    requires b.maxEntries > 0 && q.rate > 0.0 && q.burst == burst as real && burst > 0
    requires NewKeys(k, others) && |others| == b.maxEntries
    ensures var reqs, last := Crowding(k, burst, others), burst + |others|;
            && InOrder(reqs) && LastRequest(reqs, last, k, burst - 1)
            && |KeysBetween(reqs, burst - 1, last)| == b.maxEntries
            && BoundedAnswer(b, q, reqs, last) && !UnboundedAnswer(q, reqs, last)
  {
    CrowdedBetween(k, burst, others);
    CrowdedAllowed(b, q, k, burst, others);
    TokensSpent(q, k, burst, others, burst + |others|);
    ChargeAtOnce(q, 0.0, 0.0);
  }

  lemma CrowdedAllowed(b: Bounds, q: Quota, k: string, burst: nat, others: seq<string>)
    requires q.burst == burst as real && burst > 0
    requires NewKeys(k, others) && |others| == b.maxEntries > 0
    ensures BoundedAnswer(b, q, Crowding(k, burst, others), burst + |others|)
  {
    var reqs, last := Crowding(k, burst, others), burst + |others|;
    var slots := SlotsAt(b, q, reqs, last);
    forall j | 0 <= j < |others|
      ensures Has(slots, others[j])
    {
      OtherStays(b, q, k, burst, others, j);
    }
    BoundedKeepsOrder(b, q, reqs, last);
    NoRoomLeft(slots, k, others);
    StartsFull(b, q, slots, k, 0.0);
  }

  // ------------------------------------------------------------- allowed total

  function BoundedAnswers(b: Bounds, q: Quota, reqs: seq<Request>): seq<bool> {
    seq(|reqs|, i requires 0 <= i < |reqs| => BoundedAnswer(b, q, reqs, i))
  }

  function UnboundedAnswers(q: Quota, reqs: seq<Request>): seq<bool> {
    seq(|reqs|, i requires 0 <= i < |reqs| => UnboundedAnswer(q, reqs, i))
  }

  /** How many requests for k in positions start to end - 1 were allowed. */
  function Allowed(reqs: seq<Request>, answers: seq<bool>, k: string, start: nat, end: nat): nat
    requires start <= end <= |reqs| == |answers|
  {
    if start == end then 0
    else Allowed(reqs, answers, k, start, end - 1)
         + if reqs[end - 1].key == k && answers[end - 1] then 1 else 0
  }

  /** What k may still be let through at time t. */
  function Credit(q: Quota, buckets: map<string, Bucket>, k: string, t: real): real {
    if k in buckets then Refill(q, buckets[k], t).tokens else q.burst
  }

  /** The bucket of k, if any, is sane and was last updated by time t. */
  predicate Settled(q: Quota, buckets: map<string, Bucket>, k: string, t: real) {
    k in buckets ==> Sane(q, buckets[k]) && buckets[k].updatedAt <= t
  }

  lemma CreditGrows(q: Quota, b: Bucket, t: real, u: real)
    requires q.rate > 0.0 && Sane(q, b) && b.updatedAt <= t <= u
    ensures Refill(q, b, u).tokens <= Refill(q, b, t).tokens + (u - t) * q.rate
  {
    var d, e := t - b.updatedAt, u - t;
    Product(d, q.rate);
    Product(e, q.rate);
    assert u - b.updatedAt == d + e;
    assert (d + e) * q.rate == d * q.rate + e * q.rate;
  }

  /** One request takes from k's credit what it is allowed, and time adds to it at the rate. */
  lemma CreditStep(q: Quota, buckets: map<string, Bucket>, r: Request, k: string, s: real)
    requires q.rate > 0.0 && q.burst >= 0.0 && s <= r.time
    requires Settled(q, buckets, k, s)
    ensures var (charged, ok) := Charge(q, BucketFor(q, buckets, r), r.time);
            var next := buckets[r.key := charged];
            var spent := if r.key == k && ok then 1.0 else 0.0;
            && Settled(q, next, k, r.time)
            && spent + Credit(q, next, k, r.time) <= q.burst
            && spent + Credit(q, next, k, r.time) <= Credit(q, buckets, k, s) + (r.time - s) * q.rate
  {
    CreditWaits(q, buckets, k, s, r.time);
    if r.key == k {
      OwnCredit(q, BucketFor(q, buckets, r), r.time);
    }
  }

  lemma Growing(s: real, t: real, rate: real)
    requires s <= t && rate > 0.0
    ensures (t - s) * rate >= 0.0
  {
    Product(t - s, rate);
  }

  lemma CreditWaits(q: Quota, buckets: map<string, Bucket>, k: string, s: real, t: real)
    requires q.rate > 0.0 && q.burst >= 0.0 && s <= t
    requires Settled(q, buckets, k, s)
    ensures 0.0 <= Credit(q, buckets, k, t) <= q.burst
    ensures Credit(q, buckets, k, t) <= Credit(q, buckets, k, s) + (t - s) * q.rate
  {
    if k in buckets {
      CreditGrows(q, buckets[k], s, t);
      RefillGains(q, buckets[k], t);
    } else {
      Growing(s, t, q.rate);
    }
  }

  lemma OwnCredit(q: Quota, b: Bucket, t: real)
    requires q.rate > 0.0 && Sane(q, b) && b.updatedAt <= t
    ensures var (charged, ok) := Charge(q, b, t);
            && Sane(q, charged) && charged.updatedAt == t
            && (if ok then 1.0 else 0.0) + Refill(q, charged, t).tokens == Refill(q, b, t).tokens
            && Refill(q, b, t).tokens <= q.burst
  {
    RefillGains(q, b, t);
  }

  lemma {:induction false} BucketsSettled(q: Quota, reqs: seq<Request>, n: nat, k: string)
    requires q.rate > 0.0 && q.burst >= 0.0 && InOrder(reqs) && n <= |reqs|
    ensures n > 0 ==> Settled(q, BucketsAt(q, reqs, n), k, reqs[n - 1].time)
    ensures n == 0 ==> k !in BucketsAt(q, reqs, n)
  {
    if n > 0 {
      BucketsSettled(q, reqs, n - 1, k);
      CreditStep(q, BucketsAt(q, reqs, n - 1), reqs[n - 1], k,
                 if n == 1 then reqs[0].time else reqs[n - 2].time);
    }
  }

  lemma WindowStep(q: Quota, buckets: map<string, Bucket>, r: Request, k: string, s: real, t0: real, n: nat)
    requires q.rate > 0.0 && q.burst >= 0.0 && s <= r.time
    requires Settled(q, buckets, k, s)
    requires n as real + Credit(q, buckets, k, s) <= Allowance(q, t0, s)
    ensures var (charged, ok) := Charge(q, BucketFor(q, buckets, r), r.time);
            (if r.key == k && ok then n + 1 else n) as real
            + Credit(q, buckets[r.key := charged], k, r.time) <= Allowance(q, t0, r.time)
  {
    var (charged, ok) := Charge(q, BucketFor(q, buckets, r), r.time);
    var spent, gain := if r.key == k && ok then 1.0 else 0.0, (r.time - s) * q.rate;
    var before, after := Credit(q, buckets, k, s), Credit(q, buckets[r.key := charged], k, r.time);
    assert spent + after <= before + gain by {
      CreditStep(q, buckets, r, k, s);
    }
    assert Allowance(q, t0, r.time) == Allowance(q, t0, s) + gain by {
      AllowanceGrows(q, t0, s, r.time);
    }
    assert (if r.key == k && ok then n + 1 else n) as real == n as real + spent;
  }

  lemma {:induction false} UnboundedWindow(q: Quota, reqs: seq<Request>, k: string, start: nat, end: nat)
    requires q.rate > 0.0 && q.burst >= 0.0 && InOrder(reqs)
    requires start < end <= |reqs|
    ensures Allowed(reqs, UnboundedAnswers(q, reqs), k, start, end) as real
            + Credit(q, BucketsAt(q, reqs, end), k, reqs[end - 1].time)
            <= Allowance(q, reqs[start].time, reqs[end - 1].time)
    decreases end
  {
    var buckets, r := BucketsAt(q, reqs, end - 1), reqs[end - 1];
    BucketsSettled(q, reqs, end - 1, k);
    if start == end - 1 {
      var s := if end == 1 then r.time else reqs[end - 2].time;
      CreditWaits(q, buckets, k, s, r.time);
      AllowanceGrows(q, r.time, r.time, r.time);
      WindowStep(q, buckets, r, k, r.time, r.time, 0);
    } else {
      UnboundedWindow(q, reqs, k, start, end - 1);
      WindowStep(q, buckets, r, k, reqs[end - 2].time, reqs[start].time,
                 Allowed(reqs, UnboundedAnswers(q, reqs), k, start, end - 1));
    }
  }

  lemma {:induction false} SameAllowed(reqs: seq<Request>, a: seq<bool>, c: seq<bool>, k: string, start: nat, end: nat)
    requires start <= end <= |reqs| == |a| == |c|
    requires forall i :: 0 <= i < |reqs| && reqs[i].key == k ==> a[i] == c[i]
    ensures Allowed(reqs, a, k, start, end) == Allowed(reqs, c, k, start, end)
    decreases end
  {
    if start < end {
      SameAllowed(reqs, a, c, k, start, end - 1);
    }
  }

  /** A key that is not crowded out is let through at most burst plus rate times duration in
      any window of any request sequence, although its slot may be evicted and recreated. */
  lemma BoundedWindow(b: Bounds, q: Quota, reqs: seq<Request>, k: string, start: nat, end: nat)
    requires q.rate > 0.0 && q.burst >= 0.0 && Refills(b, q)
    requires InOrder(reqs) && Light(b, reqs, k)
    requires start < end <= |reqs|
    ensures Allowed(reqs, BoundedAnswers(b, q, reqs), k, start, end) as real
            <= Allowance(q, reqs[start].time, reqs[end - 1].time)
  {
    BoundedAgrees(b, q, reqs, k);
    SameAllowed(reqs, BoundedAnswers(b, q, reqs), UnboundedAnswers(q, reqs), k, start, end);
    UnboundedWindow(q, reqs, k, start, end);
    BucketsSettled(q, reqs, end, k);
    CreditWaits(q, BucketsAt(q, reqs, end), k, reqs[end - 1].time, reqs[end - 1].time);
  }

  // ------------------------------------------------------------ default bounds

  /** With the default entry lifetime of thirty minutes, a limit of n per minute with burst m
      (n itself if none is given) refills in time exactly when m is at most thirty times n. */
  lemma DefaultLifetimeSuffices(ratePerMinute: int, burst: int, maxEntries: int)
    requires ratePerMinute > 0
    ensures Refills(Bounds(maxEntries, DEFAULT_TTL), QuotaOf(ratePerMinute, burst))
            <==> burst <= 30 * ratePerMinute
  {
    assert ratePerMinute as real / 60.0 * 1800.0 == (30 * ratePerMinute) as real;
  }
}
