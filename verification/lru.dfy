/** The least-recently-used list with idle expiry, as a value: what one access does to it. */
module Lru {
  import opened Rearranging
  import opened TokenBuckets

  datatype Slot = Slot(key: string, bucket: Bucket, lastAccess: real)

  /** maxEntries <= 0 switches the cap off, ttl <= 0 the expiry. */
  datatype Bounds = Bounds(maxEntries: int, ttl: real)

  predicate Has(slots: seq<Slot>, key: string) {
    exists i :: 0 <= i < |slots| && slots[i].key == key
  }

  /** The first position from i on that holds key, or the number of slots. */
  function PositionFrom(slots: seq<Slot>, key: string, i: nat): (p: nat)
    requires i <= |slots|
    ensures i <= p <= |slots|
    decreases |slots| - i
  {
    if i == |slots| || slots[i].key == key then i else PositionFrom(slots, key, i + 1)
  }

  lemma {:induction false} LocatedFrom(slots: seq<Slot>, key: string, i: nat)
    requires i <= |slots|
    ensures var p := PositionFrom(slots, key, i);
            && (forall j :: i <= j < p ==> slots[j].key != key)
            && (p < |slots| ==> slots[p].key == key)
    decreases |slots| - i
  {
    if i < |slots| && slots[i].key != key {
      LocatedFrom(slots, key, i + 1);
    }
  }

  /** The position of key, or the number of slots. */
  function Position(slots: seq<Slot>, key: string): (p: nat)
    ensures p <= |slots|
    ensures p < |slots| <==> Has(slots, key)
    ensures p < |slots| ==> slots[p].key == key
  {
    LocatedFrom(slots, key, 0);
    PositionFrom(slots, key, 0)
  }

  /** It is the first one. */
  lemma Located(slots: seq<Slot>, key: string)
    ensures forall i :: 0 <= i < Position(slots, key) ==> slots[i].key != key
  {
    LocatedFrom(slots, key, 0);
  }

  ghost predicate DistinctKeys(slots: seq<Slot>) {
    forall i, j :: 0 <= i < j < |slots| ==> slots[i].key != slots[j].key
  }

  /** From front to back the last accesses never get later, and none lies in the future. */
  ghost predicate ByRecency(slots: seq<Slot>, now: real) {
    && (forall i :: 0 <= i < |slots| ==> slots[i].lastAccess <= now)
    && forall i, j :: 0 <= i < j < |slots| ==> slots[i].lastAccess >= slots[j].lastAccess
  }

  ghost predicate WithinCap(b: Bounds, slots: seq<Slot>) {
    b.maxEntries > 0 ==> |slots| <= b.maxEntries
  }

  predicate Idle(b: Bounds, s: Slot, now: real) {
    now - s.lastAccess >= b.ttl
  }

  /** How many of the first n slots the expiry loop leaves: it goes from the back and stops
      at the first slot that is still fresh. */
  function Live(b: Bounds, slots: seq<Slot>, n: nat, now: real): (r: nat)
    requires n <= |slots|
    ensures r <= n
    ensures forall i :: r <= i < n ==> Idle(b, slots[i], now)
    ensures r > 0 ==> !Idle(b, slots[r - 1], now)
  {
    if n == 0 || !Idle(b, slots[n - 1], now) then n else Live(b, slots, n - 1, now)
  }

  function Expire(b: Bounds, slots: seq<Slot>, now: real): (r: seq<Slot>)
    ensures r <= slots
  {
    if b.ttl <= 0.0 then slots else slots[..Live(b, slots, |slots|, now)]
  }

  /** The cap loop: from the back until at most maxEntries slots are left. */
  function Trim(b: Bounds, slots: seq<Slot>): seq<Slot> {
    if b.maxEntries <= 0 || |slots| <= b.maxEntries then slots else slots[..b.maxEntries]
  }

  /** The slot at position p moved to the front and stamped. */
  function Moved(slots: seq<Slot>, p: nat, now: real): (r: seq<Slot>)
    requires p < |slots|
    ensures |r| == |slots|
  {
    ToFront(slots[p := slots[p].(lastAccess := now)], p)
  }

  /** One access: expire, then move key to the front or put a fresh slot there and trim. */
  function Touch(b: Bounds, slots: seq<Slot>, key: string, now: real, newBucket: Bucket): (r: seq<Slot>)
    ensures |r| > 0 && r[0].key == key && r[0].lastAccess == now
  {
    var live := Expire(b, slots, now);
    var p := Position(live, key);
    if p < |live| then Moved(live, p, now)
    else Trim(b, [Slot(key, newBucket, now)] + live)
  }

  // ------------------------------------------------------------------- facts

  /** With the list in recency order the early-stopping loop removes exactly the idle slots. */
  lemma ExpireExact(b: Bounds, slots: seq<Slot>, now: real)
    requires ByRecency(slots, now)
    ensures b.ttl > 0.0 ==>
              forall i :: 0 <= i < |slots| ==>
                            (i < |Expire(b, slots, now)| <==> !Idle(b, slots[i], now))
  {
    var r := Live(b, slots, |slots|, now);
    if r > 0 {
      assert forall i :: 0 <= i < r ==> slots[i].lastAccess >= slots[r - 1].lastAccess;
    }
  }

  lemma MovedAt(slots: seq<Slot>, p: nat, now: real, i: nat)
    requires p < |slots| && i < |slots|
    ensures var s := slots[Source(i, p)];
            Moved(slots, p, now)[i] == if i == 0 then s.(lastAccess := now) else s
  {}

  lemma MovedKeepsOrder(slots: seq<Slot>, p: nat, now: real)
    requires DistinctKeys(slots) && ByRecency(slots, now) && p < |slots|
    ensures DistinctKeys(Moved(slots, p, now)) && ByRecency(Moved(slots, p, now), now)
  {
    var r := Moved(slots, p, now);
    forall i | 0 <= i < |r|
      ensures r[i].lastAccess <= now
    {
      MovedAt(slots, p, now, i);
    }
    forall i, j | 0 <= i < j < |r|
      ensures r[i].key != r[j].key && r[i].lastAccess >= r[j].lastAccess
    {
      MovedAt(slots, p, now, i);
      MovedAt(slots, p, now, j);
      assert Source(i, p) != Source(j, p);
    }
  }

  /** Every access keeps the keys distinct, the recency order and the cap. */
  lemma TouchKeepsOrder(b: Bounds, slots: seq<Slot>, key: string, now: real, newBucket: Bucket)
    requires DistinctKeys(slots) && ByRecency(slots, now) && WithinCap(b, slots)
    ensures var r := Touch(b, slots, key, now, newBucket);
            DistinctKeys(r) && ByRecency(r, now) && WithinCap(b, r)
  {
    var live := Expire(b, slots, now);
    var p := Position(live, key);
    if p < |live| {
      MovedKeepsOrder(live, p, now);
    }
  }

  /** An access to another key does not bring k back. */
  lemma TouchOtherAbsent(b: Bounds, slots: seq<Slot>, key: string, now: real, newBucket: Bucket, k: string)
    requires key != k
    requires !Has(Expire(b, slots, now), k)
    ensures !Has(Touch(b, slots, key, now, newBucket), k)
  {}

  /** An access to another key leaves an unexpired k where it is, or behind key, or pushes it
      out when maxEntries - 1 slots stood in front of it and key was not among the slots. */
  lemma TouchOtherPresent(b: Bounds, slots: seq<Slot>, key: string, now: real, newBucket: Bucket, k: string)
    requires DistinctKeys(slots) && key != k
    requires var p := Position(slots, k); p < |Expire(b, slots, now)|
    ensures var r := Touch(b, slots, key, now, newBucket);
            var p, q := Position(slots, k), Position(r, k);
            if q < |r| then
              r[q] == slots[p] && Front(r, q) <= Front(slots, p) + {key}
            else
              b.maxEntries > 0 && p + 1 >= b.maxEntries && key !in Front(slots, p)
  {
    var live := Expire(b, slots, now);
    var i, p := Position(live, key), Position(slots, k);
    UniquePosition(live, k, p);
    assert Front(live, p) == Front(slots, p) by {
      assert forall j :: 0 <= j < p ==> live[j] == slots[j];
    }
    if i < |live| {
      MoveToFront(live, i, k, now);
    } else {
      PushFront(b, live, Slot(key, newBucket, now), k);
    }
  }

  /** The keys of the first p slots. */
  function Front(slots: seq<Slot>, p: nat): set<string>
    requires p <= |slots|
  {
    set i | 0 <= i < p :: slots[i].key
  }

  lemma MoveToFront(live: seq<Slot>, i: nat, k: string, now: real)
    requires i < |live| && live[i].key != k && Has(live, k)
    ensures var r := Moved(live, i, now);
            var p, q := Position(live, k), Position(r, k);
            q < |r| && r[q] == live[p] && Front(r, q) <= Front(live, p) + {live[i].key}
  {
    var r := Moved(live, i, now);
    var p := Position(live, k);
    var q := if i < p then p else p + 1;
    Located(live, k);
    MovedAt(live, i, now, q);
    forall j | 0 <= j < q
      ensures r[j].key != k && r[j].key in Front(live, p) + {live[i].key}
    {
      MovedAt(live, i, now, j);
      if j > 0 {
        assert live[Source(j, i)].key in Front(live, p);
      }
    }
    UniquePosition(r, k, q);
  }

  lemma PushFront(b: Bounds, live: seq<Slot>, s: Slot, k: string)
    requires s.key != k && Has(live, k) && !Has(live, s.key)
    ensures var r := Trim(b, [s] + live);
            var p, q := Position(live, k), Position(r, k);
            if q < |r| then
              r[q] == live[p] && Front(r, q) <= Front(live, p) + {s.key}
            else
              b.maxEntries > 0 && p + 1 >= b.maxEntries && s.key !in Front(live, p)
  {
    var p := Position(live, k);
    if b.maxEntries <= 0 || p + 1 < b.maxEntries {
      PushKeeps(b, live, s, k);
    } else {
      PushDrops(b, live, s, k);
    }
  }

  lemma PushKeeps(b: Bounds, live: seq<Slot>, s: Slot, k: string)
    requires s.key != k && Has(live, k)
    requires b.maxEntries <= 0 || Position(live, k) + 1 < b.maxEntries
    ensures var r := Trim(b, [s] + live);
            var p, q := Position(live, k), Position(r, k);
            q < |r| && r[q] == live[p] && Front(r, q) <= Front(live, p) + {s.key}
  {
    var r, p := Trim(b, [s] + live), Position(live, k);
    assert forall j :: 0 < j < |r| ==> r[j] == live[j - 1];
    Located(live, k);
    UniquePosition(r, k, p + 1);
    ShiftedFront(live, s, r, p);
  }

  lemma PushDrops(b: Bounds, live: seq<Slot>, s: Slot, k: string)
    requires s.key != k && Has(live, k) && !Has(live, s.key)
    requires 0 < b.maxEntries <= Position(live, k) + 1
    ensures !Has(Trim(b, [s] + live), k) && s.key !in Front(live, Position(live, k))
  {
    var r, p := Trim(b, [s] + live), Position(live, k);
    Located(live, k);
    forall j | 0 <= j < |r|
      ensures r[j].key != k
    {
      assert j > 0 ==> r[j] == live[j - 1];
    }
    forall x | x in Front(live, p)
      ensures x != s.key
    {}
  }

  lemma ShiftedFront(live: seq<Slot>, s: Slot, r: seq<Slot>, p: nat)
    requires p < |live| && p + 1 < |r| && r[0] == s
    requires forall j :: 0 < j < |r| && j <= |live| ==> r[j] == live[j - 1]
    ensures Front(r, p + 1) <= Front(live, p) + {s.key}
  {
    forall x | x in Front(r, p + 1)
      ensures x in Front(live, p) + {s.key}
    {
      var j :| 0 <= j < p + 1 && r[j].key == x;
      if j > 0 {
        assert live[j - 1].key == x;
      }
    }
  }

  lemma UniquePosition(slots: seq<Slot>, k: string, q: nat)
    requires q < |slots| && slots[q].key == k
    requires forall j :: 0 <= j < q ==> slots[j].key != k
    ensures Position(slots, k) == q && Has(slots, k)
  {
    Located(slots, k);
  }
}
