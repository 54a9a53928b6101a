/** The bounded bucket map: a list of entries in recency order and an index by key, both
    updated in place, and the limiters built on it. */
module EvictingMap {
  import opened Rearranging
  import opened TokenBuckets
  import opened Lru

  const DEFAULT_MAX_ENTRIES := 20000
  const DEFAULT_TTL := 1800.0

  class Entry {
    const key: string
    const bucket: TokenBucket
    var lastAccess: real

    constructor (key: string, bucket: TokenBucket, lastAccess: real)
      ensures this.key == key && this.bucket == bucket && this.lastAccess == lastAccess
    {
      this.key, this.bucket, this.lastAccess := key, bucket, lastAccess;
    }
  }

  /** An entry with a full bucket. */
  method NewEntry(key: string, now: real, ratePerMinute: int, burst: int) returns (el: Entry)
    ensures fresh(el) && fresh(el.bucket) && el.key == key && el.lastAccess == now
    ensures el.bucket.Limit() == QuotaOf(ratePerMinute, burst)
    ensures el.bucket.State() == Fresh(QuotaOf(ratePerMinute, burst), now)
  {
    var b := new TokenBucket(ratePerMinute, burst, now);
    el := new Entry(key, b, now);
  }

  /** The index finds every entry of the list by its key, and nothing else. */
  ghost predicate Indexed(order: seq<Entry>, entries: map<string, Entry>) {
    && (forall i :: 0 <= i < |order| ==> order[i].key in entries && entries[order[i].key] == order[i])
    && (forall k :: k in entries ==> entries[k] in order && entries[k].key == k)
  }

  /** No bucket belongs to two entries. */
  ghost predicate Unshared(order: seq<Entry>) {
    forall i, j :: 0 <= i < j < |order| ==> order[i].bucket != order[j].bucket
  }

  /** The entries' keys are distinct. */
  ghost predicate Distinct(order: seq<Entry>) {
    forall i, j :: 0 <= i < j < |order| ==> order[i].key != order[j].key
  }

  lemma RemovedIndexed(order: seq<Entry>, entries: map<string, Entry>)
    requires Indexed(order, entries) && Distinct(order) && order != []
    ensures var back := order[|order| - 1].key;
            Indexed(order[..|order| - 1], map k | k in entries && k != back :: entries[k])
  {
    var rest, back := order[..|order| - 1], order[|order| - 1];
    forall k | k in entries && k != back.key
      ensures entries[k] in rest
    {
      assert entries[k] in order && entries[k] != back;
    }
  }

  lemma MovedIndexed(order: seq<Entry>, entries: map<string, Entry>, p: nat)
    requires Indexed(order, entries) && Distinct(order) && Unshared(order) && p < |order|
    ensures var r := ToFront(order, p); Indexed(r, entries) && Distinct(r) && Unshared(r)
  {
    var r := ToFront(order, p);
    forall i | 0 <= i < |r|
      ensures r[i] == order[Source(i, p)]
    {
      ToFrontAt(order, p, i);
    }
    forall i, j | 0 <= i < j < |r|
      ensures r[i].key != r[j].key && r[i].bucket != r[j].bucket
    {
      assert Source(i, p) != Source(j, p);
    }
    forall k | k in entries
      ensures entries[k] in r
    {
      ToFrontKeeps(order, p, entries[k]);
    }
  }

  lemma PushedIndexed(order: seq<Entry>, entries: map<string, Entry>, el: Entry)
    requires Indexed(order, entries) && el.key !in entries
    ensures Indexed([el] + order, entries[el.key := el])
  {
    var r, m := [el] + order, entries[el.key := el];
    forall i | 0 < i < |r|
      ensures r[i].key in m && m[r[i].key] == r[i]
    {
      assert r[i] == order[i - 1];
    }
    forall k | k in m
      ensures m[k] in r && m[k].key == k
    {
      assert k == el.key || m[k] in order;
      assert r[0] == el;
    }
  }

  lemma PushedDistinct(order: seq<Entry>, entries: map<string, Entry>, el: Entry)
    requires Indexed(order, entries) && el.key !in entries
    requires Distinct(order) && Unshared(order)
    requires forall e :: e in order ==> e.bucket != el.bucket
    ensures Distinct([el] + order) && Unshared([el] + order)
  {
    var r := [el] + order;
    assert forall i :: 0 < i < |r| ==> r[i] == order[i - 1] && r[i] in order;
  }

  class EvictingBucketMap {
    const bounds: Bounds
    ghost const quota: Quota
    var order: seq<Entry>
    var entries: map<string, Entry>
    ghost var slots: seq<Slot>
    ghost var Repr: set<object>

    /** The list and the index hold the same entries under distinct keys, no bucket is shared,
        and slots is the list's value. */
    ghost predicate Valid()
      reads this, Repr
      ensures Valid() ==> this in Repr
    {
      && this in Repr
      && |slots| == |order|
      && Indexed(order, entries) && Distinct(order) && Unshared(order)
      && forall i :: 0 <= i < |order| ==>
           && order[i] in Repr && order[i].bucket in Repr
           && slots[i] == Slot(order[i].key, order[i].bucket.State(), order[i].lastAccess)
           && order[i].bucket.Limit() == quota
    }

    constructor (maxEntries: int, ttl: real, ghost quota: Quota)
      ensures Valid() && fresh(Repr)
      ensures bounds == Bounds(maxEntries, ttl) && this.quota == quota
      ensures slots == [] && order == []
    {
      bounds := Bounds(maxEntries, ttl);
      this.quota := quota;
      order, entries, slots, Repr := [], map[], [], {this};
    }

    /** Removes the least recently used entry. */
    method RemoveBack()
      requires Valid() && order != []
      modifies this
      ensures Valid()
      ensures Repr == old(Repr)
      ensures order == old(order[..|order| - 1]) && slots == old(slots[..|slots| - 1])
    {
      RemovedIndexed(order, entries);
      var back := order[|order| - 1];
      order := order[..|order| - 1];
      entries := map k | k in entries && k != back.key :: entries[k];
      slots := slots[..|slots| - 1];
    }

    method EvictExpired(now: real)
      requires Valid()
      modifies this
      ensures Valid()
      ensures slots == Expire(bounds, old(slots), now)
      ensures Repr == old(Repr) && order <= old(order)
    {
      if bounds.ttl <= 0.0 {
        return;
      }
      ghost var was, n := slots, |slots|;
      while order != []
        invariant Valid() && n == |order| <= |was| && slots == was[..n]
        invariant Repr == old(Repr) && order <= old(order)
        invariant Live(bounds, was, |was|, now) == Live(bounds, was, n, now)
        decreases |order|
      {
        var back := order[|order| - 1];
        assert back.lastAccess == was[n - 1].lastAccess;
        if now - back.lastAccess < bounds.ttl {
          return;
        }
        RemoveBack();
        n := n - 1;
      }
    }

    method EvictOverCap()
      requires Valid()
      modifies this
      ensures Valid()
      ensures slots == Trim(bounds, old(slots))
      ensures Repr == old(Repr) && order <= old(order)
    {
      if bounds.maxEntries <= 0 {
        return;
      }
      while |order| > bounds.maxEntries
        invariant Valid()
        invariant Repr == old(Repr) && order <= old(order)
        invariant slots <= old(slots)
        invariant |slots| >= bounds.maxEntries || |slots| == |old(slots)|
        decreases |order|
      {
        RemoveBack();
      }
    }

    /** Moves the entry at position p to the front and stamps it. */
    method MoveToFront(p: nat, now: real)
      requires Valid() && p < |order|
      modifies this, order[p]
      ensures Valid()
      ensures Repr == old(Repr) && order != [] && order[0] == old(order)[p]
      ensures slots == Moved(old(slots), p, now)
    {
      MovedIndexed(order, entries, p);
      var el := order[p];
      ghost var was, had := order, slots;
      order := ToFront(order, p);
      el.lastAccess := now;
      slots := Moved(slots, p, now);
      forall i | 0 <= i < |order|
        ensures order[i] == was[Source(i, p)]
        ensures slots[i] == Slot(order[i].key, order[i].bucket.State(), order[i].lastAccess)
      {
        ToFrontAt(was, p, i);
        MovedAt(had, p, now, i);
      }
    }

    /** Puts a new entry in front. */
    method PushFront(el: Entry)
      requires Valid() && el.key !in entries && el.bucket.Limit() == quota
      requires el !in Repr && el.bucket !in Repr
      modifies this
      ensures Valid()
      ensures Repr == old(Repr) + {el, el.bucket} && order == [el] + old(order)
      ensures slots == [Slot(el.key, el.bucket.State(), el.lastAccess)] + old(slots)
    {
      PushedIndexed(order, entries, el);
      PushedDistinct(order, entries, el);
      ghost var was, had := order, slots;
      order := [el] + order;
      entries := entries[el.key := el];
      slots := [Slot(el.key, el.bucket.State(), el.lastAccess)] + slots;
      Repr := Repr + {el, el.bucket};
      forall i | 0 < i < |order|
        ensures order[i] == was[i - 1] && slots[i] == had[i - 1]
        ensures order[i] in Repr && order[i].bucket in Repr
      {}
    }

    /** Puts a full bucket for a new key in front. */
    method Insert(key: string, now: real, ratePerMinute: int, burst: int) returns (b: TokenBucket)
      requires Valid() && key !in entries && quota == QuotaOf(ratePerMinute, burst)
      modifies this
      ensures Valid()
      ensures order != [] && order[0].bucket == b && fresh(Repr - old(Repr))
      ensures slots == [Slot(key, Fresh(quota, now), now)] + old(slots)
    {
      var el := NewEntry(key, now, ratePerMinute, burst);
      assert Valid();
      PushFront(el);
      b := el.bucket;
    }

    /** The index knows exactly the keys in the list. */
    lemma IndexAgrees(key: string)
      requires Valid()
      ensures key in entries <==> Has(slots, key)
      ensures key in entries ==>
                Position(slots, key) < |order| && order[Position(slots, key)] == entries[key]
    {
      if key in entries {
        var p :| 0 <= p < |order| && order[p] == entries[key];
        assert slots[p].key == key;
        UniquePosition(slots, key, p);
      }
    }

    method Reuse(key: string, now: real) returns (b: TokenBucket)
      requires Valid() && key in entries
      modifies Repr
      ensures Valid()
      ensures var p := Position(old(slots), key);
              && p < |old(slots)|
              && slots == Moved(old(slots), p, now)
      ensures order != [] && order[0].bucket == b && Repr == old(Repr)
    {
      IndexAgrees(key);
      var el := entries[key];
      var p :| 0 <= p < |order| && order[p] == el;
      assert slots[p].key == key;
      UniquePosition(slots, key, p);
      MoveToFront(p, now);
      return el.bucket;
    }

    method Create(key: string, now: real, ratePerMinute: int, burst: int) returns (b: TokenBucket)
      requires Valid() && quota == QuotaOf(ratePerMinute, burst)
      requires key !in entries
      modifies this
      ensures Valid()
      ensures slots == Trim(bounds, [Slot(key, Fresh(quota, now), now)] + old(slots))
      ensures order != [] && order[0].bucket == b && fresh(Repr - old(Repr))
    {
      b := Insert(key, now, ratePerMinute, burst);
      EvictOverCap();
    }

    method GetOrCreate(key: string, now: real, ratePerMinute: int, burst: int)
      returns (b: TokenBucket)
      requires Valid() && quota == QuotaOf(ratePerMinute, burst)
      modifies Repr
      ensures Valid()
      ensures slots == Touch(bounds, old(slots), key, now, Fresh(quota, now))
      ensures order != [] && order[0].bucket == b && fresh(Repr - old(Repr))
    {
      EvictExpired(now);
      IndexAgrees(key);
      if key in entries {
        b := Reuse(key, now);
      } else {
        b := Create(key, now, ratePerMinute, burst);
      }
    }
  }
}
