/** Rearrangements of a sequence, and the one that moves an element to the front. */
module Rearranging {

  predicate Rearranged<T(==)>(s: seq<T>, t: seq<T>) {
    multiset(t) == multiset(s)
  }

  lemma SameMembers<T>(s: seq<T>, t: seq<T>)
    requires Rearranged(s, t)
    ensures forall x :: x in s <==> x in t
  {
    forall x
      ensures x in s <==> x in t
    {
      assert x in s <==> x in multiset(s);
      assert x in t <==> x in multiset(t);
    }
  }

  /** Where the i-th element stood before the p-th one moved to the front. */
  function Source(i: nat, p: nat): nat {
    if i == 0 then p else if i <= p then i - 1 else i
  }

  /** The element at position p moved to the front. */
  function ToFront<T>(s: seq<T>, p: nat): (r: seq<T>)
    requires p < |s|
    ensures |r| == |s|
  {
    seq(|s|, i requires 0 <= i < |s| => s[Source(i, p)])
  }

  lemma ToFrontAt<T>(s: seq<T>, p: nat, i: nat)
    requires p < |s| && i < |s|
    ensures ToFront(s, p)[i] == s[Source(i, p)]
  {}

  lemma ToFrontKeeps<T>(s: seq<T>, p: nat, x: T)
    requires p < |s| && x in s
    ensures x in ToFront(s, p)
  {
    var m :| 0 <= m < |s| && s[m] == x;
    if m == p {
      ToFrontAt(s, p, 0);
    } else {
      ToFrontAt(s, p, if m < p then m + 1 else m);
    }
  }

  lemma ToFrontRearranges<T>(s: seq<T>, p: nat)
    requires p < |s|
    ensures Rearranged(s, ToFront(s, p))
  {
    assert s == s[..p] + ([s[p]] + s[p + 1..]);
    assert ToFront(s, p) == [s[p]] + (s[..p] + s[p + 1..]);
  }
}
