/** Insertion sort by a given order, standing for the library sort the program calls. */
module Sorting {

  ghost predicate StrictOrder<T(!new)>(less: (T, T) -> bool) {
    && (forall a, b :: less(a, b) ==> !less(b, a))
    && (forall a, b, c :: less(a, b) && less(b, c) ==> less(a, c))
    && (forall a, b :: a == b || less(a, b) || less(b, a))
  }

  ghost predicate Sorted<T(!new)>(s: seq<T>, less: (T, T) -> bool) {
    forall i, j :: 0 <= i < j < |s| ==> !less(s[j], s[i])
  }

  function Insert<T>(x: T, s: seq<T>, less: (T, T) -> bool): (r: seq<T>)
    ensures multiset(r) == multiset{x} + multiset(s)
  {
    if s == [] || !less(s[0], x) then [x] + s
    else
      assert s == [s[0]] + s[1..];
      [s[0]] + Insert(x, s[1..], less)
  }

  function Sort<T>(s: seq<T>, less: (T, T) -> bool): (r: seq<T>)
    ensures multiset(r) == multiset(s)
  {
    if s == [] then []
    else
      assert s == [s[0]] + s[1..];
      Insert(s[0], Sort(s[1..], less), less)
  }

  lemma {:induction false} InsertSorted<T(!new)>(x: T, s: seq<T>, less: (T, T) -> bool)
    requires StrictOrder(less) && Sorted(s, less)
    ensures Sorted(Insert(x, s, less), less)
  {
    var r := Insert(x, s, less);
    if s != [] && less(s[0], x) {
      var rest := Insert(x, s[1..], less);
      InsertSorted(x, s[1..], less);
      forall y | y in rest
        ensures !less(y, s[0])
      {
        assert y in multiset(rest);
        if y != x {
          assert y in s[1..];
        }
      }
    } else if s != [] {
      forall j | 0 < j < |r|
        ensures !less(r[j], x)
      {
        assert r[j] == s[j - 1];
      }
    }
  }

  lemma {:induction false} SortSorted<T(!new)>(s: seq<T>, less: (T, T) -> bool)
    requires StrictOrder(less)
    ensures Sorted(Sort(s, less), less)
  {
    if s != [] {
      SortSorted(s[1..], less);
      InsertSorted(s[0], Sort(s[1..], less), less);
    }
  }

  // -------------------------------------------------------------- repetitions

  ghost predicate NoRepeats<T>(s: seq<T>) {
    forall i, j :: 0 <= i < j < |s| ==> s[i] != s[j]
  }

  /** A list without repeats holds each element at most once. */
  lemma {:induction false} CountedOnce<T>(a: seq<T>, x: T)
    requires NoRepeats(a)
    ensures multiset(a)[x] <= 1
  {
    if a != [] {
      var front, last := a[..|a| - 1], a[|a| - 1];
      assert a == front + [last];
      CountedOnce(front, x);
      if x == last {
        assert x !in front;
      }
    }
  }

  lemma CountedTwice<T>(c: seq<T>, p: nat, q: nat)
    requires p < q < |c| && c[p] == c[q]
    ensures multiset(c)[c[p]] >= 2
  {
    assert c == c[..q] + [c[q]] + c[q + 1..];
    assert c[..q][p] == c[q];
    assert c[q] in multiset(c[..q]);
  }

  /** Rearranging keeps the absence of repeats. */
  lemma RearrangedNoRepeats<T>(a: seq<T>, c: seq<T>)
    requires NoRepeats(a) && multiset(c) == multiset(a)
    ensures NoRepeats(c)
  {
    forall p, q | 0 <= p < q < |c|
      ensures c[p] != c[q]
    {
      if c[p] == c[q] {
        CountedTwice(c, p, q);
        CountedOnce(a, c[p]);
      }
    }
  }
}
