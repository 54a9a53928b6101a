/** What becomes of each name's values when the whole plan is carried out, empty values
    included, and when exactly a name ends with the values wanted for it. */
module MilterExact {
  import opened Text
  import opened Sorting
  import opened MilterHeaders
  import opened MilterReconcile
  import opened MilterOutcome

  // -------------------------------------------------- one operation, one name

  /** A name's values once its i-th (from 0) is changed: the empty value deletes it, and beyond
      the last one a value is added. */
  function Put(vs: seq<string>, i: nat, v: string): seq<string> {
    if i >= |vs| then (if v == "" then vs else vs + [v])
    else if v == "" then vs[..i] + vs[i + 1..]
    else vs[i := v]
  }

  /** What one operation does to the values of n. */
  function Effect(vs: seq<string>, op: Op, n: string): seq<string> {
    match op
    case Change(index, m, v) => if m != n || index == 0 then vs else Put(vs, index - 1, v)
    case Add(m, v) => if m != n then vs else vs + [v]
    case ReplaceBody(_) => vs
  }

  /** An operation that may add a header names it canonically. */
  predicate Addressed(canon: Canon, op: Op) {
    match op
    case Change(_, m, v) => v != "" ==> canon(m) == m
    case Add(m, _) => canon(m) == m
    case ReplaceBody(_) => true
  }

  lemma {:induction false} NthFound(canon: Canon, hs: seq<Header>, n: string, i: nat, k: nat)
    requires k <= |hs|
    ensures var p := Nth(canon, hs, n, i, k);
            p < |hs| ==> canon(hs[p].name) == n && Ordinal(canon, hs, p) == i
  {
    if k > 0 {
      NthFound(canon, hs, n, i, k - 1);
    }
  }

  lemma NthMissing(canon: Canon, hs: seq<Header>, n: string, i: nat)
    requires Nth(canon, hs, n, i, |hs|) == |hs|
    ensures i >= |ValuesOf(canon, hs, n)|
  {
    if i < |ValuesOf(canon, hs, n)| {
      var j := Locate(canon, hs, n, i, |hs|);
      NthIs(canon, hs, n, i, |hs|, j);
    }
  }

  lemma ValuesAround(canon: Canon, before: seq<Header>, mid: seq<Header>, rest: seq<Header>, n: string)
    ensures ValuesOf(canon, before + mid + rest, n)
            == ValuesOf(canon, before, n) + ValuesOf(canon, mid, n) + ValuesOf(canon, rest, n)
  {
    ValuesPlus(canon, before + mid, rest, n);
    ValuesPlus(canon, before, mid, n);
  }

  lemma ValuesSingle(canon: Canon, h: Header, n: string)
    ensures ValuesOf(canon, [h], n) == if canon(h.name) == n then [h.value] else []
  {
    assert ValuesUpTo(canon, [h], n, 0) == [];
  }

  lemma PutAt(before: seq<string>, x: string, rest: seq<string>, v: string)
    ensures Put(before + [x] + rest, |before|, v) == before + (if v == "" then [] else [v]) + rest
  {
    var all := before + [x] + rest;
    assert all[..|before|] == before && all[|before| + 1..] == rest;
    assert before + [] == before;
  }

  /** A change that finds its header, value by value. */
  lemma ChangeEffect(canon: Canon, before: seq<Header>, h: Header, rest: seq<Header>, v: string, n: string)
    ensures var next := before + (if v == "" then [] else [Header(h.name, v)]) + rest;
            var vs := ValuesOf(canon, before + [h] + rest, n);
            ValuesOf(canon, next, n)
            == if canon(h.name) == n then Put(vs, |ValuesOf(canon, before, n)|, v) else vs
  {
    var mid := if v == "" then [] else [Header(h.name, v)];
    ValuesAround(canon, before, [h], rest, n);
    ValuesAround(canon, before, mid, rest, n);
    ValuesSingle(canon, h, n);
    if v == "" {
      assert ValuesOf(canon, mid, n) == [];
    } else {
      ValuesSingle(canon, mid[0], n);
    }
    PutAt(ValuesOf(canon, before, n), h.value, ValuesOf(canon, rest, n), v);
  }

  /** The list with header p changed. */
  function ChangedAt(hs: seq<Header>, p: nat, v: string): seq<Header>
    requires p < |hs|
  {
    if v == "" then hs[..p] + hs[p + 1..] else hs[p := Header(hs[p].name, v)]
  }

  lemma ChangeFound(canon: Canon, hs: seq<Header>, p: nat, v: string, n: string)
    requires p < |hs|
    ensures var vs := ValuesOf(canon, hs, n);
            ValuesOf(canon, ChangedAt(hs, p, v), n)
            == if canon(hs[p].name) == n then Put(vs, Ordinal(canon, hs, p), v) else vs
  {
    var before, h, rest := hs[..p], hs[p], hs[p + 1..];
    assert hs == before + [h] + rest && before + [] == before;
    assert v != "" ==> hs[p := Header(h.name, v)] == before + [Header(h.name, v)] + rest;
    ChangeEffect(canon, before, h, rest, v, n);
    assert hs == before + ([h] + rest);
    ValuesConcat(canon, before, [h] + rest, n, p);
  }

  lemma ChangeMissing(canon: Canon, hs: seq<Header>, i: nat, m: string, v: string, n: string)
    requires i >= |ValuesOf(canon, hs, m)| && (v != "" ==> canon(m) == m)
    ensures var vs := ValuesOf(canon, hs, n);
            ValuesOf(canon, if v == "" then hs else hs + [Header(m, v)], n) == if m == n then Put(vs, i, v) else vs
  {
    ValuesAppend(canon, hs, Header(m, v), n);
  }

  lemma ApplyChange(canon: Canon, hs: seq<Header>, i: nat, m: string, v: string, n: string)
    requires v != "" ==> canon(m) == m
    ensures var vs := ValuesOf(canon, hs, n);
            ValuesOf(canon, Apply(canon, hs, Change(i + 1, m, v)), n) == if m == n then Put(vs, i, v) else vs
  {
    var p := Nth(canon, hs, m, i, |hs|);
    if p < |hs| {
      NthFound(canon, hs, m, i, |hs|);
      assert Apply(canon, hs, Change(i + 1, m, v)) == ChangedAt(hs, p, v);
      ChangeFound(canon, hs, p, v, n);
    } else {
      NthMissing(canon, hs, m, i);
      ChangeMissing(canon, hs, i, m, v, n);
    }
  }

  /** An operation affects a name's values by themselves: wherever its headers stand and
      whatever other headers there are. */
  lemma ApplyEffect(canon: Canon, hs: seq<Header>, op: Op, n: string)
    requires Addressed(canon, op)
    ensures ValuesOf(canon, Apply(canon, hs, op), n) == Effect(ValuesOf(canon, hs, n), op, n)
  {
    match op
    case Change(index, m, v) =>
      if index > 0 {
        ApplyChange(canon, hs, index - 1, m, v, n);
      }
    case Add(m, v) =>
      ValuesAppend(canon, hs, Header(m, v), n);
    case ReplaceBody(_) =>
  }

  /** One more operation on top of a run. */
  lemma RunEffect(canon: Canon, mta: Mta, hs: seq<Header>, ops: seq<Op>, op: Op, n: string)
    requires Conforming(canon, mta) && Addressed(canon, op)
    ensures ValuesOf(canon, Exec(mta, hs, ops + [op]), n) == Effect(ValuesOf(canon, Exec(mta, hs, ops), n), op, n)
  {
    ExecSnoc(mta, hs, ops, op);
    assert Answers(canon, mta, Exec(mta, hs, ops), op);
    ApplyEffect(canon, Exec(mta, hs, ops), op, n);
  }

  // ------------------------------------------------------- the plan, one name

  /** The values vs once the changes for the first k occurrences are carried out. */
  function Changed(same: Same, vs: seq<string>, orig: seq<string>, want: seq<string>, k: nat): seq<string>
    requires k <= |orig| && k <= |want|
  {
    if k == 0 then vs
    else
      var front := Changed(same, vs, orig, want, k - 1);
      if same(orig[k - 1], want[k - 1]) then front else Put(front, k - 1, want[k - 1])
  }

  /** The values before the deletions. */
  function Issued(same: Same, orig: seq<string>, want: seq<string>): seq<string> {
    Changed(same, orig, orig, want, Min(|orig|, |want|)) + Beyond(orig, want)
  }

  /** The values once the indexes from hi down to lo + 1, counted from 1, are deleted. */
  function Down(vs: seq<string>, hi: nat, lo: nat): seq<string>
    decreases hi - lo
  {
    if hi <= lo then vs else Put(Down(vs, hi, lo + 1), lo, "")
  }

  /** The values a name ends with. */
  function Simulated(same: Same, orig: seq<string>, want: seq<string>): seq<string> {
    Down(Issued(same, orig, want), |orig|, |want|)
  }

  /** One more operation, issued unless the values already agree. */
  lemma MaybeEffect(canon: Canon, mta: Mta, hs: seq<Header>, sofar: seq<Op>, front: seq<Op>, op: Op, issued: bool,
                    n: string, vs: seq<string>)
    requires Conforming(canon, mta) && Addressed(canon, op)
    requires ValuesOf(canon, Exec(mta, hs, sofar + front), n) == vs
    ensures ValuesOf(canon, Exec(mta, hs, sofar + (front + if issued then [op] else [])), n)
            == if issued then Effect(vs, op, n) else vs
  {
    if issued {
      RunEffect(canon, mta, hs, sofar + front, op, n);
      Associate(sofar, front, [op]);
    } else {
      assert front + [] == front;
    }
  }

  ghost predicate ChangedSoFar(canon: Canon, mta: Mta, same: Same, hs: seq<Header>, sofar: seq<Op>, m: string,
                               orig: seq<string>, want: seq<string>, n: string, vs: seq<string>, k: nat)
  {
    && k <= |orig| && k <= |want|
    && ValuesOf(canon, Exec(mta, hs, sofar + Changes(same, m, orig, want, k)), n)
       == if m == n then Changed(same, vs, orig, want, k) else vs
  }

  lemma ChangeNext(canon: Canon, mta: Mta, same: Same, hs: seq<Header>, sofar: seq<Op>, m: string,
                   orig: seq<string>, want: seq<string>, n: string, vs: seq<string>, k: nat)
    requires Conforming(canon, mta) && canon(m) == m && k < |orig| && k < |want|
    requires ChangedSoFar(canon, mta, same, hs, sofar, m, orig, want, n, vs, k)
    ensures ChangedSoFar(canon, mta, same, hs, sofar, m, orig, want, n, vs, k + 1)
  {
    MaybeEffect(canon, mta, hs, sofar, Changes(same, m, orig, want, k), Change(k + 1, m, want[k]),
                !same(orig[k], want[k]), n, if m == n then Changed(same, vs, orig, want, k) else vs);
  }

  lemma ChangesEffect(canon: Canon, mta: Mta, same: Same, hs: seq<Header>, sofar: seq<Op>, m: string,
                      orig: seq<string>, want: seq<string>, c: nat, n: string, vs: seq<string>)
    requires Conforming(canon, mta) && canon(m) == m
    requires c <= |orig| && c <= |want|
    requires ValuesOf(canon, Exec(mta, hs, sofar), n) == vs
    ensures ChangedSoFar(canon, mta, same, hs, sofar, m, orig, want, n, vs, c)
  {
    assert sofar + [] == sofar;
    forall k: nat | k < c && ChangedSoFar(canon, mta, same, hs, sofar, m, orig, want, n, vs, k)
      ensures ChangedSoFar(canon, mta, same, hs, sofar, m, orig, want, n, vs, k + 1)
    {
      ChangeNext(canon, mta, same, hs, sofar, m, orig, want, n, vs, k);
    }
    Ascend((k: nat) => ChangedSoFar(canon, mta, same, hs, sofar, m, orig, want, n, vs, k), c);
  }

  ghost predicate AddedSoFar(canon: Canon, mta: Mta, hs: seq<Header>, sofar: seq<Op>, m: string, want: seq<string>,
                             lo: nat, n: string, vs: seq<string>, k: nat)
  {
    && lo + k <= |want|
    && ValuesOf(canon, Exec(mta, hs, sofar + Adds(m, want, lo, lo + k)), n)
       == if m == n then vs + want[lo..lo + k] else vs
  }

  lemma AddNext(canon: Canon, mta: Mta, hs: seq<Header>, sofar: seq<Op>, m: string, want: seq<string>, lo: nat,
                n: string, vs: seq<string>, k: nat)
    requires Conforming(canon, mta) && canon(m) == m && lo + k < |want|
    requires AddedSoFar(canon, mta, hs, sofar, m, want, lo, n, vs, k)
    ensures AddedSoFar(canon, mta, hs, sofar, m, want, lo, n, vs, k + 1)
  {
    var hi := lo + k;
    MaybeEffect(canon, mta, hs, sofar, Adds(m, want, lo, hi), Add(m, want[hi]), true, n,
                if m == n then vs + want[lo..hi] else vs);
    OneMoreValue(vs, want, lo, hi);
  }

  lemma OneMoreValue(vs: seq<string>, want: seq<string>, lo: nat, hi: nat)
    requires lo <= hi < |want|
    ensures vs + want[lo..hi] + [want[hi]] == vs + want[lo..hi + 1]
  {}

  lemma AddsEffect(canon: Canon, mta: Mta, hs: seq<Header>, sofar: seq<Op>, m: string, want: seq<string>, lo: nat,
                   n: string, vs: seq<string>)
    requires Conforming(canon, mta) && canon(m) == m && lo <= |want|
    requires ValuesOf(canon, Exec(mta, hs, sofar), n) == vs
    ensures AddedSoFar(canon, mta, hs, sofar, m, want, lo, n, vs, |want| - lo)
  {
    assert sofar + [] == sofar;
    assert vs + want[lo..lo] == vs;
    forall k: nat | k < |want| - lo && AddedSoFar(canon, mta, hs, sofar, m, want, lo, n, vs, k)
      ensures AddedSoFar(canon, mta, hs, sofar, m, want, lo, n, vs, k + 1)
    {
      AddNext(canon, mta, hs, sofar, m, want, lo, n, vs, k);
    }
    Ascend((k: nat) => AddedSoFar(canon, mta, hs, sofar, m, want, lo, n, vs, k), |want| - lo);
  }

  lemma NameEffect(canon: Canon, mta: Mta, same: Same, hs: seq<Header>, sofar: seq<Op>, m: string,
                   orig: seq<string>, want: seq<string>, n: string, vs: seq<string>)
    requires Conforming(canon, mta) && (want != [] ==> canon(m) == m)
    requires ValuesOf(canon, Exec(mta, hs, sofar), n) == vs
    ensures ValuesOf(canon, Exec(mta, hs, sofar + NameOps(same, m, orig, want)), n)
            == if m == n then Changed(same, vs, orig, want, Min(|orig|, |want|)) + Beyond(orig, want) else vs
  {
    var c := Min(|orig|, |want|);
    var changes := Changes(same, m, orig, want, c);
    if want == [] {
      assert sofar + (changes + []) == sofar;
    } else {
      ChangesEffect(canon, mta, same, hs, sofar, m, orig, want, c, n, vs);
      if |orig| < |want| {
        AddsEffect(canon, mta, hs, sofar + changes, m, want, |orig|, n,
                   if m == n then Changed(same, vs, orig, want, c) else vs);
        Associate(sofar, changes, Adds(m, want, |orig|, |want|));
        assert want[|orig|..|want|] == want[|orig|..];
      } else {
        assert changes + [] == changes;
      }
    }
  }

  function AfterNamed(same: Same, orig: Block, want: Block, done: set<string>, n: string): seq<string> {
    if n in done then Issued(same, Values(orig, n), Values(want, n)) else Values(orig, n)
  }

  lemma AllEffectStep(canon: Canon, mta: Mta, same: Same, hs: seq<Header>, sofar: seq<Op>, orig: Block, want: Block,
                      done: set<string>, m: string, n: string)
    requires Conforming(canon, mta) && CanonicalKeys(canon, want) && m !in done
    requires ValuesOf(canon, Exec(mta, hs, sofar), n) == AfterNamed(same, orig, want, done, n)
    ensures ValuesOf(canon, Exec(mta, hs, sofar + NameOps(same, m, Values(orig, m), Values(want, m))), n)
            == AfterNamed(same, orig, want, done + {m}, n)
  {
    assert CanonicalKey(canon, want, m);
    NameEffect(canon, mta, same, hs, sofar, m, Values(orig, m), Values(want, m), n,
               AfterNamed(same, orig, want, done, n));
  }

  ghost predicate NamedSoFar(canon: Canon, mta: Mta, same: Same, hs: seq<Header>, names: seq<string>, orig: Block,
                             want: Block, n: string, k: nat)
  {
    && k <= |names|
    && ValuesOf(canon, Exec(mta, hs, AllOps(same, names, orig, want, k)), n)
       == AfterNamed(same, orig, want, DoneUpTo(names, k), n)
  }

  lemma NextNamed(canon: Canon, mta: Mta, same: Same, hs: seq<Header>, names: seq<string>, orig: Block, want: Block,
                  n: string, k: nat)
    requires Conforming(canon, mta) && CanonicalKeys(canon, want) && NoRepeats(names) && k < |names|
    requires NamedSoFar(canon, mta, same, hs, names, orig, want, n, k)
    ensures NamedSoFar(canon, mta, same, hs, names, orig, want, n, k + 1)
  {
    NewName(names, k);
    AllEffectStep(canon, mta, same, hs, AllOps(same, names, orig, want, k), orig, want, DoneUpTo(names, k), names[k],
                  n);
  }

  lemma AllEffect(canon: Canon, mta: Mta, same: Same, hs: seq<Header>, names: seq<string>, orig: Block, want: Block,
                  n: string)
    requires Conforming(canon, mta) && Groups(canon, orig, hs) && CanonicalKeys(canon, want) && NoRepeats(names)
    ensures NamedSoFar(canon, mta, same, hs, names, orig, want, n, |names|)
  {
    assert Grouped(canon, orig, hs, n);
    forall k: nat | k < |names| && NamedSoFar(canon, mta, same, hs, names, orig, want, n, k)
      ensures NamedSoFar(canon, mta, same, hs, names, orig, want, n, k + 1)
    {
      NextNamed(canon, mta, same, hs, names, orig, want, n, k);
    }
    Ascend((k: nat) => NamedSoFar(canon, mta, same, hs, names, orig, want, n, k), |names|);
  }

  /** Of the deletions scheduled for n, those above c are among the first k. */
  ghost predicate DeletedAbove(ds: seq<HeaderDelete>, n: string, lo: nat, hi: nat, k: nat, c: nat)
    requires k <= |ds|
  {
    && lo <= c && (c <= lo || c <= hi)
    && forall x: nat :: lo < x <= hi ==> (HeaderDelete(n, x) in ds[..k] <==> x > c)
  }

  /** A deletion still to come has no higher index than the next one for its name. */
  lemma StillPending(ds: seq<HeaderDelete>, k: nat, d: HeaderDelete)
    requires HighestFirst(ds) && k < |ds| && ds[k].name == d.name
    requires d in ds && d !in ds[..k]
    ensures d.index <= ds[k].index
  {
    forall p | 0 <= p < k
      ensures ds[p] != d
    {
      assert ds[p] in ds[..k];
    }
    var q :| 0 <= q < |ds| && ds[q] == d;
  }

  /** The next deletion for n is the one at c. */
  lemma NextDeletion(ds: seq<HeaderDelete>, orig: Block, want: Block, n: string, k: nat, c: nat)
    requires Schedules(ds, orig, want) && HighestFirst(ds) && k < |ds| && ds[k].name == n
    requires DeletedAbove(ds, n, |Values(want, n)|, |Values(orig, n)|, k, c)
    ensures ds[k] == HeaderDelete(n, c) && |Values(want, n)| < c <= |Values(orig, n)|
    ensures DeletedAbove(ds, n, |Values(want, n)|, |Values(orig, n)|, k + 1, c - 1)
  {
    var d, lo, hi := ds[k], |Values(want, n)|, |Values(orig, n)|;
    assert d in ds && d == HeaderDelete(n, d.index);
    assert d !in ds[..k];
    var top := HeaderDelete(n, c);
    assert top in ds && top !in ds[..k];
    StillPending(ds, k, top);
    assert ds[..k + 1] == ds[..k] + [d];
  }

  /** The first k scheduled deletions have brought the values of n down to c. */
  ghost predicate BroughtDown(canon: Canon, mta: Mta, hs: seq<Header>, sofar: seq<Op>, ds: seq<HeaderDelete>,
                              orig: Block, want: Block, n: string, vs: seq<string>, k: nat, c: nat)
    requires k <= |ds|
  {
    && DeletedAbove(ds, n, |Values(want, n)|, |Values(orig, n)|, k, c)
    && ValuesOf(canon, Exec(mta, hs, sofar + DeleteOps(ds, k)), n) == Down(vs, |Values(orig, n)|, c)
  }

  lemma NextEffect(canon: Canon, mta: Mta, hs: seq<Header>, sofar: seq<Op>, ds: seq<HeaderDelete>, n: string,
                   vs: seq<string>, k: nat)
    requires Conforming(canon, mta) && k < |ds|
    requires ValuesOf(canon, Exec(mta, hs, sofar + DeleteOps(ds, k)), n) == vs
    ensures ValuesOf(canon, Exec(mta, hs, sofar + DeleteOps(ds, k + 1)), n)
            == Effect(vs, Change(ds[k].index, ds[k].name, ""), n)
  {
    MaybeEffect(canon, mta, hs, sofar, DeleteOps(ds, k), Change(ds[k].index, ds[k].name, ""), true, n, vs);
  }

  lemma DownNext(vs: seq<string>, hi: nat, n: string, c: nat)
    requires 0 < c <= hi
    ensures Effect(Down(vs, hi, c), Change(c, n, ""), n) == Down(vs, hi, c - 1)
  {}

  lemma OtherDeletion(ds: seq<HeaderDelete>, orig: Block, want: Block, n: string, k: nat, c: nat)
    requires k < |ds| && ds[k].name != n
    requires DeletedAbove(ds, n, |Values(want, n)|, |Values(orig, n)|, k, c)
    ensures DeletedAbove(ds, n, |Values(want, n)|, |Values(orig, n)|, k + 1, c)
  {
    assert ds[..k + 1] == ds[..k] + [ds[k]];
  }

  lemma BringDown(canon: Canon, mta: Mta, hs: seq<Header>, sofar: seq<Op>, ds: seq<HeaderDelete>, orig: Block,
                  want: Block, n: string, vs: seq<string>, k: nat, c: nat) returns (next: nat)
    requires Conforming(canon, mta) && Schedules(ds, orig, want) && HighestFirst(ds) && k < |ds|
    requires BroughtDown(canon, mta, hs, sofar, ds, orig, want, n, vs, k, c)
    ensures BroughtDown(canon, mta, hs, sofar, ds, orig, want, n, vs, k + 1, next)
  {
    var was := Down(vs, |Values(orig, n)|, c);
    NextEffect(canon, mta, hs, sofar, ds, n, was, k);
    next := NextDown(ds, orig, want, n, vs, k, c);
  }

  lemma NextDown(ds: seq<HeaderDelete>, orig: Block, want: Block, n: string, vs: seq<string>, k: nat, c: nat)
    returns (next: nat)
    requires Schedules(ds, orig, want) && HighestFirst(ds) && k < |ds|
    requires DeletedAbove(ds, n, |Values(want, n)|, |Values(orig, n)|, k, c)
    ensures DeletedAbove(ds, n, |Values(want, n)|, |Values(orig, n)|, k + 1, next)
    ensures Effect(Down(vs, |Values(orig, n)|, c), Change(ds[k].index, ds[k].name, ""), n)
            == Down(vs, |Values(orig, n)|, next)
  {
    if ds[k].name == n {
      NextDeletion(ds, orig, want, n, k, c);
      DownNext(vs, |Values(orig, n)|, n, c);
      next := c - 1;
    } else {
      OtherDeletion(ds, orig, want, n, k, c);
      next := c;
    }
  }

  ghost predicate Lowered(canon: Canon, mta: Mta, hs: seq<Header>, sofar: seq<Op>, ds: seq<HeaderDelete>,
                          orig: Block, want: Block, n: string, vs: seq<string>, k: nat)
  {
    k <= |ds| && exists c :: BroughtDown(canon, mta, hs, sofar, ds, orig, want, n, vs, k, c)
  }

  lemma LowerNext(canon: Canon, mta: Mta, hs: seq<Header>, sofar: seq<Op>, ds: seq<HeaderDelete>, orig: Block,
                  want: Block, n: string, vs: seq<string>, k: nat)
    requires Conforming(canon, mta) && Schedules(ds, orig, want) && HighestFirst(ds) && k < |ds|
    requires Lowered(canon, mta, hs, sofar, ds, orig, want, n, vs, k)
    ensures Lowered(canon, mta, hs, sofar, ds, orig, want, n, vs, k + 1)
  {
    var c :| BroughtDown(canon, mta, hs, sofar, ds, orig, want, n, vs, k, c);
    c := BringDown(canon, mta, hs, sofar, ds, orig, want, n, vs, k, c);
  }

  lemma LowerFirst(canon: Canon, mta: Mta, hs: seq<Header>, sofar: seq<Op>, ds: seq<HeaderDelete>, orig: Block,
                   want: Block, n: string, vs: seq<string>)
    requires ValuesOf(canon, Exec(mta, hs, sofar), n) == vs
    ensures Lowered(canon, mta, hs, sofar, ds, orig, want, n, vs, 0)
  {
    var lo, hi := |Values(want, n)|, |Values(orig, n)|;
    assert sofar + [] == sofar;
    assert BroughtDown(canon, mta, hs, sofar, ds, orig, want, n, vs, 0, if lo < hi then hi else lo);
  }

  /** The scheduled deletions cut the values of n down to the wanted number, one by one. */
  lemma DeletesEffect(canon: Canon, mta: Mta, hs: seq<Header>, sofar: seq<Op>, ds: seq<HeaderDelete>, orig: Block,
                      want: Block, n: string, vs: seq<string>)
    requires Conforming(canon, mta) && Schedules(ds, orig, want) && HighestFirst(ds)
    requires ValuesOf(canon, Exec(mta, hs, sofar), n) == vs
    ensures ValuesOf(canon, Exec(mta, hs, sofar + DeleteOps(ds, |ds|)), n)
            == Down(vs, |Values(orig, n)|, |Values(want, n)|)
  {
    LowerFirst(canon, mta, hs, sofar, ds, orig, want, n, vs);
    forall k: nat | k < |ds| && Lowered(canon, mta, hs, sofar, ds, orig, want, n, vs, k)
      ensures Lowered(canon, mta, hs, sofar, ds, orig, want, n, vs, k + 1)
    {
      LowerNext(canon, mta, hs, sofar, ds, orig, want, n, vs, k);
    }
    Ascend((k: nat) => Lowered(canon, mta, hs, sofar, ds, orig, want, n, vs, k), |ds|);
    var c :| BroughtDown(canon, mta, hs, sofar, ds, orig, want, n, vs, |ds|, c);
    AllDeleted(ds, orig, want, n, c);
  }

  lemma SurplusDeleted(ds: seq<HeaderDelete>, orig: Block, want: Block, n: string, c: nat, x: nat)
    requires Schedules(ds, orig, want) && |Values(want, n)| < x <= |Values(orig, n)|
    requires DeletedAbove(ds, n, |Values(want, n)|, |Values(orig, n)|, |ds|, c)
    ensures x > c
  {
    assert ds[..|ds|] == ds;
    assert HeaderDelete(n, x) in ds;
  }

  lemma AllDeleted(ds: seq<HeaderDelete>, orig: Block, want: Block, n: string, c: nat)
    requires Schedules(ds, orig, want)
    requires DeletedAbove(ds, n, |Values(want, n)|, |Values(orig, n)|, |ds|, c)
    ensures c == |Values(want, n)|
  {
    if c > |Values(want, n)| {
      SurplusDeleted(ds, orig, want, n, c, c);
    }
  }

  lemma NamesDone(names: seq<string>, orig: Block, want: Block, same: Same, n: string)
    requires Covers(names, orig, want)
    ensures AfterNamed(same, orig, want, DoneUpTo(names, |names|), n)
            == Issued(same, Values(orig, n), Values(want, n))
  {
    DoneMember(names, |names|, n);
    assert names[..|names|] == names;
  }

  /** What a name ends with depends on its own values alone: for any headers and any rewritten
      block, carrying out the plan simulates it name by name. */
  lemma NameEnds(canon: Canon, mta: Mta, same: Same, hs: seq<Header>, names: seq<string>, orig: Block, want: Block,
                 n: string)
    requires Conforming(canon, mta) && Groups(canon, orig, hs) && CanonicalKeys(canon, want)
    requires NoRepeats(names) && Covers(names, orig, want)
    ensures ValuesOf(canon, Exec(mta, hs, Plan(same, names, orig, want)), n)
            == Simulated(same, Values(orig, n), Values(want, n))
  {
    var ds := Sort(AllDeletes(names, orig, want, |names|), DeleteBefore);
    AllEffect(canon, mta, same, hs, names, orig, want, n);
    NamesDone(names, orig, want, same, n);
    SortedSchedule(names, orig, want);
    DeletesEffect(canon, mta, hs, AllOps(same, names, orig, want, |names|), ds, orig, want, n,
                  Issued(same, Values(orig, n), Values(want, n)));
  }

  // --------------------------------------------------- ending as it is wanted

  ghost predicate NoEmptyChangeOf(same: Same, orig: seq<string>, want: seq<string>) {
    forall i: nat :: KeptOrNonEmpty(same, orig, want, i)
  }

  lemma OutcomeStep(front: seq<string>, orig: seq<string>, i: nat, v: string)
    requires |front| == i < |orig|
    ensures front + orig[i..] == front + [orig[i]] + orig[i + 1..]
    ensures v != "" ==> Put(front + orig[i..], i, v) == front + [v] + orig[i + 1..]
  {
    assert orig[i..] == [orig[i]] + orig[i + 1..];
    PutAt(front, orig[i], orig[i + 1..], v);
  }

  lemma {:induction false} ChangedOutcome(same: Same, orig: seq<string>, want: seq<string>, k: nat)
    requires NoEmptyChangeOf(same, orig, want) && k <= |orig| && k <= |want|
    ensures Changed(same, orig, orig, want, k) == Outcome(same, orig, want, k) + orig[k..]
  {
    if k == 0 {
      assert [] + orig[0..] == orig;
    } else {
      ChangedOutcome(same, orig, want, k - 1);
      assert KeptOrNonEmpty(same, orig, want, k - 1);
      OutcomeStep(Outcome(same, orig, want, k - 1), orig, k - 1, want[k - 1]);
    }
  }

  lemma {:induction false} DownTakes(vs: seq<string>, lo: nat)
    requires lo <= |vs|
    ensures Down(vs, |vs|, lo) == vs[..lo]
    decreases |vs| - lo
  {
    if lo == |vs| {
      assert vs[..lo] == vs;
    } else {
      DownTakes(vs, lo + 1);
      assert vs[..lo + 1][..lo] + vs[..lo + 1][lo + 1..] == vs[..lo];
    }
  }

  /** A name none of whose differing wanted values is empty ends with each value its own where
      it only differs superficially and the wanted one otherwise. */
  lemma SimulatedOutcome(same: Same, orig: seq<string>, want: seq<string>)
    requires NoEmptyChangeOf(same, orig, want)
    ensures Simulated(same, orig, want) == Outcome(same, orig, want, |want|)
  {
    var k := Min(|orig|, |want|);
    ChangedOutcome(same, orig, want, k);
    OutcomeSplit(same, orig, want);
    var issued := Issued(same, orig, want);
    if |orig| < |want| {
      assert orig[k..] == [];
    } else {
      assert issued == Outcome(same, orig, want, k) + orig[k..];
      DownTakes(issued, |want|);
    }
  }

  lemma OutcomeDelivers(same: Same, orig: seq<string>, want: seq<string>)
    requires forall v :: same(v, v)
    ensures Delivers(same, Outcome(same, orig, want, |want|), want)
  {
    forall i | 0 <= i < |want|
      ensures same(Outcome(same, orig, want, |want|)[i], want[i])
    {
      OutcomeSame(same, orig, want, |want|, i);
    }
  }

  lemma SingleSimulated(same: Same, orig: seq<string>, want: seq<string>)
    requires |orig| == 1 && |want| == 1 && !same(orig[0], want[0]) && want[0] == ""
    ensures Simulated(same, orig, want) == []
  {
    assert Changed(same, orig, orig, want, 0) == orig;
    assert Put(orig, 0, "") == [];
  }

  lemma SingleAgrees(same: Same, orig: seq<string>, want: seq<string>)
    requires forall v :: same(v, v)
    requires |orig| <= 1 && |want| <= 1
    ensures Delivers(same, Simulated(same, orig, want), want) <==> KeptOrNonEmpty(same, orig, want, 0)
  {
    if KeptOrNonEmpty(same, orig, want, 0) {
      SimulatedOutcome(same, orig, want);
      OutcomeDelivers(same, orig, want);
    } else {
      SingleSimulated(same, orig, want);
    }
  }

  /** Asking for an empty value in place of a name's only one deletes the header, whatever the
      other headers are. */
  lemma EmptyChangeDeletes(canon: Canon, mta: Mta, same: Same, hs: seq<Header>, names: seq<string>, orig: Block,
                           want: Block, n: string, v: string)
    requires Conforming(canon, mta) && Groups(canon, orig, hs) && CanonicalKeys(canon, want)
    requires NoRepeats(names) && Covers(names, orig, want)
    requires Values(orig, n) == [v] && Values(want, n) == [""] && !same(v, "")
    ensures ValuesOf(canon, Exec(mta, hs, Plan(same, names, orig, want)), n) == []
  {
    NameEnds(canon, mta, same, hs, names, orig, want, n);
    SingleSimulated(same, Values(orig, n), Values(want, n));
  }

  predicate SingleValued(orig: Block, want: Block, n: string) {
    |Values(orig, n)| <= 1 && |Values(want, n)| <= 1
  }

  ghost predicate EndsAsWanted(canon: Canon, mta: Mta, same: Same, hs: seq<Header>, names: seq<string>, orig: Block,
                               want: Block, n: string)
  {
    Delivers(same, ValuesOf(canon, Exec(mta, hs, Plan(same, names, orig, want)), n), Values(want, n))
  }

  /** A name with at most one value on either side ends with what is wanted for it exactly if
      that is not an empty value in place of a different one. */
  lemma SingleDelivered(canon: Canon, mta: Mta, same: Same, hs: seq<Header>, names: seq<string>, orig: Block,
                        want: Block, n: string)
    requires Conforming(canon, mta) && Groups(canon, orig, hs) && CanonicalKeys(canon, want)
    requires NoRepeats(names) && Covers(names, orig, want)
    requires forall v :: same(v, v)
    requires SingleValued(orig, want, n)
    ensures EndsAsWanted(canon, mta, same, hs, names, orig, want, n)
            <==> KeptOrNonEmpty(same, Values(orig, n), Values(want, n), 0)
  {
    NameEnds(canon, mta, same, hs, names, orig, want, n);
    SingleAgrees(same, Values(orig, n), Values(want, n));
  }

  lemma NameByName(same: Same, orig: Block, want: Block, ends: string -> bool)
    requires forall n :: SingleValued(orig, want, n)
    requires forall n :: ends(n) <==> KeptOrNonEmpty(same, Values(orig, n), Values(want, n), 0)
    ensures (forall n :: ends(n)) <==> NoEmptyChange(same, orig, want)
  {
    if forall n :: ends(n) {
      forall n, i: nat
        ensures KeptOrNonEmpty(same, Values(orig, n), Values(want, n), i)
      {
        assert ends(n) && SingleValued(orig, want, n);
      }
    }
  }

  /** If no name has more than one value on either side, every name ends with what is wanted
      exactly if no differing wanted value is empty. */
  lemma AllDeliveredExactly(canon: Canon, mta: Mta, same: Same, hs: seq<Header>, names: seq<string>, orig: Block,
                            want: Block)
    requires Conforming(canon, mta) && Groups(canon, orig, hs) && CanonicalKeys(canon, want)
    requires NoRepeats(names) && Covers(names, orig, want)
    requires forall v :: same(v, v)
    requires forall n :: SingleValued(orig, want, n)
    ensures (forall n :: EndsAsWanted(canon, mta, same, hs, names, orig, want, n))
            <==> NoEmptyChange(same, orig, want)
  {
    forall n
      ensures EndsAsWanted(canon, mta, same, hs, names, orig, want, n)
              <==> KeptOrNonEmpty(same, Values(orig, n), Values(want, n), 0)
    {
      assert SingleValued(orig, want, n);
      SingleDelivered(canon, mta, same, hs, names, orig, want, n);
    }
    NameByName(same, orig, want, n => EndsAsWanted(canon, mta, same, hs, names, orig, want, n));
  }

  /** With more values the condition is sufficient only: here the first value is deleted, which
      moves the second one out of the way of the second change, and both end as wanted. */
  lemma TwoEmptyChanges(same: Same, a: string, c: string)
    requires !same(a, "") && !same("", c) && c != ""
    ensures Simulated(same, [a, ""], ["", c]) == ["", c] && !NoEmptyChangeOf(same, [a, ""], ["", c])
  {
    var orig, want := [a, ""], ["", c];
    assert Changed(same, orig, orig, want, 0) == orig;
    assert Changed(same, orig, orig, want, 1) == [""];
    assert Changed(same, orig, orig, want, 2) == ["", c];
    assert Beyond(orig, want) == [];
    assert !KeptOrNonEmpty(same, orig, want, 0);
  }
}
