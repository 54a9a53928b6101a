/** Reconciling the headers an MTA holds with the header block of a rewritten message: the
    operations that are issued and what they leave behind. */
module MilterReconcile {
  import opened Text
  import opened Sorting
  import opened MilterHeaders

  type Block = map<string, seq<string>>

  function Values(m: Block, n: string): seq<string> {
    if n in m then m[n] else []
  }

  predicate Grouped(canon: Canon, m: Block, hs: seq<Header>, n: string) {
    Values(m, n) == ValuesOf(canon, hs, n) && (n in m ==> m[n] != [])
  }

  /** The headers grouped by canonical name, in order within a name. */
  ghost predicate Groups(canon: Canon, m: Block, hs: seq<Header>) {
    forall n :: Grouped(canon, m, hs, n)
  }

  /** Whether two values of a header only differ superficially. */
  type Same = (string, string) -> bool

  // --------------------------------------------------------------------- plan

  function Min(a: nat, b: nat): nat {
    if a < b then a else b
  }

  /** Changes for the first k occurrences of a name that both sides have. */
  function Changes(same: Same, n: string, orig: seq<string>, want: seq<string>, k: nat): seq<Op>
    requires k <= |orig| && k <= |want|
  {
    if k == 0 then []
    else
      Changes(same, n, orig, want, k - 1)
      + if same(orig[k - 1], want[k - 1]) then [] else [Change(k, n, want[k - 1])]
  }

  /** Additions of the wanted values from position lo to hi - 1. */
  function Adds(n: string, want: seq<string>, lo: nat, hi: nat): seq<Op>
    requires lo <= hi <= |want|
  {
    if lo == hi then [] else Adds(n, want, lo, hi - 1) + [Add(n, want[hi - 1])]
  }

  datatype HeaderDelete = HeaderDelete(name: string, index: nat)

  /** Deletions scheduled for the occurrences from lo to hi - 1, counted from 0. */
  function Deletes(n: string, lo: nat, hi: nat): seq<HeaderDelete> {
    if lo >= hi then [] else Deletes(n, lo, hi - 1) + [HeaderDelete(n, hi)]
  }

  function NameOps(same: Same, n: string, orig: seq<string>, want: seq<string>): seq<Op> {
    Changes(same, n, orig, want, Min(|orig|, |want|))
    + if |orig| < |want| then Adds(n, want, |orig|, |want|) else []
  }

  function AllOps(same: Same, names: seq<string>, orig: Block, want: Block, k: nat): seq<Op>
    requires k <= |names|
  {
    if k == 0 then []
    else AllOps(same, names, orig, want, k - 1)
         + NameOps(same, names[k - 1], Values(orig, names[k - 1]), Values(want, names[k - 1]))
  }

  function AllDeletes(names: seq<string>, orig: Block, want: Block, k: nat): seq<HeaderDelete>
    requires k <= |names|
  {
    if k == 0 then []
    else AllDeletes(names, orig, want, k - 1)
         + Deletes(names[k - 1], |Values(want, names[k - 1])|, |Values(orig, names[k - 1])|)
  }

  /** Names ascending, and within a name the highest index first. */
  predicate DeleteBefore(a: HeaderDelete, b: HeaderDelete) {
    if a.name != b.name then Less(a.name, b.name) else a.index > b.index
  }

  /** The first k scheduled deletions as operations. */
  function DeleteOps(ds: seq<HeaderDelete>, k: nat): seq<Op>
    requires k <= |ds|
  {
    if k == 0 then [] else DeleteOps(ds, k - 1) + [Change(ds[k - 1].index, ds[k - 1].name, "")]
  }

  /** Every header operation, in the order it is issued. */
  function Plan(same: Same, names: seq<string>, orig: Block, want: Block): seq<Op> {
    var ds := Sort(AllDeletes(names, orig, want, |names|), DeleteBefore);
    AllOps(same, names, orig, want, |names|) + DeleteOps(ds, |ds|)
  }

  // ------------------------------------------------------------------- result

  /** The value a kept occurrence ends with: its own if it only differs superficially. */
  function Settled(same: Same, orig: string, want: string): string {
    if same(orig, want) then orig else want
  }

  /** Header j once the names in done have been reconciled, before deletions. */
  function Value(canon: Canon, same: Same, hs: seq<Header>, want: Block, done: set<string>, j: nat): string
    requires j < |hs|
  {
    var n, i := canon(hs[j].name), Ordinal(canon, hs, j);
    if n in done && i < |Values(want, n)| then Settled(same, hs[j].value, Values(want, n)[i])
    else hs[j].value
  }

  predicate Surplus(canon: Canon, hs: seq<Header>, want: Block, j: nat)
    requires j < |hs|
  {
    Ordinal(canon, hs, j) >= |Values(want, canon(hs[j].name))|
  }

  function Kept(canon: Canon, same: Same, hs: seq<Header>, want: Block): (c: Cells)
    ensures |c| == |hs|
  {
    seq(|hs|, j requires 0 <= j < |hs| =>
      if Surplus(canon, hs, want, j) then None
      else Some(Value(canon, same, hs, want, {canon(hs[j].name)}, j)))
  }

  function AddedHeaders(n: string, want: seq<string>, lo: nat, hi: nat): seq<Header>
    requires lo <= hi <= |want|
  {
    if lo == hi then [] else AddedHeaders(n, want, lo, hi - 1) + [Header(n, want[hi - 1])]
  }

  function AddedFor(n: string, orig: seq<string>, want: seq<string>): seq<Header> {
    if |orig| < |want| then AddedHeaders(n, want, |orig|, |want|) else []
  }

  function Added(names: seq<string>, orig: Block, want: Block, k: nat): seq<Header>
    requires k <= |names|
  {
    if k == 0 then []
    else Added(names, orig, want, k - 1)
         + AddedFor(names[k - 1], Values(orig, names[k - 1]), Values(want, names[k - 1]))
  }

  /** The header list that should result: the kept headers in their old order with settled
      values, then the additions name by name. */
  function Reconciled(canon: Canon, same: Same, hs: seq<Header>, names: seq<string>, orig: Block, want: Block)
    : seq<Header>
  {
    Rendered(hs, Kept(canon, same, hs, want)) + Added(names, orig, want, |names|)
  }

  predicate KeptOrNonEmpty(same: Same, orig: seq<string>, want: seq<string>, i: nat) {
    i < |orig| && i < |want| ==> same(orig[i], want[i]) || want[i] != ""
  }

  /** No wanted value that differs from the one in its place is empty. On the wire an empty
      value means deletion. */
  ghost predicate NoEmptyChange(same: Same, orig: Block, want: Block) {
    forall n, i: nat :: KeptOrNonEmpty(same, Values(orig, n), Values(want, n), i)
  }

  ghost predicate Covers(names: seq<string>, orig: Block, want: Block) {
    forall n :: n in names <==> n in orig || n in want
  }

  // ----------------------------------------------------------- first phase

  function DoneUpTo(names: seq<string>, k: nat): set<string>
    requires k <= |names|
  {
    if k == 0 then {} else DoneUpTo(names, k - 1) + {names[k - 1]}
  }

  lemma {:induction false} DoneMember(names: seq<string>, k: nat, n: string)
    requires k <= |names|
    ensures n in DoneUpTo(names, k) <==> n in names[..k]
  {
    if k > 0 {
      DoneMember(names, k - 1, n);
      assert names[..k] == names[..k - 1] + [names[k - 1]];
    }
  }

  /** The cells when the names in done are reconciled. */
  function Settling(canon: Canon, same: Same, hs: seq<Header>, want: Block, done: set<string>): (r: Cells)
    ensures |r| == |hs|
  {
    seq(|hs|, j requires 0 <= j < |hs| => Some(Value(canon, same, hs, want, done, j)))
  }

  /** The cells when, besides, the first c occurrences of n are. */
  function Midway(canon: Canon, same: Same, hs: seq<Header>, want: Block, done: set<string>, n: string, c: nat)
    : (r: Cells)
    ensures |r| == |hs|
  {
    seq(|hs|, j requires 0 <= j < |hs| =>
      Some(Value(canon, same, hs, want,
                 if canon(hs[j].name) == n && Ordinal(canon, hs, j) < c then done + {n} else done, j)))
  }

  /** One more occurrence reconciled touches one cell. */
  lemma MidwayStep(canon: Canon, same: Same, hs: seq<Header>, want: Block, done: set<string>, n: string, k: nat, j: nat)
    requires 0 < k <= |Values(want, n)| && n !in done
    requires j < |hs| && canon(hs[j].name) == n && Ordinal(canon, hs, j) == k - 1
    ensures Midway(canon, same, hs, want, done, n, k)
            == Midway(canon, same, hs, want, done, n, k - 1)
                 [j := Some(Settled(same, hs[j].value, Values(want, n)[k - 1]))]
    ensures Midway(canon, same, hs, want, done, n, k - 1)[j] == Some(hs[j].value)
  {
    var before, after := Midway(canon, same, hs, want, done, n, k - 1), Midway(canon, same, hs, want, done, n, k);
    forall i | 0 <= i < |hs| && i != j
      ensures before[i] == after[i]
    {
      if canon(hs[i].name) == n {
        if i < j { OrdinalInjective(canon, hs, i, j); } else { OrdinalInjective(canon, hs, j, i); }
      }
    }
  }

  lemma ChangeOne(canon: Canon, mta: Mta, same: Same, start: seq<Header>, sofar: seq<Op>, hs: seq<Header>,
                  orig: Block, want: Block, done: set<string>, n: string, k: nat, tail: seq<Header>)
    requires Conforming(canon, mta) && Groups(canon, orig, hs) && NoEmptyChange(same, orig, want) && n !in done
    requires 0 < k <= |Values(orig, n)| && k <= |Values(want, n)|
    requires Exec(mta, start, sofar) == Rendered(hs, Midway(canon, same, hs, want, done, n, k - 1)) + tail
    ensures Exec(mta, start, sofar + if same(Values(orig, n)[k - 1], Values(want, n)[k - 1]) then []
                                     else [Change(k, n, Values(want, n)[k - 1])])
            == Rendered(hs, Midway(canon, same, hs, want, done, n, k)) + tail
  {
    var o, w := Values(orig, n)[k - 1], Values(want, n)[k - 1];
    assert Grouped(canon, orig, hs, n);
    var j := Locate(canon, hs, n, k - 1, |hs|);
    MidwayStep(canon, same, hs, want, done, n, k, j);
    var cells := Midway(canon, same, hs, want, done, n, k - 1);
    if same(o, w) {
      assert cells[j := cells[j]] == cells && sofar + [] == sofar;
    } else {
      assert KeptOrNonEmpty(same, Values(orig, n), Values(want, n), k - 1);
      RunChange(canon, mta, start, sofar, hs, cells, tail, j, w);
    }
  }

  lemma {:induction false} ChangesRun(canon: Canon, mta: Mta, same: Same, hs: seq<Header>, orig: Block, want: Block,
                                      done: set<string>, n: string, k: nat, tail: seq<Header>)
    requires Conforming(canon, mta) && Groups(canon, orig, hs) && NoEmptyChange(same, orig, want) && n !in done
    requires k <= |Values(orig, n)| && k <= |Values(want, n)|
    ensures Exec(mta, Rendered(hs, Settling(canon, same, hs, want, done)) + tail,
                 Changes(same, n, Values(orig, n), Values(want, n), k))
            == Rendered(hs, Midway(canon, same, hs, want, done, n, k)) + tail
  {
    if k == 0 {
      assert Midway(canon, same, hs, want, done, n, 0) == Settling(canon, same, hs, want, done);
    } else {
      ChangesRun(canon, mta, same, hs, orig, want, done, n, k - 1, tail);
      ChangeOne(canon, mta, same, Rendered(hs, Settling(canon, same, hs, want, done)) + tail,
                Changes(same, n, Values(orig, n), Values(want, n), k - 1),
                hs, orig, want, done, n, k, tail);
    }
  }

  lemma {:induction false} AddsRun(canon: Canon, mta: Mta, start: seq<Header>, n: string, want: seq<string>, lo: nat,
                                   hi: nat)
    requires Conforming(canon, mta) && lo <= hi <= |want|
    ensures Exec(mta, start, Adds(n, want, lo, hi)) == start + AddedHeaders(n, want, lo, hi)
  {
    if lo == hi {
      assert start + [] == start;
    } else {
      AddsRun(canon, mta, start, n, want, lo, hi - 1);
      RunAdd(canon, mta, start, Adds(n, want, lo, hi - 1), n, want[hi - 1]);
      Associate(start, AddedHeaders(n, want, lo, hi - 1), [Header(n, want[hi - 1])]);
    }
  }

  lemma Associate<T>(a: seq<T>, b: seq<T>, c: seq<T>)
    ensures a + b + c == a + (b + c)
  {}

  /** With all occurrences both sides have reconciled, the name is done. */
  lemma MidwayDone(canon: Canon, same: Same, hs: seq<Header>, orig: Block, want: Block, done: set<string>, n: string)
    requires Groups(canon, orig, hs) && n !in done
    ensures Midway(canon, same, hs, want, done, n, Min(|Values(orig, n)|, |Values(want, n)|))
            == Settling(canon, same, hs, want, done + {n})
  {
    assert Grouped(canon, orig, hs, n);
    forall j | 0 <= j < |hs| && canon(hs[j].name) == n
      ensures Ordinal(canon, hs, j) < |Values(orig, n)|
    {
      OrdinalValue(canon, hs, j);
    }
  }

  lemma NameRun(canon: Canon, mta: Mta, same: Same, hs: seq<Header>,
                orig: Block, want: Block, done: set<string>, n: string, tail: seq<Header>)
    requires Conforming(canon, mta) && Groups(canon, orig, hs) && NoEmptyChange(same, orig, want) && n !in done
    ensures Exec(mta, Rendered(hs, Settling(canon, same, hs, want, done)) + tail,
                 NameOps(same, n, Values(orig, n), Values(want, n)))
            == Rendered(hs, Settling(canon, same, hs, want, done + {n}))
               + (tail + AddedFor(n, Values(orig, n), Values(want, n)))
  {
    var os, ws := Values(orig, n), Values(want, n);
    var start := Rendered(hs, Settling(canon, same, hs, want, done)) + tail;
    var changes := Changes(same, n, os, ws, Min(|os|, |ws|));
    var kept := Rendered(hs, Settling(canon, same, hs, want, done + {n}));
    ChangesRun(canon, mta, same, hs, orig, want, done, n, Min(|os|, |ws|), tail);
    MidwayDone(canon, same, hs, orig, want, done, n);
    Associate(kept, tail, AddedFor(n, os, ws));
    if |os| < |ws| {
      AddsRun(canon, mta, kept + tail, n, ws, |os|, |ws|);
      Compose(mta, start, changes, kept + tail, Adds(n, ws, |os|, |ws|), kept + tail + AddedFor(n, os, ws));
    } else {
      assert changes + [] == changes && tail + [] == tail;
    }
  }

  lemma NewName(names: seq<string>, k: nat)
    requires NoRepeats(names) && k < |names|
    ensures names[k] !in DoneUpTo(names, k)
  {
    DoneMember(names, k, names[k]);
  }

  lemma NameStep(canon: Canon, mta: Mta, same: Same, hs: seq<Header>, sofar: seq<Op>,
                 orig: Block, want: Block, done: set<string>, n: string, tail: seq<Header>)
    requires Conforming(canon, mta) && Groups(canon, orig, hs) && NoEmptyChange(same, orig, want) && n !in done
    requires Exec(mta, hs, sofar) == Rendered(hs, Settling(canon, same, hs, want, done)) + tail
    ensures Exec(mta, hs, sofar + NameOps(same, n, Values(orig, n), Values(want, n)))
            == Rendered(hs, Settling(canon, same, hs, want, done + {n}))
               + (tail + AddedFor(n, Values(orig, n), Values(want, n)))
  {
    NameRun(canon, mta, same, hs, orig, want, done, n, tail);
    Compose(mta, hs, sofar, Rendered(hs, Settling(canon, same, hs, want, done)) + tail,
            NameOps(same, n, Values(orig, n), Values(want, n)),
            Rendered(hs, Settling(canon, same, hs, want, done + {n}))
            + (tail + AddedFor(n, Values(orig, n), Values(want, n))));
  }

  /** The list after the first k names: kept headers settled so far, and additions. */
  function AfterNames(canon: Canon, same: Same, hs: seq<Header>, names: seq<string>, orig: Block, want: Block, k: nat)
    : seq<Header>
    requires k <= |names|
  {
    Rendered(hs, Settling(canon, same, hs, want, DoneUpTo(names, k))) + Added(names, orig, want, k)
  }

  lemma AfterNoName(canon: Canon, same: Same, hs: seq<Header>, names: seq<string>, orig: Block, want: Block)
    ensures AfterNames(canon, same, hs, names, orig, want, 0) == hs
  {
    RenderOriginal(hs, |hs|);
    assert Settling(canon, same, hs, want, {}) == Original(hs);
    assert hs[..|hs|] == hs && hs + [] == hs;
  }

  lemma AfterNextName(canon: Canon, mta: Mta, same: Same, hs: seq<Header>, sofar: seq<Op>,
                      names: seq<string>, orig: Block, want: Block, k: nat)
    requires Conforming(canon, mta) && Groups(canon, orig, hs) && NoEmptyChange(same, orig, want)
    requires NoRepeats(names) && k < |names|
    requires Exec(mta, hs, sofar) == AfterNames(canon, same, hs, names, orig, want, k)
    ensures Exec(mta, hs, sofar + NameOps(same, names[k], Values(orig, names[k]), Values(want, names[k])))
            == AfterNames(canon, same, hs, names, orig, want, k + 1)
  {
    NewName(names, k);
    NameStep(canon, mta, same, hs, sofar, orig, want, DoneUpTo(names, k), names[k], Added(names, orig, want, k));
  }

  lemma {:induction false} AllRun(canon: Canon, mta: Mta, same: Same, hs: seq<Header>, names: seq<string>,
                                  orig: Block, want: Block, k: nat)
    requires Conforming(canon, mta) && Groups(canon, orig, hs) && NoEmptyChange(same, orig, want)
    requires NoRepeats(names) && k <= |names|
    ensures Exec(mta, hs, AllOps(same, names, orig, want, k)) == AfterNames(canon, same, hs, names, orig, want, k)
  {
    if k == 0 {
      AfterNoName(canon, same, hs, names, orig, want);
    } else {
      AllRun(canon, mta, same, hs, names, orig, want, k - 1);
      AfterNextName(canon, mta, same, hs, AllOps(same, names, orig, want, k - 1), names, orig, want, k - 1);
    }
  }

  // ---------------------------------------------------------- second phase

  /** The deletions a list schedules are of surplus headers, each once. */
  ghost predicate Schedules(ds: seq<HeaderDelete>, orig: Block, want: Block) {
    && (forall d :: d in ds <==> |Values(want, d.name)| < d.index <= |Values(orig, d.name)|)
    && NoRepeats(ds)
  }

  lemma {:induction false} DeletesOf(n: string, lo: nat, hi: nat)
    ensures forall d :: d in Deletes(n, lo, hi) <==> d.name == n && lo < d.index <= hi
    ensures NoRepeats(Deletes(n, lo, hi))
  {
    if lo < hi {
      DeletesOf(n, lo, hi - 1);
      var front, last := Deletes(n, lo, hi - 1), HeaderDelete(n, hi);
      assert last !in front;
    }
  }

  lemma {:induction false} DeletesAre(names: seq<string>, orig: Block, want: Block, k: nat)
    requires NoRepeats(names) && k <= |names|
    ensures forall d :: d in AllDeletes(names, orig, want, k) <==>
              d.name in names[..k] && |Values(want, d.name)| < d.index <= |Values(orig, d.name)|
    ensures NoRepeats(AllDeletes(names, orig, want, k))
  {
    if k > 0 {
      var n := names[k - 1];
      DeletesAre(names, orig, want, k - 1);
      assert names[..k] == names[..k - 1] + [n];
      var front := AllDeletes(names, orig, want, k - 1);
      var last := Deletes(n, |Values(want, n)|, |Values(orig, n)|);
      DeletesOf(n, |Values(want, n)|, |Values(orig, n)|);
      forall p, q | 0 <= p < |front| && 0 <= q < |last|
        ensures front[p] != last[q]
      {
        assert front[p] in front && last[q] in last;
        assert n !in names[..k - 1];
      }
      DistinctConcat(front, last);
    }
  }

  lemma DistinctConcat(a: seq<HeaderDelete>, b: seq<HeaderDelete>)
    requires NoRepeats(a)
    requires NoRepeats(b)
    requires forall p, q :: 0 <= p < |a| && 0 <= q < |b| ==> a[p] != b[q]
    ensures NoRepeats(a + b)
  {}

  lemma DeleteBeforeIsStrict()
    ensures StrictOrder(DeleteBefore)
  {
    forall a: HeaderDelete, b: HeaderDelete
      ensures DeleteBefore(a, b) ==> !DeleteBefore(b, a)
      ensures a == b || DeleteBefore(a, b) || DeleteBefore(b, a)
    {
      LessTotal(a.name, b.name);
    }
    forall a: HeaderDelete, b: HeaderDelete, c: HeaderDelete | DeleteBefore(a, b) && DeleteBefore(b, c)
      ensures DeleteBefore(a, c)
    {
      LessTotal(a.name, b.name);
      if a.name != b.name && b.name != c.name {
        LessTransitive(a.name, b.name, c.name);
        LessTotal(a.name, a.name);
        LessTotal(a.name, c.name);
      }
    }
  }

  /** Within a name the deletions go from the highest index down. */
  ghost predicate HighestFirst(ds: seq<HeaderDelete>) {
    forall p, q :: 0 <= p < q < |ds| && ds[p].name == ds[q].name ==> ds[p].index > ds[q].index
  }

  lemma SameElements(a: seq<HeaderDelete>, c: seq<HeaderDelete>, x: HeaderDelete)
    requires multiset(a) == multiset(c)
    ensures x in a <==> x in c
  {
    assert x in a <==> x in multiset(a);
    assert x in c <==> x in multiset(c);
  }

  lemma SortedSchedule(names: seq<string>, orig: Block, want: Block)
    requires NoRepeats(names) && Covers(names, orig, want)
    ensures var ds := Sort(AllDeletes(names, orig, want, |names|), DeleteBefore);
            Schedules(ds, orig, want) && HighestFirst(ds)
  {
    var all := AllDeletes(names, orig, want, |names|);
    var ds := Sort(all, DeleteBefore);
    DeletesAre(names, orig, want, |names|);
    assert names[..|names|] == names;
    forall d
      ensures d in ds <==> |Values(want, d.name)| < d.index <= |Values(orig, d.name)|
    {
      SameElements(all, ds, d);
    }
    RearrangedNoRepeats(all, ds);
    SortedDescends(all, ds);
  }

  lemma SortedDescends(all: seq<HeaderDelete>, ds: seq<HeaderDelete>)
    requires ds == Sort(all, DeleteBefore)
    requires NoRepeats(ds)
    ensures HighestFirst(ds)
  {
    DeleteBeforeIsStrict();
    SortSorted(all, DeleteBefore);
    forall p, q | 0 <= p < q < |ds| && ds[p].name == ds[q].name
      ensures ds[p].index > ds[q].index
    {
      assert !DeleteBefore(ds[q], ds[p]);
    }
  }

  /** The cells once the first k scheduled deletions are carried out. */
  function Deleted(canon: Canon, hs: seq<Header>, cells: Cells, ds: seq<HeaderDelete>, k: nat): (r: Cells)
    requires |cells| == |hs| && k <= |ds|
    ensures |r| == |hs|
  {
    seq(|hs|, j requires 0 <= j < |hs| =>
      if HeaderDelete(canon(hs[j].name), Ordinal(canon, hs, j) + 1) in ds[..k] then None else cells[j])
  }

  /** Carrying out deletion k touches one cell, and the earlier ones of its name are alive. */
  lemma DeletedStep(canon: Canon, hs: seq<Header>, cells: Cells, ds: seq<HeaderDelete>, k: nat, j: nat)
    requires |cells| == |hs| && forall i :: 0 <= i < |hs| ==> cells[i].Some?
    requires k < |ds| && HighestFirst(ds)
    requires j < |hs| && ds[k] == HeaderDelete(canon(hs[j].name), Ordinal(canon, hs, j) + 1)
    ensures Deleted(canon, hs, cells, ds, k + 1) == Deleted(canon, hs, cells, ds, k)[j := None]
    ensures forall i :: 0 <= i <= j && canon(hs[i].name) == canon(hs[j].name) ==>
              Deleted(canon, hs, cells, ds, k)[i].Some?
  {
    var n := canon(hs[j].name);
    assert ds[..k + 1] == ds[..k] + [ds[k]];
    forall i | 0 <= i < |hs| && i != j
      ensures HeaderDelete(canon(hs[i].name), Ordinal(canon, hs, i) + 1) != ds[k]
    {
      if canon(hs[i].name) == n {
        if i < j { OrdinalInjective(canon, hs, i, j); } else { OrdinalInjective(canon, hs, j, i); }
      }
    }
    forall i | 0 <= i <= j && canon(hs[i].name) == n
      ensures HeaderDelete(n, Ordinal(canon, hs, i) + 1) !in ds[..k]
    {
      if i < j {
        OrdinalInjective(canon, hs, i, j);
      }
      forall p | 0 <= p < k
        ensures ds[p] != HeaderDelete(n, Ordinal(canon, hs, i) + 1)
      {}
    }
  }

  lemma DeleteOne(canon: Canon, mta: Mta, start: seq<Header>, sofar: seq<Op>, hs: seq<Header>, cells: Cells,
                  ds: seq<HeaderDelete>, k: nat, tail: seq<Header>, j: nat)
    requires Conforming(canon, mta) && HighestFirst(ds)
    requires |cells| == |hs| && forall i :: 0 <= i < |hs| ==> cells[i].Some?
    requires k < |ds| && j < |hs|
    requires ds[k] == HeaderDelete(canon(hs[j].name), Ordinal(canon, hs, j) + 1)
    requires Exec(mta, start, sofar) == Rendered(hs, Deleted(canon, hs, cells, ds, k)) + tail
    ensures Exec(mta, start, sofar + [Change(ds[k].index, ds[k].name, "")])
            == Rendered(hs, Deleted(canon, hs, cells, ds, k + 1)) + tail
  {
    DeletedStep(canon, hs, cells, ds, k, j);
    RunChange(canon, mta, start, sofar, hs, Deleted(canon, hs, cells, ds, k), tail, j, "");
  }

  /** The first k scheduled deletions did what they should. */
  ghost predicate DeletesDone(canon: Canon, mta: Mta, hs: seq<Header>, cells: Cells, ds: seq<HeaderDelete>,
                              tail: seq<Header>, k: nat)
  {
    && |cells| == |hs| && k <= |ds|
    && Exec(mta, Rendered(hs, cells) + tail, DeleteOps(ds, k)) == Rendered(hs, Deleted(canon, hs, cells, ds, k)) + tail
  }

  lemma DeleteNext(canon: Canon, mta: Mta, hs: seq<Header>, orig: Block, want: Block, cells: Cells,
                   ds: seq<HeaderDelete>, k: nat, tail: seq<Header>)
    requires Conforming(canon, mta) && Groups(canon, orig, hs) && Schedules(ds, orig, want) && HighestFirst(ds)
    requires k < |ds| && DeletesDone(canon, mta, hs, cells, ds, tail, k)
    requires forall j :: 0 <= j < |hs| ==> cells[j].Some?
    ensures DeletesDone(canon, mta, hs, cells, ds, tail, k + 1)
  {
    var d := ds[k];
    assert d in ds && Grouped(canon, orig, hs, d.name);
    var j := Locate(canon, hs, d.name, d.index - 1, |hs|);
    DeleteOne(canon, mta, Rendered(hs, cells) + tail, DeleteOps(ds, k), hs, cells, ds, k, tail, j);
  }

  /** Deleting from the highest index down, no deletion shifts an index still pending. */
  lemma DeletesRun(canon: Canon, mta: Mta, hs: seq<Header>, orig: Block, want: Block, cells: Cells,
                   ds: seq<HeaderDelete>, tail: seq<Header>)
    requires Conforming(canon, mta) && Groups(canon, orig, hs) && Schedules(ds, orig, want) && HighestFirst(ds)
    requires |cells| == |hs| && forall j :: 0 <= j < |hs| ==> cells[j].Some?
    ensures Exec(mta, Rendered(hs, cells) + tail, DeleteOps(ds, |ds|))
            == Rendered(hs, Deleted(canon, hs, cells, ds, |ds|)) + tail
  {
    assert Deleted(canon, hs, cells, ds, 0) == cells;
    forall k: nat | k < |ds| && DeletesDone(canon, mta, hs, cells, ds, tail, k)
      ensures DeletesDone(canon, mta, hs, cells, ds, tail, k + 1)
    {
      DeleteNext(canon, mta, hs, orig, want, cells, ds, k, tail);
    }
    Ascend((k: nat) => DeletesDone(canon, mta, hs, cells, ds, tail, k), |ds|);
  }

  // ------------------------------------------------------------ main theorem

  lemma DeletedIsKept(canon: Canon, same: Same, hs: seq<Header>, names: seq<string>, orig: Block, want: Block,
                      ds: seq<HeaderDelete>)
    requires Groups(canon, orig, hs) && Covers(names, orig, want) && Schedules(ds, orig, want)
    ensures Deleted(canon, hs, Settling(canon, same, hs, want, DoneUpTo(names, |names|)), ds, |ds|)
            == Kept(canon, same, hs, want)
  {
    var done := DoneUpTo(names, |names|);
    assert ds[..|ds|] == ds;
    forall j | 0 <= j < |hs|
      ensures canon(hs[j].name) in done
      ensures HeaderDelete(canon(hs[j].name), Ordinal(canon, hs, j) + 1) in ds <==> Surplus(canon, hs, want, j)
    {
      var n := canon(hs[j].name);
      OrdinalValue(canon, hs, j);
      assert Grouped(canon, orig, hs, n);
      assert n in orig;
      DoneMember(names, |names|, n);
      assert names[..|names|] == names;
    }
  }

  /** Patch correctness: the issued operations turn the MTA's list into the reconciled one. */
  lemma PlanReconciles(canon: Canon, mta: Mta, same: Same, hs: seq<Header>, names: seq<string>, orig: Block,
                       want: Block)
    requires Conforming(canon, mta) && Groups(canon, orig, hs) && NoEmptyChange(same, orig, want)
    requires NoRepeats(names) && Covers(names, orig, want)
    ensures Exec(mta, hs, Plan(same, names, orig, want)) == Reconciled(canon, same, hs, names, orig, want)
  {
    var cells := Settling(canon, same, hs, want, DoneUpTo(names, |names|));
    var ds := Sort(AllDeletes(names, orig, want, |names|), DeleteBefore);
    var tail := Added(names, orig, want, |names|);
    AllRun(canon, mta, same, hs, names, orig, want, |names|);
    SortedSchedule(names, orig, want);
    DeletesRun(canon, mta, hs, orig, want, cells, ds, tail);
    DeletedIsKept(canon, same, hs, names, orig, want, ds);
    Compose(mta, hs, AllOps(same, names, orig, want, |names|), Rendered(hs, cells) + tail,
            DeleteOps(ds, |ds|), Rendered(hs, Kept(canon, same, hs, want)) + tail);
  }
}
