/** What a reconciled header list means name by name. */
module MilterOutcome {
  import opened Sorting
  import opened Text
  import opened MilterHeaders
  import opened MilterReconcile

  /** The first c values of a name after reconciliation. */
  function Outcome(same: Same, orig: seq<string>, want: seq<string>, c: nat): (r: seq<string>)
    requires c <= |want|
    ensures |r| == c
  {
    if c == 0 then []
    else Outcome(same, orig, want, c - 1)
         + [if c <= |orig| then Settled(same, orig[c - 1], want[c - 1]) else want[c - 1]]
  }

  /** The values n keeps among the first k headers. */
  function KeptOf(canon: Canon, same: Same, hs: seq<Header>, orig: Block, want: Block, n: string, k: nat): seq<string>
    requires k <= |hs|
  {
    Outcome(same, Values(orig, n), Values(want, n), Min(|ValuesUpTo(canon, hs, n, k)|, |Values(want, n)|))
  }

  /** What header k contributes to the values of n. */
  function Share(canon: Canon, same: Same, hs: seq<Header>, want: Block, n: string, k: nat): seq<string>
    requires k < |hs|
  {
    if canon(hs[k].name) == n && Ordinal(canon, hs, k) < |Values(want, n)|
    then [Settled(same, hs[k].value, Values(want, n)[Ordinal(canon, hs, k)])]
    else []
  }

  lemma RenderedStep(canon: Canon, same: Same, hs: seq<Header>, orig: Block, want: Block, n: string, k: nat)
    requires k < |hs|
    ensures var cells := Kept(canon, same, hs, want);
            ValuesOf(canon, Render(hs, cells, 0, k + 1), n)
            == ValuesOf(canon, Render(hs, cells, 0, k), n) + Share(canon, same, hs, want, n, k)
  {
    var cells := Kept(canon, same, hs, want);
    var front := Render(hs, cells, 0, k);
    if cells[k].Some? {
      ValuesAppend(canon, front, Header(hs[k].name, cells[k].value), n);
    } else {
      assert front + [] == front;
    }
  }

  lemma KeptStep(canon: Canon, same: Same, hs: seq<Header>, orig: Block, want: Block, n: string, k: nat)
    requires Groups(canon, orig, hs) && k < |hs|
    ensures KeptOf(canon, same, hs, orig, want, n, k + 1)
            == KeptOf(canon, same, hs, orig, want, n, k) + Share(canon, same, hs, want, n, k)
  {
    var before, after := ValuesUpTo(canon, hs, n, k), ValuesUpTo(canon, hs, n, k + 1);
    assert Grouped(canon, orig, hs, n);
    if canon(hs[k].name) == n {
      OrdinalValue(canon, hs, k);
      assert |after| == |before| + 1;
    } else {
      assert |after| == |before|;
    }
  }

  ghost predicate KeptSoFar(canon: Canon, same: Same, hs: seq<Header>, orig: Block, want: Block, n: string, k: nat) {
    && k <= |hs|
    && ValuesOf(canon, Render(hs, Kept(canon, same, hs, want), 0, k), n) == KeptOf(canon, same, hs, orig, want, n, k)
  }

  lemma KeptNext(canon: Canon, same: Same, hs: seq<Header>, orig: Block, want: Block, n: string, k: nat)
    requires Groups(canon, orig, hs) && k < |hs| && KeptSoFar(canon, same, hs, orig, want, n, k)
    ensures KeptSoFar(canon, same, hs, orig, want, n, k + 1)
  {
    RenderedStep(canon, same, hs, orig, want, n, k);
    KeptStep(canon, same, hs, orig, want, n, k);
  }

  lemma KeptValues(canon: Canon, same: Same, hs: seq<Header>, orig: Block, want: Block, n: string)
    requires Groups(canon, orig, hs)
    ensures KeptSoFar(canon, same, hs, orig, want, n, |hs|)
  {
    forall k: nat | k < |hs| && KeptSoFar(canon, same, hs, orig, want, n, k)
      ensures KeptSoFar(canon, same, hs, orig, want, n, k + 1)
    {
      KeptNext(canon, same, hs, orig, want, n, k);
    }
    Ascend((k: nat) => KeptSoFar(canon, same, hs, orig, want, n, k), |hs|);
  }

  lemma {:induction false} AddedHeadersValues(canon: Canon, n: string, want: seq<string>, lo: nat, hi: nat, m: string)
    requires lo <= hi <= |want|
    ensures ValuesOf(canon, AddedHeaders(n, want, lo, hi), m) == if canon(n) == m then want[lo..hi] else []
  {
    if lo < hi {
      AddedHeadersValues(canon, n, want, lo, hi - 1, m);
      ValuesAppend(canon, AddedHeaders(n, want, lo, hi - 1), Header(n, want[hi - 1]), m);
    }
  }

  /** The values wanted beyond those the original has. */
  function Beyond(orig: seq<string>, want: seq<string>): seq<string> {
    if |orig| < |want| then want[|orig|..] else []
  }

  lemma AddedForValues(canon: Canon, m: string, orig: seq<string>, want: seq<string>, n: string)
    requires want != [] ==> canon(m) == m
    ensures ValuesOf(canon, AddedFor(m, orig, want), n) == if m == n then Beyond(orig, want) else []
  {
    if |orig| < |want| {
      AddedHeadersValues(canon, m, want, |orig|, |want|, n);
    }
  }

  predicate CanonicalKey(canon: Canon, want: Block, m: string) {
    m in want ==> canon(m) == m
  }

  /** The rewritten header block is keyed by canonical names. */
  ghost predicate CanonicalKeys(canon: Canon, want: Block) {
    forall m :: CanonicalKey(canon, want, m)
  }

  function AddedOf(orig: Block, want: Block, n: string, done: set<string>): seq<string> {
    if n in done then Beyond(Values(orig, n), Values(want, n)) else []
  }

  /** The values of n among the additions for the first k names. */
  lemma {:induction false} AddedValues(canon: Canon, names: seq<string>, orig: Block, want: Block, k: nat, n: string)
    requires NoRepeats(names) && k <= |names| && CanonicalKeys(canon, want)
    ensures ValuesOf(canon, Added(names, orig, want, k), n) == AddedOf(orig, want, n, DoneUpTo(names, k))
  {
    if k > 0 {
      AddedValues(canon, names, orig, want, k - 1, n);
      NewName(names, k - 1);
      AddedStep(canon, Added(names, orig, want, k - 1), orig, want, n, DoneUpTo(names, k - 1), names[k - 1]);
    }
  }

  lemma AddedStep(canon: Canon, front: seq<Header>, orig: Block, want: Block, n: string, done: set<string>, m: string)
    requires CanonicalKeys(canon, want) && m !in done
    requires ValuesOf(canon, front, n) == AddedOf(orig, want, n, done)
    ensures ValuesOf(canon, front + AddedFor(m, Values(orig, m), Values(want, m)), n)
            == AddedOf(orig, want, n, done + {m})
  {
    assert CanonicalKey(canon, want, m);
    AddedForValues(canon, m, Values(orig, m), Values(want, m), n);
    ValuesPlus(canon, front, AddedFor(m, Values(orig, m), Values(want, m)), n);
  }

  /** The outcome is what the occurrences both sides have end with, then the values beyond. */
  lemma {:induction false} OutcomeTail(same: Same, orig: seq<string>, want: seq<string>, c: nat)
    requires |orig| <= c <= |want|
    ensures Outcome(same, orig, want, c) == Outcome(same, orig, want, |orig|) + want[|orig|..c]
  {
    if c > |orig| {
      OutcomeTail(same, orig, want, c - 1);
      assert want[|orig|..c] == want[|orig|..c - 1] + [want[c - 1]];
    } else {
      assert want[|orig|..c] == [];
    }
  }

  lemma OutcomeSplit(same: Same, orig: seq<string>, want: seq<string>)
    ensures Outcome(same, orig, want, Min(|orig|, |want|)) + Beyond(orig, want)
            == Outcome(same, orig, want, |want|)
  {
    if |orig| < |want| {
      OutcomeTail(same, orig, want, |want|);
      assert want[|orig|..|want|] == want[|orig|..];
    }
  }

  /** After reconciliation every name has exactly its wanted number of values: its own where
      they only differ superficially, the wanted one otherwise. Other names are as they were. */
  lemma ReconciledValues(canon: Canon, same: Same, hs: seq<Header>, names: seq<string>, orig: Block, want: Block,
                         n: string)
    requires Groups(canon, orig, hs) && NoRepeats(names) && Covers(names, orig, want)
    requires CanonicalKeys(canon, want)
    ensures ValuesOf(canon, Reconciled(canon, same, hs, names, orig, want), n)
            == Outcome(same, Values(orig, n), Values(want, n), |Values(want, n)|)
  {
    assert Grouped(canon, orig, hs, n);
    KeptValues(canon, same, hs, orig, want, n);
    AddedValues(canon, names, orig, want, |names|, n);
    ValuesPlus(canon, Rendered(hs, Kept(canon, same, hs, want)), Added(names, orig, want, |names|), n);
    OutcomeSplit(same, Values(orig, n), Values(want, n));
    AllDone(names, orig, want, n);
  }

  lemma AllDone(names: seq<string>, orig: Block, want: Block, n: string)
    requires Covers(names, orig, want)
    ensures AddedOf(orig, want, n, DoneUpTo(names, |names|)) == Beyond(Values(orig, n), Values(want, n))
  {
    DoneMember(names, |names|, n);
    assert names[..|names|] == names;
  }

  /** Each value is equivalent to the wanted one in its place. */
  lemma {:induction false} OutcomeSame(same: Same, orig: seq<string>, want: seq<string>, c: nat, i: nat)
    requires forall v :: same(v, v)
    requires i < c <= |want|
    ensures same(Outcome(same, orig, want, c)[i], want[i])
  {
    if i < c - 1 {
      OutcomeSame(same, orig, want, c - 1, i);
    }
  }

  /** Value lists of equal length that agree, place by place. */
  ghost predicate Delivers(same: Same, got: seq<string>, wanted: seq<string>) {
    |got| == |wanted| && forall i :: 0 <= i < |got| ==> same(got[i], wanted[i])
  }
}
