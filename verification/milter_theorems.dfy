/** What applying a rewritten message achieves, and when a message that came back as it was
    written leaves the MTA's headers alone. */
module MilterTheorems {
  import opened Text
  import opened Sorting
  import opened MilterFolding
  import opened MilterHeaders
  import opened MilterReconcile
  import opened MilterOutcome
  import opened MilterExact
  import opened MilterMessage
  import opened MilterBackend
  import opened MilterSession
  import opened MilterText

  // ------------------------------------------------------- what a rewrite delivers

  predicate Stable(canon: Canon, n: string) {
    canon(canon(n)) == canon(n)
  }

  /** A canonical name is its own canonical form. */
  ghost predicate Idempotent(canon: Canon) {
    forall n :: Stable(canon, n)
  }

  /** Names as the reader delivers them. */
  ghost predicate CanonicalNames(canon: Canon, hs: seq<Header>) {
    forall i :: 0 <= i < |hs| ==> canon(hs[i].name) == hs[i].name
  }

  lemma {:induction false} FieldsCanonical(g: Grammar, s: string)
    requires Idempotent(g.canon)
    ensures ReadFields(g, s).Read? ==> CanonicalNames(g.canon, ReadFields(g, s).fields)
    decreases |s|
  {
    if s != [] && ReadFields(g, s).Read? && ReadFields(g, s).fields != [] {
      var line := Trim(Line(s));
      var (field, next) := Continue(line, AfterLine(s));
      ContinueShorter(line, AfterLine(s));
      FieldsCanonical(g, next);
      assert Stable(g.canon, field[..IndexOf(field, ':')]);
    }
  }

  lemma KeysCanonical(canon: Canon, want: Block, fields: seq<Header>)
    requires CanonicalNames(canon, fields) && Groups(Identity, want, fields)
    ensures CanonicalKeys(canon, want)
  {
    forall n
      ensures CanonicalKey(canon, want, n)
    {
      assert Grouped(Identity, want, fields, n);
      if n in want {
        var j := Locate(Identity, fields, n, 0, |fields|);
      }
    }
  }

  /** The body operation leaves the headers alone. */
  lemma ProgramRun(canon: Canon, mta: Mta, hs: seq<Header>, names: seq<string>, orig: Block, want: Block, body: string)
    requires Conforming(canon, mta)
    ensures Exec(mta, hs, Program(names, orig, want, body)) == Exec(mta, hs, Plan(Unchanged, names, orig, want))
  {
    var plan := Plan(Unchanged, names, orig, want);
    ExecSnoc(mta, hs, plan, ReplaceBody(body));
    assert Answers(canon, mta, Exec(mta, hs, plan), ReplaceBody(body));
  }

  /** The values of n that the MTA ends with once the whole program is carried out. */
  function Ending(g: Grammar, mta: Mta, hs: seq<Header>, names: seq<string>, orig: Block, want: Block, body: string,
                  n: string): seq<string>
  {
    ValuesOf(g.canon, Exec(mta, hs, Program(names, orig, want, body)), n)
  }

  /** What a name ends with depends on its own values alone. */
  lemma ProgramEnds(g: Grammar, mta: Mta, hs: seq<Header>, message: string, names: seq<string>, orig: Block,
                    want: Block, n: string)
    requires Idempotent(g.canon) && Conforming(g.canon, mta)
    requires ReadHeaderBlock(g, message).Read?
    requires Groups(g.canon, orig, hs) && Groups(Identity, want, ReadHeaderBlock(g, message).fields)
    requires NoRepeats(names) && Covers(names, orig, want)
    ensures var read := ReadHeaderBlock(g, message);
            && Ending(g, mta, hs, names, orig, want, read.rest, n)
               == Simulated(Unchanged, Values(orig, n), Values(want, n))
            && Values(want, n) == ValuesOf(Identity, read.fields, n)
  {
    var read := ReadHeaderBlock(g, message);
    FieldsCanonical(g, message);
    KeysCanonical(g.canon, want, read.fields);
    ProgramRun(g.canon, mta, hs, names, orig, want, read.rest);
    NameEnds(g.canon, mta, Unchanged, hs, names, orig, want, n);
    assert Grouped(Identity, want, read.fields, n);
  }

  /** Once the whole program is carried out, a name ends as its own values alone determine: with
      exactly the values the rewritten message gives it, up to normalization, unless a differing
      value of its own was empty. */
  lemma RewriteDelivers(g: Grammar, mta: Mta, hs: seq<Header>, message: string,
                        names: seq<string>, orig: Block, want: Block, n: string)
    requires Idempotent(g.canon) && Conforming(g.canon, mta)
    requires ReadHeaderBlock(g, message).Read?
    requires Groups(g.canon, orig, hs) && Groups(Identity, want, ReadHeaderBlock(g, message).fields)
    requires NoRepeats(names) && Covers(names, orig, want)
    ensures var read := ReadHeaderBlock(g, message);
            var got := Ending(g, mta, hs, names, orig, want, read.rest, n);
            && got == Simulated(Unchanged, ValuesOf(g.canon, hs, n), ValuesOf(Identity, read.fields, n))
            && (NoEmptyChangeOf(Unchanged, ValuesOf(g.canon, hs, n), ValuesOf(Identity, read.fields, n)) ==>
                  Delivers(Unchanged, got, ValuesOf(Identity, read.fields, n))
                  && AllReadSame(got, ValuesOf(Identity, read.fields, n)))
  {
    ProgramEnds(g, mta, hs, message, names, orig, want, n);
    assert Grouped(g.canon, orig, hs, n);
    if NoEmptyChangeOf(Unchanged, Values(orig, n), Values(want, n)) {
      SimulatedOutcome(Unchanged, Values(orig, n), Values(want, n));
      OutcomeDelivers(Unchanged, Values(orig, n), Values(want, n));
      DeliveredReadsSame(Ending(g, mta, hs, names, orig, want, ReadHeaderBlock(g, message).rest, n), Values(want, n));
    }
  }

  /** A name with at most one value on either side is delivered exactly if the rewritten message
      does not give it an empty value in place of a different one. */
  lemma SingleRewriteDelivers(g: Grammar, mta: Mta, hs: seq<Header>, message: string,
                              names: seq<string>, orig: Block, want: Block, n: string)
    requires Idempotent(g.canon) && Conforming(g.canon, mta)
    requires ReadHeaderBlock(g, message).Read?
    requires Groups(g.canon, orig, hs) && Groups(Identity, want, ReadHeaderBlock(g, message).fields)
    requires NoRepeats(names) && Covers(names, orig, want) && SingleValued(orig, want, n)
    ensures var read := ReadHeaderBlock(g, message);
            var os, ws := ValuesOf(g.canon, hs, n), ValuesOf(Identity, read.fields, n);
            Delivers(Unchanged, Ending(g, mta, hs, names, orig, want, read.rest, n), ws)
            <==> (os != [] && ws != [] ==> Unchanged(os[0], ws[0]) || ws[0] != "")
  {
    ProgramEnds(g, mta, hs, message, names, orig, want, n);
    assert Grouped(g.canon, orig, hs, n);
    SingleAgrees(Unchanged, Values(orig, n), Values(want, n));
  }

  // ------------------------------------------------------------ identity rewrite

  predicate SameAt(same: Same, orig: seq<string>, want: seq<string>, i: nat) {
    i < |orig| && i < |want| ==> same(orig[i], want[i])
  }

  ghost predicate AllSame(same: Same, orig: seq<string>, want: seq<string>) {
    forall i: nat :: SameAt(same, orig, want, i)
  }

  lemma {:induction false} NoChanges(same: Same, n: string, orig: seq<string>, want: seq<string>, k: nat)
    requires k <= |orig| == |want|
    ensures Changes(same, n, orig, want, k) == [] <==> forall i: nat :: i < k ==> SameAt(same, orig, want, i)
  {
    if k > 0 {
      NoChanges(same, n, orig, want, k - 1);
      assert SameAt(same, orig, want, k - 1) <==> same(orig[k - 1], want[k - 1]);
    }
  }

  predicate EvenlyMatched(orig: Block, want: Block, n: string) {
    |Values(orig, n)| == |Values(want, n)|
  }

  ghost predicate AllSameNamed(same: Same, orig: Block, want: Block, n: string) {
    AllSame(same, Values(orig, n), Values(want, n))
  }

  lemma NoNameOps(same: Same, orig: Block, want: Block, n: string)
    requires EvenlyMatched(orig, want, n)
    ensures NameOps(same, n, Values(orig, n), Values(want, n)) == [] <==> AllSameNamed(same, orig, want, n)
  {
    var os, ws := Values(orig, n), Values(want, n);
    NoChanges(same, n, os, ws, |os|);
    assert forall i: nat :: i >= |os| ==> SameAt(same, os, ws, i);
  }

  ghost predicate NoOpsUpTo(same: Same, names: seq<string>, orig: Block, want: Block, k: nat) {
    && k <= |names|
    && (AllOps(same, names, orig, want, k) == [] <==>
        forall i :: 0 <= i < k ==> AllSameNamed(same, orig, want, names[i]))
    && AllDeletes(names, orig, want, k) == []
  }

  lemma NoOpsNext(same: Same, names: seq<string>, orig: Block, want: Block, k: nat)
    requires k < |names| && EvenlyMatched(orig, want, names[k]) && NoOpsUpTo(same, names, orig, want, k)
    ensures NoOpsUpTo(same, names, orig, want, k + 1)
  {
    var n := names[k];
    NoNameOps(same, orig, want, n);
    var before, ops := AllOps(same, names, orig, want, k), NameOps(same, n, Values(orig, n), Values(want, n));
    assert before + ops == [] <==> before == [] && ops == [];
    assert Deletes(n, |Values(want, n)|, |Values(orig, n)|) == [];
  }

  lemma NoOps(same: Same, names: seq<string>, orig: Block, want: Block)
    requires forall n :: EvenlyMatched(orig, want, n)
    ensures NoOpsUpTo(same, names, orig, want, |names|)
  {
    forall k: nat | k < |names| && NoOpsUpTo(same, names, orig, want, k)
      ensures NoOpsUpTo(same, names, orig, want, k + 1)
    {
      assert EvenlyMatched(orig, want, names[k]);
      NoOpsNext(same, names, orig, want, k);
    }
    Ascend((k: nat) => NoOpsUpTo(same, names, orig, want, k), |names|);
  }

  /** With as many values wanted as there are, nothing is issued exactly when none differs. */
  lemma EmptyPlan(same: Same, names: seq<string>, orig: Block, want: Block)
    requires Covers(names, orig, want) && forall n :: EvenlyMatched(orig, want, n)
    ensures Plan(same, names, orig, want) == [] <==> forall n :: AllSameNamed(same, orig, want, n)
  {
    NoOps(same, names, orig, want);
    if forall i :: 0 <= i < |names| ==> AllSameNamed(same, orig, want, names[i]) {
      forall n
        ensures AllSameNamed(same, orig, want, n)
      {
        if n in names {
          var i :| 0 <= i < |names| && names[i] == n;
          assert AllSameNamed(same, orig, want, names[i]);
        } else {
          assert Values(orig, n) == [];
          assert forall i: nat :: SameAt(same, Values(orig, n), Values(want, n), i);
        }
      }
    }
  }

  /** The written and the read-back headers stand at the same places. */
  ghost predicate Aligned(canon: Canon, hs: seq<Header>, fields: seq<Header>) {
    |fields| == |hs| && forall j :: 0 <= j < |hs| ==> fields[j].name == canon(hs[j].name)
  }

  lemma {:induction false} AlignedCounts(canon: Canon, hs: seq<Header>, fields: seq<Header>, n: string, k: nat)
    requires Aligned(canon, hs, fields) && k <= |hs|
    ensures |ValuesUpTo(canon, hs, n, k)| == |ValuesUpTo(Identity, fields, n, k)|
  {
    if k > 0 {
      AlignedCounts(canon, hs, fields, n, k - 1);
    }
  }

  lemma AlignedValues(canon: Canon, hs: seq<Header>, fields: seq<Header>, j: nat)
    requires Aligned(canon, hs, fields) && j < |hs|
    ensures var n, i := canon(hs[j].name), Ordinal(canon, hs, j);
            var os, ws := ValuesOf(canon, hs, n), ValuesOf(Identity, fields, n);
            i < |os| == |ws| && os[i] == hs[j].value && ws[i] == fields[j].value
  {
    var n := canon(hs[j].name);
    AlignedCounts(canon, hs, fields, n, |hs|);
    AlignedCounts(canon, hs, fields, n, j);
    OrdinalValue(canon, hs, j);
    OrdinalValue(Identity, fields, j);
  }

  /** No value differs name by name exactly when none differs header by header. */
  lemma AlignedSame(canon: Canon, same: Same, hs: seq<Header>, fields: seq<Header>, orig: Block, want: Block)
    requires Aligned(canon, hs, fields) && Groups(canon, orig, hs) && Groups(Identity, want, fields)
    ensures forall n :: EvenlyMatched(orig, want, n)
    ensures (forall n :: AllSameNamed(same, orig, want, n)) <==>
            (forall j :: 0 <= j < |hs| ==> same(hs[j].value, fields[j].value))
  {
    forall n
      ensures EvenlyMatched(orig, want, n)
    {
      assert Grouped(canon, orig, hs, n) && Grouped(Identity, want, fields, n);
      AlignedCounts(canon, hs, fields, n, |hs|);
    }
    if forall j :: 0 <= j < |hs| ==> same(hs[j].value, fields[j].value) {
      forall n
        ensures AllSameNamed(same, orig, want, n)
      {
        HeadersSame(canon, same, hs, fields, orig, want, n);
      }
    }
    if forall n :: AllSameNamed(same, orig, want, n) {
      forall j | 0 <= j < |hs|
        ensures same(hs[j].value, fields[j].value)
      {
        var n := canon(hs[j].name);
        AlignedValues(canon, hs, fields, j);
        assert Grouped(canon, orig, hs, n) && Grouped(Identity, want, fields, n) && AllSameNamed(same, orig, want, n);
        assert SameAt(same, Values(orig, n), Values(want, n), Ordinal(canon, hs, j));
      }
    }
  }

  lemma HeadersSame(canon: Canon, same: Same, hs: seq<Header>, fields: seq<Header>, orig: Block, want: Block, n: string)
    requires Aligned(canon, hs, fields) && Groups(canon, orig, hs) && Groups(Identity, want, fields)
    requires forall j :: 0 <= j < |hs| ==> same(hs[j].value, fields[j].value)
    ensures AllSameNamed(same, orig, want, n)
  {
    assert Grouped(canon, orig, hs, n) && Grouped(Identity, want, fields, n);
    var os, ws := Values(orig, n), Values(want, n);
    forall i: nat
      ensures SameAt(same, os, ws, i)
    {
      if i < |os| && i < |ws| {
        var j := Locate(canon, hs, n, i, |hs|);
        AlignedValues(canon, hs, fields, j);
      }
    }
  }

  lemma {:induction false} RestShorter(g: Grammar, s: string)
    requires s != [] && ReadFields(g, s).Read?
    ensures |ReadFields(g, s).rest| < |s|
    decreases |s|
  {
    var line := Trim(Line(s));
    if line != "" {
      var next := Continue(line, AfterLine(s)).1;
      ContinueShorter(line, AfterLine(s));
      if next != [] {
        RestShorter(g, next);
      }
    }
  }

  /** A message without headers is passed as its body alone, and so reads back with all of that
      body exactly if it is empty: otherwise its first line is taken for a header or a blank line. */
  lemma HeaderlessIdentity(g: Grammar, body: string)
    ensures ReadHeaderBlock(g, Reassembled([], body)) == Read([], body) <==> body == ""
  {
    if body != "" && ReadHeaderBlock(g, body).Read? {
      RestShorter(g, body);
    }
  }

  /** The fields that are read back compare equal to what was written exactly if that is neat. */
  lemma NeatFields(g: Grammar, fs: seq<Folded>)
    requires AllWellFormed(g, fs)
    ensures var hs, fields := HeadersOf(fs), FieldsOf(g, fs);
            && Aligned(g.canon, hs, fields)
            && ((forall j :: 0 <= j < |fs| ==> Unchanged(hs[j].value, fields[j].value))
                <==> forall j :: 0 <= j < |fs| ==> Neat(fs[j].lines))
  {
    var hs, fields := HeadersOf(fs), FieldsOf(g, fs);
    forall j | 0 <= j < |fs|
      ensures fields[j] == FieldOf(g, fs[j]) && (Unchanged(hs[j].value, fields[j].value) <==> Neat(fs[j].lines))
    {
      assert WellFormed(g, fs[j]);
      ReadBackSameExactly(fs[j].lines, fs[j].brk);
    }
  }

  lemma BodyAlone(same: Same, names: seq<string>, orig: Block, want: Block, body: string)
    ensures var plan := Plan(same, names, orig, want);
            plan == [] <==> plan + [ReplaceBody(body)] == [ReplaceBody(body)]
  {
    assert [] + [ReplaceBody(body)] == [ReplaceBody(body)];
  }

  /** Identity rewrite: a message handed back as it was written reads back with its fields and its
      body untouched unless it has no headers and some body; and no header operation is issued for
      it exactly when every value is folded neatly. */
  lemma IdentityRewrite(g: Grammar, fs: seq<Folded>, body: string, names: seq<string>, orig: Block, want: Block)
    requires AllWellFormed(g, fs)
    requires Groups(g.canon, orig, HeadersOf(fs))
    requires Groups(Identity, want, FieldsOf(g, fs)) && Covers(names, orig, want)
    ensures ReadHeaderBlock(g, Reassembled(HeadersOf(fs), body)) == Read(FieldsOf(g, fs), body)
            <==> fs != [] || body == ""
    ensures Program(names, orig, want, body) == [ReplaceBody(body)] <==>
            forall i :: 0 <= i < |fs| ==> Neat(fs[i].lines)
  {
    if fs == [] {
      HeaderlessIdentity(g, body);
    } else {
      ReadReassembled(g, fs, body);
    }
    NeatFields(g, fs);
    AlignedSame(g.canon, Unchanged, HeadersOf(fs), FieldsOf(g, fs), orig, want);
    EmptyPlan(Unchanged, names, orig, want);
    BodyAlone(Unchanged, names, orig, want, body);
  }
}
