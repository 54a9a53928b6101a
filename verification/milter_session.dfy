/** A milter session: the headers it collects, and the operations it issues to apply a rewritten
    message. */
module MilterSession {
  import opened Text
  import opened Sorting
  import opened MilterHeaders
  import opened MilterReconcile
  import opened MilterNormalize
  import opened MilterMessage
  import opened MilterBackend

  /** The connection to the MTA. It takes operations in order and may refuse any of them. */
  class Modifier {
    var ops: seq<Op>
    const accepts: Accepts

    constructor (accepts: Accepts)
      ensures ops == [] && this.accepts == accepts
    {
      ops := [];
      this.accepts := accepts;
    }

    method Issue(op: Op) returns (ok: bool)
      modifies this
      ensures ok == accepts(old(ops), op)
      ensures ops == if ok then old(ops) + [op] else old(ops)
    {
      ok := accepts(ops, op);
      if ok {
        ops := ops + [op];
      }
    }
  }

  /** The operations of a whole replacement: the headers, then the body. */
  function Program(names: seq<string>, orig: Block, want: Block, body: string): seq<Op> {
    Plan(Unchanged, names, orig, want) + [ReplaceBody(body)]
  }

  /** Which operation the MTA takes after which others. */
  type Accepts = (seq<Op>, Op) -> bool

  /** The first i of the operations were issued, and the next one was refused. */
  predicate RefusedAt(accepts: Accepts, before: seq<Op>, after: seq<Op>, ops: seq<Op>, i: nat) {
    i < |ops| && after == before + ops[..i] && !accepts(after, ops[i])
  }

  /** What was issued of a list of operations: all of it, or what precedes the one that was
      refused. */
  ghost predicate Issued(accepts: Accepts, done: bool, before: seq<Op>, after: seq<Op>, ops: seq<Op>) {
    if done then after == before + ops
    else exists i: nat :: RefusedAt(accepts, before, after, ops, i)
  }

  lemma IssuedNothing(accepts: Accepts, before: seq<Op>)
    ensures Issued(accepts, true, before, before, [])
  {}

  lemma IssuedThen(accepts: Accepts, done: bool, before: seq<Op>, mid: seq<Op>, a: seq<Op>, after: seq<Op>, b: seq<Op>)
    requires Issued(accepts, true, before, mid, a) && Issued(accepts, done, mid, after, b)
    ensures Issued(accepts, done, before, after, a + b)
  {
    if done {
      assert before + (a + b) == before + a + b;
    } else {
      var i: nat :| RefusedAt(accepts, mid, after, b, i);
      assert (a + b)[..|a| + i] == a + b[..i];
      assert before + (a + b[..i]) == before + a + b[..i];
      assert RefusedAt(accepts, before, after, a + b, |a| + i);
    }
  }

  lemma IssuedStop(accepts: Accepts, before: seq<Op>, after: seq<Op>, a: seq<Op>, b: seq<Op>)
    requires Issued(accepts, false, before, after, a)
    ensures Issued(accepts, false, before, after, a + b)
  {
    var i: nat :| RefusedAt(accepts, before, after, a, i);
    assert (a + b)[..i] == a[..i];
    assert RefusedAt(accepts, before, after, a + b, i);
  }

  /** One operation, taken or refused. */
  lemma IssuedOne(accepts: Accepts, before: seq<Op>, after: seq<Op>, op: Op)
    requires after == if accepts(before, op) then before + [op] else before
    ensures Issued(accepts, accepts(before, op), before, after, [op])
  {
    if !accepts(before, op) {
      assert before + [op][..0] == before;
      assert RefusedAt(accepts, before, after, [op], 0);
    }
  }

  predicate Agrees(same: Same, a: string, b: string) {
    same(a, b) <==> Unchanged(a, b)
  }

  /** same compares normalized values. */
  ghost predicate Compares(same: Same) {
    forall a, b :: Agrees(same, a, b)
  }

  datatype Applied =
    | Done
    | Unreadable  // the rewritten header block does not parse
    | Promoted    // the body looks like another header block
    | Refused     // the MTA refused an operation

  class Session {
    var headers: seq<Header>
    const grammar: Grammar

    constructor (grammar: Grammar)
      ensures headers == [] && this.grammar == grammar
    {
      headers := [];
      this.grammar := grammar;
    }

    /** A header arrives. */
    method ReceiveHeader(name: string, value: string)
      modifies this`headers
      ensures headers == old(headers) + [Header(name, value)]
    {
      headers := headers + [Header(name, value)];
    }

    /** The complete message for the processor. */
    method ReassembleMessage(body: string) returns (message: string)
      ensures message == Reassembled(headers, body)
    {
      if |headers| == 0 {
        return body;
      }
      var block := "";
      var i := 0;
      assert "" + Lines(headers, 0) == Lines(headers, 0);
      while i < |headers|
        invariant i <= |headers| && block + Lines(headers, i) == Lines(headers, 0)
      {
        var h := headers[i];
        assert block + (Written(h) + Lines(headers, i + 1)) == block + Written(h) + Lines(headers, i + 1);
        block := block + Written(h);
        i := i + 1;
      }
      assert block + "" == block;
      message := block + "\r\n" + body;
    }

    /** Reconciles one name: changes in place, additions, and the deletions it schedules. */
    method ReconcileName(m: Modifier, ghost same: Same, name: string, orig: seq<string>, want: seq<string>,
                         pending: seq<HeaderDelete>)
      returns (ok: bool, deletes: seq<HeaderDelete>)
      requires Compares(same)
      modifies m
      ensures Issued(m.accepts, ok, old(m.ops), m.ops, NameOps(same, name, orig, want))
      ensures ok ==> deletes == pending + Deletes(name, |want|, |orig|)
    {
      deletes := pending;
      ok := ChangeCommon(m, same, name, orig, want);
      ghost var changes := Changes(same, name, orig, want, Min(|orig|, |want|));
      ghost var adds := if |orig| < |want| then Adds(name, want, |orig|, |want|) else [];
      ghost var mid := m.ops;
      if !ok {
        IssuedStop(m.accepts, old(m.ops), m.ops, changes, adds);
        return;
      }
      ok := AddMissing(m, name, orig, want);
      IssuedThen(m.accepts, ok, old(m.ops), mid, changes, m.ops, adds);
      if ok {
        deletes := ScheduleSurplus(name, |want|, |orig|, pending);
      }
    }

    method ChangeCommon(m: Modifier, ghost same: Same, name: string, orig: seq<string>, want: seq<string>)
      returns (ok: bool)
      requires Compares(same)
      modifies m
      ensures Issued(m.accepts, ok, old(m.ops), m.ops, Changes(same, name, orig, want, Min(|orig|, |want|)))
    {
      var n := Min(|orig|, |want|);
      ok := true;
      var i := 0;
      while ok && i < n
        invariant i <= n
        invariant Issued(m.accepts, ok, old(m.ops), m.ops, Changes(same, name, orig, want, if ok then i else n))
      {
        ok := ChangeNext(m, same, name, orig, want, i, old(m.ops));
        i := i + 1;
      }
    }

    /** Changes the next occurrence in place if its value differs. */
    method ChangeNext(m: Modifier, ghost same: Same, name: string, orig: seq<string>, want: seq<string>, i: nat,
                      ghost before: seq<Op>)
      returns (ok: bool)
      requires Compares(same) && i < Min(|orig|, |want|)
      requires Issued(m.accepts, true, before, m.ops, Changes(same, name, orig, want, i))
      modifies m
      ensures Issued(m.accepts, ok, before, m.ops,
                     Changes(same, name, orig, want, if ok then i + 1 else Min(|orig|, |want|)))
    {
      var a := NormalizeHeaderValue(orig[i]);
      var b := NormalizeHeaderValue(want[i]);
      ghost var mid := m.ops;
      assert Agrees(same, orig[i], want[i]);
      ok := true;
      if a != b {
        ok := m.Issue(Change(i + 1, name, want[i]));
        IssuedOne(m.accepts, mid, m.ops, Change(i + 1, name, want[i]));
      } else {
        IssuedNothing(m.accepts, mid);
      }
      ChangeIssued(m.accepts, ok, before, mid, m.ops, same, name, orig, want, i);
    }

    method AddMissing(m: Modifier, name: string, orig: seq<string>, want: seq<string>) returns (ok: bool)
      modifies m
      ensures Issued(m.accepts, ok, old(m.ops), m.ops, AddsUpTo(name, orig, want, |want|))
    {
      IssuedNothing(m.accepts, m.ops);
      ok := true;
      var i := |orig|;
      while ok && i < |want|
        invariant |orig| <= i && (i == |orig| || i <= |want|)
        invariant Issued(m.accepts, ok, old(m.ops), m.ops, AddsUpTo(name, orig, want, if ok then i else |want|))
      {
        ghost var mid := m.ops;
        ok := m.Issue(Add(name, want[i]));
        AddIssued(m.accepts, ok, old(m.ops), mid, m.ops, name, orig, want, i);
        i := i + 1;
      }
    }

    method ScheduleSurplus(name: string, lo: nat, hi: nat, pending: seq<HeaderDelete>)
      returns (deletes: seq<HeaderDelete>)
      ensures deletes == pending + Deletes(name, lo, hi)
    {
      deletes := pending;
      var i := lo;
      while i < hi
        invariant i == lo || i <= hi
        invariant lo <= i
        invariant deletes == pending + Deletes(name, lo, i)
      {
        deletes := deletes + [HeaderDelete(name, i + 1)];
        i := i + 1;
      }
    }

    /** Carries out the scheduled deletions in their order. */
    method DeleteScheduled(m: Modifier, ds: seq<HeaderDelete>) returns (ok: bool)
      modifies m
      ensures Issued(m.accepts, ok, old(m.ops), m.ops, DeleteOps(ds, |ds|))
    {
      ok := true;
      IssuedNothing(m.accepts, m.ops);
      var i := 0;
      while ok && i < |ds|
        invariant i <= |ds|
        invariant Issued(m.accepts, ok, old(m.ops), m.ops, DeleteOps(ds, if ok then i else |ds|))
      {
        ghost var mid := m.ops;
        ok := m.Issue(Change(ds[i].index, ds[i].name, ""));
        DeleteIssued(m.accepts, ok, old(m.ops), mid, m.ops, ds, i);
        i := i + 1;
      }
    }

    /** Reconciles the next name. */
    method ReconcileNext(m: Modifier, ghost same: Same, names: seq<string>, orig: Block, want: Block, i: nat,
                         pending: seq<HeaderDelete>, ghost before: seq<Op>)
      returns (ok: bool, deletes: seq<HeaderDelete>)
      requires Compares(same) && i < |names| && pending == AllDeletes(names, orig, want, i)
      requires Issued(m.accepts, true, before, m.ops, AllOps(same, names, orig, want, i))
      modifies m
      ensures Issued(m.accepts, ok, before, m.ops, AllOps(same, names, orig, want, if ok then i + 1 else |names|))
      ensures ok ==> deletes == AllDeletes(names, orig, want, i + 1)
    {
      ghost var mid := m.ops;
      var orig1, want1 := Values(orig, names[i]), Values(want, names[i]);
      ok, deletes := ReconcileName(m, same, names[i], orig1, want1, pending);
      NameIssued(m.accepts, ok, before, mid, m.ops, same, names, orig, want, i);
      if ok {
        NameScheduled(names, orig, want, i, pending, deletes);
      }
    }

    /** Reconciles every name and returns the deletions left to do. */
    method ReconcileNames(m: Modifier, ghost same: Same, names: seq<string>, orig: Block, want: Block)
      returns (ok: bool, deletes: seq<HeaderDelete>)
      requires Compares(same)
      modifies m
      ensures Issued(m.accepts, ok, old(m.ops), m.ops, AllOps(same, names, orig, want, |names|))
      ensures ok ==> deletes == AllDeletes(names, orig, want, |names|)
    {
      ok, deletes := true, [];
      var i := 0;
      while ok && i < |names|
        invariant i <= |names|
        invariant Issued(m.accepts, ok, old(m.ops), m.ops, AllOps(same, names, orig, want, if ok then i else |names|))
        invariant ok ==> deletes == AllDeletes(names, orig, want, i)
      {
        ok, deletes := ReconcileNext(m, same, names, orig, want, i, deletes, old(m.ops));
        i := i + 1;
      }
    }

    /** Applies a rewritten message: nothing is issued unless its header block parses and its
        body does not look like another one; then the whole program is issued, up to the first
        refusal. */
    method ReplaceMessage(m: Modifier, newBody: string)
      returns (r: Applied, ghost names: seq<string>, ghost orig: Block, ghost want: Block)
      modifies m
      ensures headers == old(headers)
      ensures r == Unreadable <==> ReadHeaderBlock(grammar, newBody) == Malformed
      ensures r == Promoted <==> ReadHeaderBlock(grammar, newBody).Read?
                                 && StartsWithField(ReadHeaderBlock(grammar, newBody).rest)
      ensures r == Unreadable || r == Promoted ==> m.ops == old(m.ops)
      ensures r == Done || r == Refused ==>
                && Groups(grammar.canon, orig, headers)
                && Groups(Identity, want, ReadHeaderBlock(grammar, newBody).fields)
                && NoRepeats(names) && Covers(names, orig, want) && Sorted(names, Less)
                && Issued(m.accepts, r == Done, old(m.ops), m.ops,
                          Program(names, orig, want, ReadHeaderBlock(grammar, newBody).rest))
    {
      var read := ReadHeaderBlock(grammar, newBody);
      names, orig, want := [], map[], map[];
      if read.Malformed? {
        r := Unreadable;
        return;
      }
      var originalValues := GroupValues(grammar.canon, headers);
      var rewritten := GroupValues(Identity, read.fields);
      var promoted := LooksLikeHeaderBlock(read.rest);
      if promoted {
        r := Promoted;
        return;
      }
      var union := HeaderNameUnion(originalValues, rewritten);
      orig, want, names := originalValues, rewritten, union;
      assert Compares(Unchanged);
      var ok := Reconcile(m, Unchanged, union, originalValues, rewritten);
      ghost var mid := m.ops;
      ghost var plan := Plan(Unchanged, union, originalValues, rewritten);
      if !ok {
        IssuedStop(m.accepts, old(m.ops), m.ops, plan, [ReplaceBody(read.rest)]);
        r := Refused;
        return;
      }
      ok := m.Issue(ReplaceBody(read.rest));
      IssuedOne(m.accepts, mid, m.ops, ReplaceBody(read.rest));
      IssuedThen(m.accepts, ok, old(m.ops), mid, plan, m.ops, [ReplaceBody(read.rest)]);
      r := if ok then Done else Refused;
    }

    /** All header operations: names first, then deletions in sorted order. */
    method Reconcile(m: Modifier, ghost same: Same, names: seq<string>, orig: Block, want: Block) returns (ok: bool)
      requires Compares(same)
      modifies m
      ensures Issued(m.accepts, ok, old(m.ops), m.ops, Plan(same, names, orig, want))
    {
      var deletes;
      ok, deletes := ReconcileNames(m, same, names, orig, want);
      ghost var all := AllOps(same, names, orig, want, |names|);
      ghost var ds := Sort(AllDeletes(names, orig, want, |names|), DeleteBefore);
      ghost var mid := m.ops;
      if !ok {
        IssuedStop(m.accepts, old(m.ops), m.ops, all, DeleteOps(ds, |ds|));
        return;
      }
      ok := DeleteScheduled(m, Sort(deletes, DeleteBefore));
      IssuedThen(m.accepts, ok, old(m.ops), mid, all, m.ops, DeleteOps(ds, |ds|));
    }
  }

  lemma IssuedLonger(accepts: Accepts, before: seq<Op>, after: seq<Op>, a: seq<Op>, b: seq<Op>)
    requires Issued(accepts, false, before, after, a) && a <= b
    ensures Issued(accepts, false, before, after, b)
  {
    assert b == a + b[|a|..];
    IssuedStop(accepts, before, after, a, b[|a|..]);
  }

  lemma NameIssued(accepts: Accepts, ok: bool, before: seq<Op>, mid: seq<Op>, after: seq<Op>,
                   same: Same, names: seq<string>, orig: Block, want: Block, i: nat)
    requires i < |names| && Issued(accepts, true, before, mid, AllOps(same, names, orig, want, i))
    requires Issued(accepts, ok, mid, after, NameOps(same, names[i], Values(orig, names[i]), Values(want, names[i])))
    ensures Issued(accepts, ok, before, after, AllOps(same, names, orig, want, if ok then i + 1 else |names|))
  {
    var sofar, next := AllOps(same, names, orig, want, i), AllOps(same, names, orig, want, i + 1);
    var step := NameOps(same, names[i], Values(orig, names[i]), Values(want, names[i]));
    IssuedThen(accepts, ok, before, mid, sofar, after, step);
    if !ok {
      AllOpsPrefix(same, names, orig, want, i + 1, |names|);
      IssuedLonger(accepts, before, after, next, AllOps(same, names, orig, want, |names|));
    }
  }

  lemma NameScheduled(names: seq<string>, orig: Block, want: Block, i: nat,
                      pending: seq<HeaderDelete>, deletes: seq<HeaderDelete>)
    requires i < |names| && pending == AllDeletes(names, orig, want, i)
    requires deletes == pending + Deletes(names[i], |Values(want, names[i])|, |Values(orig, names[i])|)
    ensures deletes == AllDeletes(names, orig, want, i + 1)
  {}

  lemma ChangeIssued(accepts: Accepts, ok: bool, before: seq<Op>, mid: seq<Op>, after: seq<Op>,
                     same: Same, name: string, orig: seq<string>, want: seq<string>, i: nat)
    requires i < Min(|orig|, |want|) && Issued(accepts, true, before, mid, Changes(same, name, orig, want, i))
    requires Issued(accepts, ok, mid, after, if same(orig[i], want[i]) then [] else [Change(i + 1, name, want[i])])
    ensures Issued(accepts, ok, before, after,
                   Changes(same, name, orig, want, if ok then i + 1 else Min(|orig|, |want|)))
  {
    var n := Min(|orig|, |want|);
    var sofar, next := Changes(same, name, orig, want, i), Changes(same, name, orig, want, i + 1);
    var step := if same(orig[i], want[i]) then [] else [Change(i + 1, name, want[i])];
    IssuedThen(accepts, ok, before, mid, sofar, after, step);
    if !ok {
      ChangesPrefix(same, name, orig, want, i + 1, n);
      IssuedLonger(accepts, before, after, next, Changes(same, name, orig, want, n));
    }
  }

  /** The additions of the wanted values beyond the original ones, up to position i. */
  function AddsUpTo(n: string, orig: seq<string>, want: seq<string>, i: nat): seq<Op> {
    if |orig| < i <= |want| then Adds(n, want, |orig|, i) else []
  }

  lemma AddIssued(accepts: Accepts, ok: bool, before: seq<Op>, mid: seq<Op>, after: seq<Op>,
                  n: string, orig: seq<string>, want: seq<string>, i: nat)
    requires |orig| <= i < |want| && Issued(accepts, true, before, mid, AddsUpTo(n, orig, want, i))
    requires ok == accepts(mid, Add(n, want[i]))
    requires after == if ok then mid + [Add(n, want[i])] else mid
    ensures Issued(accepts, ok, before, after, AddsUpTo(n, orig, want, if ok then i + 1 else |want|))
  {
    var op := Add(n, want[i]);
    IssuedOne(accepts, mid, after, op);
    IssuedThen(accepts, ok, before, mid, AddsUpTo(n, orig, want, i), after, [op]);
    var sofar := Adds(n, want, |orig|, i);
    assert Adds(n, want, |orig|, i + 1) == sofar + [op];
    assert AddsUpTo(n, orig, want, i) == sofar;
    if !ok {
      AddsPrefix(n, want, |orig|, i + 1, |want|);
      IssuedLonger(accepts, before, after, AddsUpTo(n, orig, want, i + 1), AddsUpTo(n, orig, want, |want|));
    }
  }

  lemma DeleteIssued(accepts: Accepts, ok: bool, before: seq<Op>, mid: seq<Op>, after: seq<Op>,
                     ds: seq<HeaderDelete>, i: nat)
    requires i < |ds| && Issued(accepts, true, before, mid, DeleteOps(ds, i))
    requires ok == accepts(mid, Change(ds[i].index, ds[i].name, ""))
    requires after == if ok then mid + [Change(ds[i].index, ds[i].name, "")] else mid
    ensures Issued(accepts, ok, before, after, DeleteOps(ds, if ok then i + 1 else |ds|))
  {
    var op := Change(ds[i].index, ds[i].name, "");
    IssuedOne(accepts, mid, after, op);
    IssuedThen(accepts, ok, before, mid, DeleteOps(ds, i), after, [op]);
    if !ok {
      DeleteOpsPrefix(ds, i + 1, |ds|);
      IssuedLonger(accepts, before, after, DeleteOps(ds, i + 1), DeleteOps(ds, |ds|));
    }
  }

  lemma {:induction false} ChangesPrefix(same: Same, n: string, orig: seq<string>, want: seq<string>, i: nat, k: nat)
    requires i <= k <= |orig| && k <= |want|
    ensures Changes(same, n, orig, want, i) <= Changes(same, n, orig, want, k)
  {
    if i < k {
      ChangesPrefix(same, n, orig, want, i, k - 1);
    }
  }

  lemma {:induction false} AddsPrefix(n: string, want: seq<string>, lo: nat, i: nat, k: nat)
    requires lo <= i <= k <= |want|
    ensures Adds(n, want, lo, i) <= Adds(n, want, lo, k)
  {
    if i < k {
      AddsPrefix(n, want, lo, i, k - 1);
    }
  }

  lemma {:induction false} DeleteOpsPrefix(ds: seq<HeaderDelete>, i: nat, k: nat)
    requires i <= k <= |ds|
    ensures DeleteOps(ds, i) <= DeleteOps(ds, k)
  {
    if i < k {
      DeleteOpsPrefix(ds, i, k - 1);
    }
  }

  lemma AllOpsPrefix(same: Same, names: seq<string>, orig: Block, want: Block, i: nat, k: nat)
    requires i <= k <= |names|
    ensures AllOps(same, names, orig, want, i) <= AllOps(same, names, orig, want, k)
  {
    var f := (j: nat) => if j <= |names| then AllOps(same, names, orig, want, j) else [];
    forall j: nat | j < k
      ensures f(j) <= f(j + 1)
    {
      AllOpsNext(same, names, orig, want, j);
    }
    Grows(f, i, k);
  }

  lemma {:induction false} Grows(f: nat -> seq<Op>, i: nat, k: nat)
    requires i <= k && forall j: nat :: j < k ==> f(j) <= f(j + 1)
    ensures f(i) <= f(k)
  {
    if i < k {
      Grows(f, i, k - 1);
    }
  }

  lemma AllOpsNext(same: Same, names: seq<string>, orig: Block, want: Block, j: nat)
    requires j < |names|
    ensures AllOps(same, names, orig, want, j) <= AllOps(same, names, orig, want, j + 1)
  {}
}
