/** The header list an MTA holds and the modifications a milter asks for: occurrences of a
    name, operations on the list, and the cells that trace what became of each header. */
module MilterHeaders {
  import opened Text

  datatype Header = Header(name: string, value: string)

  /** The canonical form of a field name, by which names are matched. */
  type Canon = string -> string

  /** The values of the headers called n among the first k, in order. */
  function ValuesUpTo(canon: Canon, hs: seq<Header>, n: string, k: nat): (r: seq<string>)
    requires k <= |hs|
    ensures |r| <= k
  {
    if k == 0 then []
    else
      ValuesUpTo(canon, hs, n, k - 1)
      + if canon(hs[k - 1].name) == n then [hs[k - 1].value] else []
  }

  function ValuesOf(canon: Canon, hs: seq<Header>, n: string): seq<string> {
    ValuesUpTo(canon, hs, n, |hs|)
  }

  /** How many headers of its own name stand before header j. */
  function Ordinal(canon: Canon, hs: seq<Header>, j: nat): nat
    requires j < |hs|
  {
    |ValuesUpTo(canon, hs, canon(hs[j].name), j)|
  }

  lemma {:induction false} ValuesPrefix(canon: Canon, hs: seq<Header>, n: string, j: nat, k: nat)
    requires j <= k <= |hs|
    ensures ValuesUpTo(canon, hs, n, j) <= ValuesUpTo(canon, hs, n, k)
  {
    if j < k {
      ValuesPrefix(canon, hs, n, j, k - 1);
    }
  }

  /** Header j is the one that contributes its name's value at its ordinal. */
  lemma OrdinalValue(canon: Canon, hs: seq<Header>, j: nat)
    requires j < |hs|
    ensures var vs := ValuesOf(canon, hs, canon(hs[j].name));
            Ordinal(canon, hs, j) < |vs| && vs[Ordinal(canon, hs, j)] == hs[j].value
  {
    var n := canon(hs[j].name);
    ValuesPrefix(canon, hs, n, j + 1, |hs|);
  }

  /** Two headers of one name have different ordinals. */
  lemma OrdinalInjective(canon: Canon, hs: seq<Header>, i: nat, j: nat)
    requires i < j < |hs| && canon(hs[i].name) == canon(hs[j].name)
    ensures Ordinal(canon, hs, i) < Ordinal(canon, hs, j)
  {
    ValuesPrefix(canon, hs, canon(hs[i].name), i + 1, j);
  }

  /** Where the value at ordinal i of name n stands. */
  lemma {:induction false} Locate(canon: Canon, hs: seq<Header>, n: string, i: nat, k: nat) returns (j: nat)
    requires k <= |hs| && i < |ValuesUpTo(canon, hs, n, k)|
    ensures j < k && canon(hs[j].name) == n && Ordinal(canon, hs, j) == i
    ensures hs[j].value == ValuesUpTo(canon, hs, n, k)[i]
  {
    if i < |ValuesUpTo(canon, hs, n, k - 1)| {
      j := Locate(canon, hs, n, i, k - 1);
    } else {
      j := k - 1;
    }
  }

  lemma {:induction false} ValuesConcat(canon: Canon, a: seq<Header>, b: seq<Header>, n: string, k: nat)
    requires k <= |a| + |b|
    ensures ValuesUpTo(canon, a + b, n, k)
            == if k <= |a| then ValuesUpTo(canon, a, n, k)
               else ValuesOf(canon, a, n) + ValuesUpTo(canon, b, n, k - |a|)
  {
    if k > 0 {
      ValuesConcat(canon, a, b, n, k - 1);
      if k > |a| {
        assert (a + b)[k - 1] == b[k - 1 - |a|];
      }
    }
  }

  lemma ValuesPlus(canon: Canon, a: seq<Header>, b: seq<Header>, n: string)
    ensures ValuesOf(canon, a + b, n) == ValuesOf(canon, a, n) + ValuesOf(canon, b, n)
  {
    ValuesConcat(canon, a, b, n, |a| + |b|);
    if b == [] {
      assert ValuesOf(canon, b, n) == [];
    }
  }

  // --------------------------------------------------------------- operations

  /** What the milter asks of the MTA. An index counts from 1 within a name; changing to the
      empty value deletes. */
  datatype Op =
    | Change(index: nat, name: string, value: string)
    | Add(name: string, value: string)
    | ReplaceBody(body: string)

  /** The position of the i-th header (from 0) called n among the first k, or |hs|. */
  function Nth(canon: Canon, hs: seq<Header>, n: string, i: nat, k: nat): (p: nat)
    requires k <= |hs|
    ensures p < k || p == |hs|
  {
    if k == 0 then |hs|
    else
      var p := Nth(canon, hs, n, i, k - 1);
      if p < |hs| then p
      else if canon(hs[k - 1].name) == n && Ordinal(canon, hs, k - 1) == i then k - 1
      else |hs|
  }

  lemma {:induction false} NthIs(canon: Canon, hs: seq<Header>, n: string, i: nat, k: nat, p: nat)
    requires p < k <= |hs| && canon(hs[p].name) == n && Ordinal(canon, hs, p) == i
    ensures Nth(canon, hs, n, i, k) == p
    decreases k
  {
    if p < k - 1 {
      NthIs(canon, hs, n, i, k - 1, p);
    } else {
      NthNone(canon, hs, n, i, k - 1, p);
    }
  }

  lemma {:induction false} NthNone(canon: Canon, hs: seq<Header>, n: string, i: nat, k: nat, p: nat)
    requires k <= p < |hs| && canon(hs[p].name) == n && Ordinal(canon, hs, p) == i
    ensures Nth(canon, hs, n, i, k) == |hs|
    decreases k
  {
    if k > 0 {
      NthNone(canon, hs, n, i, k - 1, p);
      if canon(hs[k - 1].name) == n {
        OrdinalInjective(canon, hs, k - 1, p);
      }
    }
  }

  /** The MTA's header list after one operation. A change beyond the last occurrence adds the
      header, a deletion beyond it does nothing. */
  function Apply(canon: Canon, hs: seq<Header>, op: Op): seq<Header> {
    match op
    case Change(index, n, v) =>
      if index == 0 then hs
      else
        var p := Nth(canon, hs, n, index - 1, |hs|);
        if p == |hs| then (if v == "" then hs else hs + [Header(n, v)])
        else if v == "" then hs[..p] + hs[p + 1..]
        else hs[p := Header(hs[p].name, v)]
    case Add(n, v) => hs + [Header(n, v)]
    case ReplaceBody(_) => hs
  }

  /** An MTA: how a header list answers an operation. */
  type Mta = (seq<Header>, Op) -> seq<Header>

  predicate Answers(canon: Canon, mta: Mta, hs: seq<Header>, op: Op) {
    mta(hs, op) == Apply(canon, hs, op)
  }

  /** The MTA carries out every operation as the protocol defines it. */
  ghost predicate Conforming(canon: Canon, mta: Mta) {
    forall hs, op :: Answers(canon, mta, hs, op)
  }

  /** The list after the first k operations. */
  function ExecUpTo(mta: Mta, hs: seq<Header>, ops: seq<Op>, k: nat): seq<Header>
    requires k <= |ops|
  {
    if k == 0 then hs else mta(ExecUpTo(mta, hs, ops, k - 1), ops[k - 1])
  }

  function Exec(mta: Mta, hs: seq<Header>, ops: seq<Op>): seq<Header> {
    ExecUpTo(mta, hs, ops, |ops|)
  }

  lemma {:induction false} ExecPrefix(mta: Mta, hs: seq<Header>, a: seq<Op>, b: seq<Op>, k: nat)
    requires k <= |a|
    ensures ExecUpTo(mta, hs, a + b, k) == ExecUpTo(mta, hs, a, k)
  {
    if k > 0 {
      ExecPrefix(mta, hs, a, b, k - 1);
    }
  }

  lemma {:induction false} ExecSuffix(mta: Mta, hs: seq<Header>, a: seq<Op>, b: seq<Op>, k: nat)
    requires k <= |b|
    ensures ExecUpTo(mta, hs, a + b, |a| + k) == ExecUpTo(mta, Exec(mta, hs, a), b, k)
  {
    if k == 0 {
      ExecPrefix(mta, hs, a, b, |a|);
    } else {
      ExecSuffix(mta, hs, a, b, k - 1);
      assert (a + b)[|a| + k - 1] == b[k - 1];
    }
  }

  lemma ExecSnoc(mta: Mta, hs: seq<Header>, ops: seq<Op>, op: Op)
    ensures Exec(mta, hs, ops + [op]) == mta(Exec(mta, hs, ops), op)
  {
    ExecSuffix(mta, hs, ops, [op], 1);
  }

  /** Two runs, one after the other. */
  lemma Compose(mta: Mta, start: seq<Header>, a: seq<Op>, mid: seq<Header>, b: seq<Op>, end: seq<Header>)
    requires Exec(mta, start, a) == mid && Exec(mta, mid, b) == end
    ensures Exec(mta, start, a + b) == end
  {
    ExecSuffix(mta, start, a, b, |b|);
  }

  // -------------------------------------------------------------------- cells

  /** What became of each of the original headers: its current value, or nothing. */
  type Cells = seq<Option<string>>

  /** The list the cells from lo to hi - 1 stand for. */
  function Render(hs: seq<Header>, cells: Cells, lo: nat, hi: nat): seq<Header>
    requires lo <= hi <= |hs| == |cells|
  {
    if lo == hi then []
    else
      Render(hs, cells, lo, hi - 1)
      + if cells[hi - 1].Some? then [Header(hs[hi - 1].name, cells[hi - 1].value)] else []
  }

  function Rendered(hs: seq<Header>, cells: Cells): seq<Header>
    requires |hs| == |cells|
  {
    Render(hs, cells, 0, |hs|)
  }

  lemma {:induction false} RenderSplit(hs: seq<Header>, cells: Cells, lo: nat, mid: nat, hi: nat)
    requires lo <= mid <= hi <= |hs| == |cells|
    ensures Render(hs, cells, lo, hi) == Render(hs, cells, lo, mid) + Render(hs, cells, mid, hi)
    decreases hi
  {
    if mid < hi {
      RenderSplit(hs, cells, lo, mid, hi - 1);
    }
  }

  lemma {:induction false} RenderSame(hs: seq<Header>, a: Cells, b: Cells, lo: nat, hi: nat)
    requires lo <= hi <= |hs| == |a| == |b|
    requires forall j :: lo <= j < hi ==> a[j] == b[j]
    ensures Render(hs, a, lo, hi) == Render(hs, b, lo, hi)
    decreases hi
  {
    if lo < hi {
      RenderSame(hs, a, b, lo, hi - 1);
    }
  }

  function Original(hs: seq<Header>): Cells {
    seq(|hs|, j requires 0 <= j < |hs| => Some(hs[j].value))
  }

  lemma {:induction false} RenderOriginal(hs: seq<Header>, k: nat)
    requires k <= |hs|
    ensures Render(hs, Original(hs), 0, k) == hs[..k]
  {
    if k > 0 {
      RenderOriginal(hs, k - 1);
    }
  }

  lemma ValuesAppend(canon: Canon, hs: seq<Header>, h: Header, n: string)
    ensures ValuesOf(canon, hs + [h], n)
            == ValuesOf(canon, hs, n) + if canon(h.name) == n then [h.value] else []
  {
    ValuesConcat(canon, hs, [h], n, |hs|);
    assert (hs + [h])[|hs|] == h;
  }

  /** While every header of name n before j is alive, the rendering keeps their count. */
  lemma {:induction false} RenderCounts(canon: Canon, hs: seq<Header>, cells: Cells, n: string, j: nat)
    requires j <= |hs| == |cells|
    requires forall i :: 0 <= i < j && canon(hs[i].name) == n ==> cells[i].Some?
    ensures |ValuesOf(canon, Render(hs, cells, 0, j), n)| == |ValuesUpTo(canon, hs, n, j)|
  {
    if j > 0 {
      RenderCounts(canon, hs, cells, n, j - 1);
      var front := Render(hs, cells, 0, j - 1);
      if cells[j - 1].Some? {
        ValuesAppend(canon, front, Header(hs[j - 1].name, cells[j - 1].value), n);
      } else {
        assert front + [] == front;
      }
    }
  }

  /** The rendering around cell j. */
  lemma RenderAround(hs: seq<Header>, cells: Cells, j: nat)
    requires j < |hs| == |cells|
    ensures Rendered(hs, cells)
            == Render(hs, cells, 0, j)
               + (if cells[j].Some? then [Header(hs[j].name, cells[j].value)] else [])
               + Render(hs, cells, j + 1, |hs|)
  {
    RenderSplit(hs, cells, 0, j + 1, |hs|);
  }

  lemma NthAfter(canon: Canon, before: seq<Header>, h: Header, rest: seq<Header>, n: string, i: nat)
    requires canon(h.name) == n && |ValuesOf(canon, before, n)| == i
    ensures var all := before + [h] + rest; Nth(canon, all, n, i, |all|) == |before|
  {
    var all, p := before + [h] + rest, |before|;
    assert all == before + ([h] + rest) && all[p] == h;
    ValuesConcat(canon, before, [h] + rest, n, p);
    NthIs(canon, all, n, i, |all|, p);
  }

  /** The rendering with cell j changed. */
  lemma RenderChanged(hs: seq<Header>, cells: Cells, j: nat, c: Option<string>)
    requires j < |hs| == |cells|
    ensures Rendered(hs, cells[j := c])
            == Render(hs, cells, 0, j)
               + (if c.Some? then [Header(hs[j].name, c.value)] else [])
               + Render(hs, cells, j + 1, |hs|)
  {
    var next := cells[j := c];
    RenderAround(hs, next, j);
    RenderSame(hs, cells, next, 0, j);
    RenderSame(hs, cells, next, j + 1, |hs|);
  }

  lemma TailBehind<T>(a: seq<T>, b: seq<T>, c: seq<T>, tail: seq<T>)
    ensures a + b + c + tail == a + b + (c + tail)
  {}

  /** The indexing lemma: with header j and all earlier ones of its name alive, a change at
      j's ordinal hits exactly cell j, whatever was appended meanwhile. */
  lemma ChangeHitsCell(canon: Canon, hs: seq<Header>, cells: Cells, tail: seq<Header>, j: nat, v: string)
    requires j < |hs| == |cells|
    requires forall i :: 0 <= i <= j && canon(hs[i].name) == canon(hs[j].name) ==> cells[i].Some?
    ensures Apply(canon, Rendered(hs, cells) + tail,
                  Change(Ordinal(canon, hs, j) + 1, canon(hs[j].name), v))
            == Rendered(hs, cells[j := if v == "" then None else Some(v)]) + tail
  {
    var before, after := Render(hs, cells, 0, j), Render(hs, cells, j + 1, |hs|);
    var h := Header(hs[j].name, cells[j].value);
    var changed := if v == "" then [] else [Header(h.name, v)];
    RenderAround(hs, cells, j);
    RenderChanged(hs, cells, j, if v == "" then None else Some(v));
    RenderCounts(canon, hs, cells, canon(hs[j].name), j);
    ApplyAt(canon, before, h, after + tail, Ordinal(canon, hs, j), v);
    TailBehind(before, [h], after, tail);
    TailBehind(before, changed, after, tail);
  }

  lemma ApplyAt(canon: Canon, before: seq<Header>, h: Header, rest: seq<Header>, i: nat, v: string)
    requires |ValuesOf(canon, before, canon(h.name))| == i
    ensures Apply(canon, before + [h] + rest, Change(i + 1, canon(h.name), v))
            == before + (if v == "" then [] else [Header(h.name, v)]) + rest
  {
    NthAfter(canon, before, h, rest, canon(h.name), i);
    var all := before + [h] + rest;
    assert all[|before|] == h && all[..|before|] == before && all[|before| + 1..] == rest;
  }

  /** One more change on top of a run that led to the given cells. */
  lemma RunChange(canon: Canon, mta: Mta, start: seq<Header>, ops: seq<Op>, hs: seq<Header>, cells: Cells,
                  tail: seq<Header>, j: nat, v: string)
    requires Conforming(canon, mta)
    requires j < |hs| == |cells|
    requires forall i :: 0 <= i <= j && canon(hs[i].name) == canon(hs[j].name) ==> cells[i].Some?
    requires Exec(mta, start, ops) == Rendered(hs, cells) + tail
    ensures Exec(mta, start, ops + [Change(Ordinal(canon, hs, j) + 1, canon(hs[j].name), v)])
            == Rendered(hs, cells[j := if v == "" then None else Some(v)]) + tail
  {
    var op := Change(Ordinal(canon, hs, j) + 1, canon(hs[j].name), v);
    ExecSnoc(mta, start, ops, op);
    assert Answers(canon, mta, Rendered(hs, cells) + tail, op);
    ChangeHitsCell(canon, hs, cells, tail, j, v);
  }

  /** One more addition on top of a run. */
  lemma RunAdd(canon: Canon, mta: Mta, start: seq<Header>, ops: seq<Op>, n: string, v: string)
    requires Conforming(canon, mta)
    ensures Exec(mta, start, ops + [Add(n, v)]) == Exec(mta, start, ops) + [Header(n, v)]
  {
    ExecSnoc(mta, start, ops, Add(n, v));
    assert Answers(canon, mta, Exec(mta, start, ops), Add(n, v));
  }
}
