/** Scanning HTML text for cid: references. */
module CidScan {
  const MAX_TOKEN_LENGTH := 998

  function Lower(c: char): char {
    if 'A' <= c <= 'Z' then (c as int + 32) as char else c
  }

  predicate SchemeChar(c: char) {
    'a' <= c <= 'z' || 'A' <= c <= 'Z' || '0' <= c <= '9' || c == '+' || c == '-' || c == '.'
  }

  predicate TokenChar(c: char) {
    c !in {'"', '\'', '<', '>', '(', ')', '`'} && ' ' < c < '\U{7f}'
  }

  /** A reference starts at i: the scheme, in any case, not as the tail of a longer one. */
  predicate StartsAt(data: string, i: nat) {
    && i + 4 <= |data|
    && Lower(data[i]) == 'c' && Lower(data[i + 1]) == 'i' && Lower(data[i + 2]) == 'd' && data[i + 3] == ':'
    && (i > 0 ==> !SchemeChar(data[i - 1]))
  }

  /** The token that begins at start runs up to end: as far as token characters reach, but no
      longer than the limit. */
  predicate TokenRuns(data: string, start: nat, end: nat) {
    && start <= end <= |data| && end - start <= MAX_TOKEN_LENGTH
    && (forall k :: start <= k < end ==> TokenChar(data[k]))
    && (end < |data| && end - start < MAX_TOKEN_LENGTH ==> !TokenChar(data[end]))
  }

  /** A reference in the text: where its scheme starts and where its token ends. */
  datatype Span = Span(at: nat, end: nat)

  predicate IsReference(data: string, s: Span) {
    StartsAt(data, s.at) && TokenRuns(data, s.at + 4, s.end)
  }

  function Token(data: string, s: Span): string {
    if s.at + 4 <= s.end <= |data| then data[s.at + 4..s.end] else ""
  }

  // ------------------------------------------------------------- specification

  /** From position p on, the references are taken from left to right without overlap: each is
      one, they follow each other, and every place where one starts is taken or inside one that
      is. */
  ghost predicate Takes(data: string, p: nat, spans: seq<Span>) {
    Taking(RefersIn(data), StartsIn(data), p, spans)
  }

  function RefersIn(data: string): Span -> bool {
    s => IsReference(data, s)
  }

  function StartsIn(data: string): nat -> bool {
    (i: nat) => StartsAt(data, i)
  }

  ghost predicate Taking(refers: Span -> bool, starts: nat -> bool, p: nat, spans: seq<Span>) {
    AllRefer(refers, spans) && Apart(p, spans) && AllTaken(starts, p, spans)
  }

  ghost predicate AllRefer(refers: Span -> bool, spans: seq<Span>) {
    forall k :: 0 <= k < |spans| ==> refers(spans[k])
  }

  ghost predicate Apart(p: nat, spans: seq<Span>) {
    && (forall k :: 0 <= k < |spans| ==> p <= spans[k].at < spans[k].end)
    && forall j, k :: 0 <= j < k < |spans| ==> spans[j].end <= spans[k].at
  }

  ghost predicate AllTaken(starts: nat -> bool, p: nat, spans: seq<Span>) {
    forall i: nat :: i >= p && starts(i) ==> Taken(spans, i)
  }

  ghost predicate Taken(spans: seq<Span>, i: nat) {
    exists k :: 0 <= k < |spans| && spans[k].at <= i < spans[k].end
  }

  predicate Opens(refers: Span -> bool, starts: nat -> bool, s: Span) {
    refers(s) ==> starts(s.at)
  }

  predicate Coincide(refers: Span -> bool, s: Span, t: Span) {
    refers(s) && refers(t) && s.at == t.at ==> s == t
  }

  /** A reference is determined by where it starts. */
  ghost predicate Determined(refers: Span -> bool, starts: nat -> bool) {
    (forall s :: Opens(refers, starts, s)) && forall s, t :: Coincide(refers, s, t)
  }

  lemma ReferencesDetermined(data: string)
    ensures Determined(RefersIn(data), StartsIn(data))
  {
    forall s: Span, t: Span
      ensures Coincide(RefersIn(data), s, t)
    {
      if IsReference(data, s) && IsReference(data, t) && s.at == t.at {
        TokenEndUnique(data, s.at + 4, s.end, t.end);
      }
    }
  }

  lemma TokenEndUnique(data: string, start: nat, a: nat, b: nat)
    requires TokenRuns(data, start, a) && TokenRuns(data, start, b)
    ensures a == b
  {}

  /** The first reference is determined. */
  lemma FirstTaken(refers: Span -> bool, starts: nat -> bool, p: nat, a: seq<Span>, b: seq<Span>)
    requires Determined(refers, starts)
    requires Taking(refers, starts, p, a) && Taking(refers, starts, p, b) && a != []
    ensures b != [] && a[0] == b[0]
  {
    assert Opens(refers, starts, a[0]) && refers(a[0]) && Taken(b, a[0].at);
    assert Opens(refers, starts, b[0]) && refers(b[0]) && Taken(a, b[0].at);
    assert Coincide(refers, a[0], b[0]);
  }

  lemma TakingRest(refers: Span -> bool, starts: nat -> bool, p: nat, spans: seq<Span>)
    requires Taking(refers, starts, p, spans) && spans != []
    ensures Taking(refers, starts, spans[0].end, spans[1..])
  {
    var rest := spans[1..];
    forall i: nat | i >= spans[0].end && starts(i)
      ensures Taken(rest, i)
    {
      assert Taken(spans, i);
      var k :| 0 <= k < |spans| && spans[k].at <= i < spans[k].end;
      assert k > 0 && rest[k - 1] == spans[k];
    }
  }

  /** There is only one way to take the references of a text. */
  lemma {:induction false} TakingUnique(refers: Span -> bool, starts: nat -> bool, p: nat, a: seq<Span>, b: seq<Span>)
    requires Determined(refers, starts)
    requires Taking(refers, starts, p, a) && Taking(refers, starts, p, b)
    ensures a == b
    decreases |a|
  {
    if a == [] {
      if b != [] {
        FirstTaken(refers, starts, p, b, a);
      }
    } else {
      FirstTaken(refers, starts, p, a, b);
      TakingRest(refers, starts, p, a);
      TakingRest(refers, starts, p, b);
      TakingUnique(refers, starts, a[0].end, a[1..], b[1..]);
      assert a == [a[0]] + a[1..] && b == [b[0]] + b[1..];
    }
  }

  lemma TakingOne(refers: Span -> bool, starts: nat -> bool, s: Span, rest: seq<Span>)
    requires refers(s) && s.at < s.end && Taking(refers, starts, s.end, rest)
    ensures Taking(refers, starts, s.at, [s] + rest)
  {
    forall i: nat | i >= s.at && starts(i)
      ensures Taken([s] + rest, i)
    {
      TakenLater(s, rest, i);
    }
  }

  lemma TakenLater(s: Span, rest: seq<Span>, i: nat)
    ensures s.at <= i < s.end || Taken(rest, i) ==> Taken([s] + rest, i)
  {
    var spans := [s] + rest;
    if s.at <= i < s.end {
      assert spans[0] == s;
    } else if Taken(rest, i) {
      var k :| 0 <= k < |rest| && rest[k].at <= i < rest[k].end;
      assert spans[k + 1] == rest[k];
    }
  }

  lemma TakingLater(refers: Span -> bool, starts: nat -> bool, p: nat, spans: seq<Span>)
    requires !starts(p) && Taking(refers, starts, p + 1, spans)
    ensures Taking(refers, starts, p, spans)
  {}

  /** The raw lengths of the first k references. */
  function Length(spans: seq<Span>, k: nat): int
    requires k <= |spans|
  {
    if k == 0 then 0 else Length(spans, k - 1) + (spans[k - 1].end - spans[k - 1].at)
  }

  lemma {:induction false} LengthUpTo(spans: seq<Span>, k: nat)
    requires Apart(0, spans) && k <= |spans|
    ensures Length(spans, k) <= if k == 0 then 0 else spans[k - 1].end
  {
    if k > 0 {
      LengthUpTo(spans, k - 1);
    }
  }

  /** The references do not overlap, so together they are no longer than the text. */
  lemma LengthBounded(data: string, spans: seq<Span>)
    requires Takes(data, 0, spans)
    ensures Length(spans, |spans|) <= |data|
  {
    LengthUpTo(spans, |spans|);
    if spans != [] {
      assert RefersIn(data)(spans[|spans| - 1]);
    }
  }

  // ------------------------------------------------------------------- scanner

  function TokenEnd(data: string, start: nat, j: nat): (end: nat)
    requires start <= j <= |data| && j - start <= MAX_TOKEN_LENGTH
    requires forall k :: start <= k < j ==> TokenChar(data[k])
    ensures TokenRuns(data, start, end)
    decreases |data| - j
  {
    if j < |data| && j - start < MAX_TOKEN_LENGTH && TokenChar(data[j]) then TokenEnd(data, start, j + 1) else j
  }

  /** The references from position p on, as the scanner finds them. */
  function References(data: string, p: nat): seq<Span>
    decreases |data| - p
  {
    if p >= |data| then []
    else if StartsAt(data, p) then
      var end := TokenEnd(data, p + 4, p + 4);
      [Span(p, end)] + References(data, end)
    else References(data, p + 1)
  }

  /** Skipping ahead loses nothing. */
  lemma {:induction false} ReferencesTaken(data: string, p: nat)
    ensures Takes(data, p, References(data, p))
    decreases |data| - p
  {
    if p < |data| {
      if StartsAt(data, p) {
        var end := TokenEnd(data, p + 4, p + 4);
        ReferencesTaken(data, end);
        TakingOne(RefersIn(data), StartsIn(data), Span(p, end), References(data, end));
      } else {
        ReferencesTaken(data, p + 1);
        TakingLater(RefersIn(data), StartsIn(data), p, References(data, p + 1));
      }
    }
  }

  /** How a token becomes a Content-ID: trimming and percent-decoding. */
  type Decoder = string -> string

  /** The Content-IDs that the first k references name. */
  function Named(decode: Decoder, data: string, spans: seq<Span>, k: nat): set<string>
    requires k <= |spans|
  {
    if k == 0 then {}
    else
      var id := decode(Token(data, spans[k - 1]));
      Named(decode, data, spans, k - 1) + if id != "" then {id} else {}
  }

  function ContentIDs(decode: Decoder, data: string): set<string> {
    var spans := References(data, 0);
    Named(decode, data, spans, |spans|)
  }

  lemma {:induction false} NamedIs(decode: Decoder, data: string, spans: seq<Span>, k: nat, id: string)
    requires k <= |spans|
    ensures id in Named(decode, data, spans, k) <==>
            id != "" && exists j :: 0 <= j < k && decode(Token(data, spans[j])) == id
  {
    if k > 0 {
      NamedIs(decode, data, spans, k - 1, id);
    }
  }

  /** A Content-ID is found exactly if some reference names it, for the only way to take the
      references. */
  lemma ContentIDsExactly(decode: Decoder, data: string, spans: seq<Span>, id: string)
    requires Takes(data, 0, spans)
    ensures id in ContentIDs(decode, data) <==>
            id != "" && exists j :: 0 <= j < |spans| && decode(Token(data, spans[j])) == id
  {
    ReferencesTaken(data, 0);
    ReferencesDetermined(data);
    TakingUnique(RefersIn(data), StartsIn(data), 0, spans, References(data, 0));
    NamedIs(decode, data, spans, |spans|, id);
  }

  lemma {:induction false} NoneLeft(data: string, p: nat)
    requires p + 4 > |data|
    ensures References(data, p) == []
    decreases |data| - p
  {
    if p < |data| {
      NoneLeft(data, p + 1);
    }
  }

  lemma NamedMore(decode: Decoder, data: string, done: seq<Span>, s: Span)
    ensures Named(decode, data, done + [s], |done| + 1)
            == Named(decode, data, done, |done|) + if decode(Token(data, s)) != "" then {decode(Token(data, s))} else {}
  {
    NamedPrefix(decode, data, done, [s], |done|);
  }

  lemma {:induction false} NamedPrefix(decode: Decoder, data: string, a: seq<Span>, b: seq<Span>, k: nat)
    requires k <= |a|
    ensures Named(decode, data, a + b, k) == Named(decode, data, a, k)
  {
    if k > 0 {
      NamedPrefix(decode, data, a, b, k - 1);
    }
  }

  /** The one-pass scan: after a reference it resumes behind the consumed token. */
  method ExtractTokens(decode: Decoder, data: string) returns (refs: set<string>)
    ensures refs == ContentIDs(decode, data)
  {
    refs := {};
    ghost var all := References(data, 0);
    ghost var done: seq<Span> := [];
    var i := 0;
    assert [] + all == all;
    while i + 4 <= |data|
      invariant i <= |data|
      invariant all == done + References(data, i)
      invariant refs == Named(decode, data, done, |done|)
      decreases |data| - i
    {
      if StartsAt(data, i) {
        var start := i + 4;
        var j := start;
        while j < |data| && j - start < MAX_TOKEN_LENGTH && TokenChar(data[j])
          invariant start <= j <= |data| && j - start <= MAX_TOKEN_LENGTH
          invariant forall k :: start <= k < j ==> TokenChar(data[k])
          invariant TokenEnd(data, start, start) == TokenEnd(data, start, j)
        {
          j := j + 1;
        }
        var id := decode(data[start..j]);
        if id != "" {
          refs := refs + {id};
        }
        NamedMore(decode, data, done, Span(i, j));
        assert all == done + [Span(i, j)] + References(data, j);
        done := done + [Span(i, j)];
        i := j;
      } else {
        i := i + 1;
      }
    }
    NoneLeft(data, i);
    assert done + [] == done;
  }
}
