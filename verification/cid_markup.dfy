/** Which text the scan takes for a reference, character by character. */
module CidMarkup {
  import opened CidScan

  const QUOTING := "\"'<>()`"

  /** A character that a reference is written with: printable ASCII, but nothing that quotes. */
  predicate Written(c: char) {
    '!' <= c <= '~' && c !in QUOTING
  }

  ghost predicate AllWritten(s: string) {
    forall i :: 0 <= i < |s| ==> Written(s[i])
  }

  /** The scheme with its colon, in any case. */
  predicate IsScheme(s: string) {
    |s| == 4 && s[0] in "cC" && s[1] in "iI" && s[2] in "dD" && s[3] == ':'
  }

  /** A character of a longer scheme's name. */
  predicate InName(c: char) {
    'a' <= c <= 'z' || 'A' <= c <= 'Z' || '0' <= c <= '9' || c == '+' || c == '-' || c == '.'
  }

  predicate SchemeAt(data: string, i: nat) {
    i + 4 <= |data| && IsScheme(data[i..i + 4])
  }

  /** No reference may begin in the text. */
  ghost predicate NoScheme(s: string) {
    forall i: nat :: !SchemeAt(s, i)
  }

  lemma WrittenIs(c: char)
    ensures TokenChar(c) <==> Written(c)
  {}

  lemma InNameIs(c: char)
    ensures SchemeChar(c) <==> InName(c)
  {}

  lemma StartsIs(data: string, i: nat)
    ensures StartsAt(data, i) <==> SchemeAt(data, i) && (i > 0 ==> !InName(data[i - 1]))
  {
    if i > 0 && i + 4 <= |data| {
      InNameIs(data[i - 1]);
    }
    if i + 4 <= |data| {
      var s := data[i..i + 4];
      assert s[0] == data[i] && s[1] == data[i + 1] && s[2] == data[i + 2] && s[3] == data[i + 3];
    }
  }

  /** Everything that stands before a reference: text that ends in a character no reference is
      written with, if any, and then text in which none begins, up to a character that no scheme's
      name has. */
  ghost predicate LeadsUp(before: string, mid: string) {
    && (before != "" ==> !Written(before[|before| - 1]))
    && NoScheme(mid) && (mid != "" ==> !InName(mid[|mid| - 1]))
  }

  /** The same for a text up to position p, with the part in between from position b on. */
  ghost predicate LeadsUpTo(data: string, b: nat, p: nat) {
    && b <= p <= |data|
    && (b > 0 ==> !Written(data[b - 1])) && (p > b ==> !InName(data[p - 1]))
    && forall i: nat :: b <= i && i + 4 <= p ==> !SchemeAt(data, i)
  }

  /** An earlier reference ends before this one begins. */
  lemma NotInside(data: string, b: nat, p: nat, s: Span)
    requires LeadsUpTo(data, b, p) && SchemeAt(data, p)
    requires IsReference(data, s) && s.at <= p < s.end
    ensures s.at == p
  {
    StartsIs(data, s.at);
    SchemeReads(data, s.at);
    SchemeReads(data, p);
    if s.at < b {
      WrittenIs(data[b - 1]);
    }
  }

  lemma SchemeReads(data: string, i: nat)
    requires SchemeAt(data, i)
    ensures forall k :: i <= k < i + 4 ==> Written(data[k]) && (data[k] == ':' <==> k == i + 3)
  {
    var s := data[i..i + 4];
    assert forall k :: i <= k < i + 4 ==> data[k] == s[k - i];
  }

  lemma NameIsWritten(c: char)
    ensures InName(c) ==> Written(c)
  {}

  /** The text from start on goes on with the identifier, up to a character that no reference is
      written with, to the end, or to the length limit. */
  ghost predicate GoesOn(data: string, start: nat, id: string) {
    && start + |id| <= |data| && data[start..start + |id|] == id && AllWritten(id) && 1 <= |id| <= 998
    && (start + |id| == |data| || !Written(data[start + |id|]) || |id| == 998)
  }

  lemma RunsThrough(data: string, start: nat, id: string)
    requires GoesOn(data, start, id)
    ensures TokenRuns(data, start, start + |id|)
  {
    forall k | start <= k < start + |id|
      ensures TokenChar(data[k])
    {
      assert data[k] == id[k - start];
      WrittenIs(data[k]);
    }
    if start + |id| < |data| {
      WrittenIs(data[start + |id|]);
    }
  }

  lemma StartsThere(data: string, b: nat, p: nat)
    requires LeadsUpTo(data, b, p) && SchemeAt(data, p)
    ensures StartsIn(data)(p)
  {
    if p == b && b > 0 {
      NameIsWritten(data[p - 1]);
    }
    StartsIs(data, p);
  }

  lemma TakenAt(data: string, b: nat, p: nat, id: string, spans: seq<Span>) returns (k: nat)
    requires Takes(data, 0, spans)
    requires LeadsUpTo(data, b, p) && SchemeAt(data, p) && GoesOn(data, p + 4, id)
    ensures k < |spans| && spans[k] == Span(p, p + 4 + |id|)
  {
    StartsThere(data, b, p);
    assert Taken(spans, p);
    k :| 0 <= k < |spans| && spans[k].at <= p < spans[k].end;
    assert RefersIn(data)(spans[k]);
    NotInside(data, b, p, spans[k]);
    RunsThrough(data, p + 4, id);
    TokenEndUnique(data, p + 4, spans[k].end, p + 4 + |id|);
  }

  lemma FoundAt(decode: Decoder, data: string, b: nat, p: nat, id: string)
    requires LeadsUpTo(data, b, p) && SchemeAt(data, p) && GoesOn(data, p + 4, id) && decode(id) != ""
    ensures decode(id) in ContentIDs(decode, data)
  {
    ReferencesTaken(data, 0);
    var k := TakenAt(data, b, p, id, References(data, 0));
    ContentIDsExactly(decode, data, References(data, 0), decode(id));
  }

  lemma LeadsUpThere(before: string, mid: string, rest: string)
    requires LeadsUp(before, mid)
    ensures LeadsUpTo(before + mid + rest, |before|, |before| + |mid|)
  {
    var data, b, p := before + mid + rest, |before|, |before| + |mid|;
    forall i: nat | b <= i && i + 4 <= p
      ensures !SchemeAt(data, i)
    {
      assert data[i..i + 4] == mid[i - b..i - b + 4];
      assert !SchemeAt(mid, i - b);
    }
  }

  /** Written out, a reference is found whatever surrounds it: at the start of the text or behind a
      quote, a bracket, a blank or the like, with nothing in between that could be a reference; up
      to such a character, or to the end, or to the length limit. */
  lemma ReferenceFound(decode: Decoder, before: string, mid: string, scheme: string, id: string, after: string)
    requires LeadsUp(before, mid) && IsScheme(scheme)
    requires AllWritten(id) && 1 <= |id| <= 998 && decode(id) != ""
    requires after == "" || !Written(after[0]) || |id| == 998
    ensures decode(id) in ContentIDs(decode, before + mid + (scheme + id + after))
  {
    LeadsUpThere(before, mid, scheme + id + after);
    WrittenOut(before + mid, scheme, id, after);
    FoundAt(decode, before + mid + (scheme + id + after), |before|, |before| + |mid|, id);
  }

  lemma WrittenOut(front: string, scheme: string, id: string, after: string)
    requires IsScheme(scheme) && AllWritten(id) && 1 <= |id| <= 998
    requires after == "" || !Written(after[0]) || |id| == 998
    ensures SchemeAt(front + (scheme + id + after), |front|)
    ensures GoesOn(front + (scheme + id + after), |front| + 4, id)
  {
    var rest, p := scheme + id + after, |front|;
    assert (front + rest)[p..p + 4] == scheme;
    assert (front + rest)[p + 4..p + 4 + |id|] == id;
    assert after != "" ==> (front + rest)[p + 4 + |id|] == after[0];
  }

  /** The text from i on is a reference of the Content-ID, whose identifier ends at j. */
  ghost predicate Refers(decode: Decoder, data: string, id: string, i: nat, j: nat) {
    && SchemeAt(data, i) && (i > 0 ==> !InName(data[i - 1]))
    && i + 4 <= j <= |data| && j - (i + 4) <= 998 && AllWritten(data[i + 4..j])
    && (j < |data| && j - (i + 4) < 998 ==> !Written(data[j]))
    && id == decode(data[i + 4..j])
  }

  /** And nothing else is found: every Content-ID stands behind a scheme that is not the tail of a
      longer one, written up to a character that no reference is written with, the end, or the
      length limit. */
  lemma FoundIsReference(decode: Decoder, data: string, id: string) returns (i: nat, j: nat)
    requires id in ContentIDs(decode, data)
    ensures Refers(decode, data, id, i, j)
  {
    var spans := References(data, 0);
    ReferencesTaken(data, 0);
    ContentIDsExactly(decode, data, spans, id);
    var k :| 0 <= k < |spans| && decode(Token(data, spans[k])) == id;
    assert RefersIn(data)(spans[k]);
    i, j := spans[k].at, spans[k].end;
    ReferenceReads(data, spans[k]);
  }

  lemma ReferenceReads(data: string, s: Span)
    requires IsReference(data, s)
    ensures SchemeAt(data, s.at) && (s.at > 0 ==> !InName(data[s.at - 1]))
    ensures s.at + 4 <= s.end <= |data| && s.end - (s.at + 4) <= 998 && AllWritten(data[s.at + 4..s.end])
    ensures s.end < |data| && s.end - (s.at + 4) < 998 ==> !Written(data[s.end])
  {
    StartsIs(data, s.at);
    forall m | s.at + 4 <= m < s.end
      ensures Written(data[m])
    {
      WrittenIs(data[m]);
    }
    if s.end < |data| {
      WrittenIs(data[s.end]);
    }
  }
}
