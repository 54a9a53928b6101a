/** Header values up to folding and surrounding blanks. */
module MilterNormalize {
  import opened Text

  /** Every line break, with the blanks after it, becomes one space. */
  function Unfold(v: string): string
    decreases |v|
  {
    if v == [] then []
    else if v[0] == '\r' && |v| > 1 && v[1] == '\n' then " " + Unfold(TrimLeft(v[2..], BLANK))
    else if v[0] == '\n' then " " + Unfold(TrimLeft(v[1..], BLANK))
    else [v[0]] + Unfold(v[1..])
  }

  function Normalize(v: string): string {
    TrimRight(Unfold(TrimLeft(v, BLANK)), BLANK)
  }

  /** Skips the blanks at position i. */
  method SkipBlanks(v: string, i: nat) returns (j: nat)
    requires i <= |v|
    ensures i <= j <= |v|
    ensures v[j..] == TrimLeft(v[i..], BLANK)
  {
    j := i;
    while j < |v| && v[j] in BLANK
      invariant i <= j <= |v|
      invariant TrimLeft(v[j..], BLANK) == TrimLeft(v[i..], BLANK)
    {
      assert v[j..][1..] == v[j + 1..];
      j := j + 1;
    }
  }

  /** Where the text after position i resumes, and what i contributes: a line break with its
      blanks gives one space, any other character itself. */
  lemma UnfoldBreak(t: string, i: nat, next: nat, j: nat)
    requires i < next <= j <= |t|
    requires (t[i] == '\r' && next == i + 2 && t[i + 1] == '\n') || (t[i] == '\n' && next == i + 1)
    requires t[j..] == TrimLeft(t[next..], BLANK)
    ensures Unfold(t[i..]) == " " + Unfold(t[j..])
  {
    var rest := t[i..];
    assert rest[0] == t[i] && rest[next - i..] == t[next..];
  }

  lemma UnfoldPlain(t: string, i: nat)
    requires i < |t| && t[i] != '\n'
    requires !(t[i] == '\r' && i + 1 < |t| && t[i + 1] == '\n')
    ensures Unfold(t[i..]) == [t[i]] + Unfold(t[i + 1..])
  {
    var rest := t[i..];
    assert rest[0] == t[i] && rest[1..] == t[i + 1..];
    assert |rest| > 1 ==> rest[1] == t[i + 1];
  }

  /** What is left to unfold at position i, after b. */
  ghost predicate Unfolding(t: string, b: string, i: nat) {
    i <= |t| && b + Unfold(t[i..]) == Unfold(t)
  }

  lemma Advance(t: string, b: string, i: nat, c: string, j: nat)
    requires Unfolding(t, b, i) && j <= |t|
    requires Unfold(t[i..]) == c + Unfold(t[j..])
    ensures Unfolding(t, b + c, j)
  {
    assert b + (c + Unfold(t[j..])) == (b + c) + Unfold(t[j..]);
  }

  /** The comparison form of a header value, built in one pass. */
  method NormalizeHeaderValue(v: string) returns (r: string)
    ensures r == Normalize(v)
  {
    var t := TrimLeft(v, BLANK);
    r := UnfoldAll(t);
    r := TrimRight(r, BLANK);
  }

  method UnfoldAll(t: string) returns (b: string)
    ensures b == Unfold(t)
  {
    var i := 0;
    b := "";
    assert t[0..] == t;
    while i < |t|
      invariant Unfolding(t, b, i)
      decreases |t| - i
    {
      if t[i] == '\r' && i + 1 < |t| && t[i + 1] == '\n' {
        var j := SkipBlanks(t, i + 2);
        UnfoldBreak(t, i, i + 2, j);
        Advance(t, b, i, " ", j);
        b, i := b + " ", j;
      } else if t[i] == '\n' {
        var j := SkipBlanks(t, i + 1);
        UnfoldBreak(t, i, i + 1, j);
        Advance(t, b, i, " ", j);
        b, i := b + " ", j;
      } else {
        UnfoldPlain(t, i);
        Advance(t, b, i, [t[i]], i + 1);
        b, i := b + [t[i]], i + 1;
      }
    }
    assert t[i..] == [] && b + [] == b;
  }
}
