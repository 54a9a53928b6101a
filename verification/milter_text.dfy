/** What the comparison of header values tells apart: the text itself, up to blanks around it and to
    how it is folded. */
module MilterText {
  import opened Text
  import opened MilterNormalize
  import opened MilterFolding
  import opened MilterOutcome
  import opened MilterBackend

  /** The characters of a value without blanks and line breaks. */
  function Letters(v: string): string {
    if v == "" then "" else LetterOf(v[0]) + Letters(v[1..])
  }

  function LetterOf(c: char): string {
    if c == ' ' || c == '\t' || c == '\r' || c == '\n' then "" else [c]
  }

  predicate Spaces(s: string) {
    forall i :: 0 <= i < |s| ==> s[i] == ' ' || s[i] == '\t'
  }

  /** Text on one line that neither starts nor ends with a blank. */
  predicate Bare(s: string) {
    && (forall i :: 0 <= i < |s| ==> s[i] != '\r' && s[i] != '\n')
    && (s != "" ==> s[0] !in " \t" && s[|s| - 1] !in " \t")
  }

  // ------------------------------------------------------- values on one line

  lemma TrimPadded(l: string, x: string, r: string)
    requires Spaces(l) && Bare(x) && Spaces(r)
    ensures Trim(l + x + r) == x
  {
    assert l + x + r == l + (x + r) && Blank(l) && Blank(r);
    TrimLeftOver(l, x + r);
    if x == "" {
      assert x + r == r;
      TrimLeftOver(r, "");
    } else {
      TrimLeftOver(x, r);
      TrimLeftIdle(x);
      assert !Blank(x);
      TrimRightOver(x, r);
    }
  }

  /** Values on one line are taken as unchanged exactly if they are the same text, whatever blanks
      are around it. */
  lemma UnchangedOnOneLine(l: string, x: string, r: string, l': string, y: string, r': string)
    requires Spaces(l) && Bare(x) && Spaces(r) && Spaces(l') && Bare(y) && Spaces(r')
    ensures Unchanged(l + x + r, l' + y + r') <==> x == y
  {
    TrimPadded(l, x, r);
    TrimPadded(l', y, r');
    NormalizeOneLine(l + x + r);
    NormalizeOneLine(l' + y + r');
  }

  /** Any value on one line is such a text with blanks around it. */
  lemma OneLineSplits(v: string) returns (l: string, x: string, r: string)
    requires forall i :: 0 <= i < |v| ==> v[i] != '\r' && v[i] != '\n'
    ensures Spaces(l) && Bare(x) && Spaces(r) && v == l + x + r
  {
    var t := TrimLeft(v, BLANK);
    TrimLeftParts(v, BLANK);
    l := v[..|v| - |t|];
    assert v == l + t;
    x, r := RightSplits(t);
    assert l + (x + r) == l + x + r;
    assert forall i :: 0 <= i < |x| ==> x[i] == v[|l| + i];
  }

  lemma {:induction false} RightSplits(t: string) returns (x: string, r: string)
    requires t != "" ==> t[0] !in BLANK
    ensures t == x + r && Spaces(r)
    ensures x != "" ==> x[0] !in BLANK && x[|x| - 1] !in BLANK
  {
    if t != "" && t[|t| - 1] in BLANK {
      x, r := RightSplits(t[..|t| - 1]);
      assert t == x + (r + [t[|t| - 1]]);
      r := r + [t[|t| - 1]];
    } else {
      x, r := t, "";
    }
  }

  // ------------------------------------------------------------- all values

  lemma {:induction false} LettersTogether(a: string, b: string)
    ensures Letters(a + b) == Letters(a) + Letters(b)
  {
    if a == "" {
      assert a + b == b;
    } else {
      LettersTogether(a[1..], b);
      assert (a + b)[0] == a[0] && (a + b)[1..] == a[1..] + b;
      var c, x, y := LetterOf(a[0]), Letters(a[1..]), Letters(b);
      assert c + (x + y) == (c + x) + y;
    }
  }

  lemma {:induction false} LettersTrimLeft(s: string)
    ensures Letters(TrimLeft(s, BLANK)) == Letters(s)
  {
    if s != "" && s[0] in BLANK {
      LettersTrimLeft(s[1..]);
    }
  }

  lemma {:induction false} LettersTrimRight(s: string)
    ensures Letters(TrimRight(s, BLANK)) == Letters(s)
  {
    if s != "" && s[|s| - 1] in BLANK {
      var front := s[..|s| - 1];
      LettersTrimRight(front);
      LettersTogether(front, [s[|s| - 1]]);
      assert s == front + [s[|s| - 1]];
    }
  }

  lemma {:induction false} LettersUnfold(v: string)
    ensures Letters(Unfold(v)) == Letters(v)
    decreases |v|
  {
    if v != "" {
      if v[0] == '\r' && |v| > 1 && v[1] == '\n' {
        var rest := TrimLeft(v[2..], BLANK);
        LettersUnfold(rest);
        LettersTrimLeft(v[2..]);
        LettersTogether(" ", Unfold(rest));
        assert v[1..][0] == '\n' && v[1..][1..] == v[2..];
      } else if v[0] == '\n' {
        var rest := TrimLeft(v[1..], BLANK);
        LettersUnfold(rest);
        LettersTrimLeft(v[1..]);
        LettersTogether(" ", Unfold(rest));
      } else {
        LettersUnfold(v[1..]);
        LettersTogether([v[0]], Unfold(v[1..]));
        assert v == [v[0]] + v[1..];
        LettersTogether([v[0]], v[1..]);
      }
    }
  }

  /** However they are folded, values taken as unchanged have the same characters but for blanks and
      line breaks. */
  lemma UnchangedKeepsLetters(a: string, b: string)
    requires Unchanged(a, b)
    ensures Letters(a) == Letters(b)
  {
    NormalizeLetters(a);
    NormalizeLetters(b);
  }

  lemma NormalizeLetters(v: string)
    ensures Letters(Normalize(v)) == Letters(v)
  {
    var t := TrimLeft(v, BLANK);
    LettersTrimLeft(v);
    LettersUnfold(t);
    LettersTrimRight(Unfold(t));
  }

  /** The two values read the same: they have the same characters but for blanks and line breaks,
      and if both stand on one line they are the same but for the blanks around. */
  ghost predicate ReadsSame(a: string, b: string) {
    && Letters(a) == Letters(b)
    && forall l, x, r, l', y, r' :: Padded(a, l, x, r) && Padded(b, l', y, r') ==> x == y
  }

  predicate Padded(v: string, l: string, x: string, r: string) {
    v == l + x + r && Spaces(l) && Bare(x) && Spaces(r)
  }

  lemma UnchangedReadsSame(a: string, b: string)
    requires Unchanged(a, b)
    ensures ReadsSame(a, b)
  {
    UnchangedKeepsLetters(a, b);
    forall l, x, r, l', y, r' | Padded(a, l, x, r) && Padded(b, l', y, r')
      ensures x == y
    {
      UnchangedOnOneLine(l, x, r, l', y, r');
    }
  }

  ghost predicate AllReadSame(got: seq<string>, wanted: seq<string>) {
    |got| == |wanted| && forall i :: 0 <= i < |got| ==> ReadsSame(got[i], wanted[i])
  }

  /** What is delivered reads as it was wanted. */
  lemma DeliveredReadsSame(got: seq<string>, wanted: seq<string>)
    requires Delivers(Unchanged, got, wanted)
    ensures AllReadSame(got, wanted)
  {
    forall i | 0 <= i < |got|
      ensures ReadsSame(got[i], wanted[i])
    {
      UnchangedReadsSame(got[i], wanted[i]);
    }
  }
}
