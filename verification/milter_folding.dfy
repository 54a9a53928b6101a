/** Folded header values: how they read back, and when they read back as the same value. */
module MilterFolding {
  import opened Text
  import opened MilterNormalize

  /** A line break as the wire may carry it inside a value. */
  predicate LineBreak(b: string) {
    b == "\n" || b == "\r\n"
  }

  predicate OneLine(s: string) {
    Free(s, '\r') && Free(s, '\n')
  }

  /** Lines that a value may be folded into: continuation lines start with a blank. */
  predicate Foldable(lines: seq<string>) {
    && lines != []
    && (forall i :: 0 <= i < |lines| ==> OneLine(lines[i]))
    && forall i :: 1 <= i < |lines| ==> lines[i] != [] && lines[i][0] in BLANK
  }

  /** The value's text from line k on. */
  function FoldText(lines: seq<string>, brk: string, k: nat): string
    requires k < |lines|
    decreases |lines| - k
  {
    lines[k] + if k + 1 < |lines| then brk + FoldText(lines, brk, k + 1) else ""
  }

  /** The lines from k on, joined by single spaces. */
  function Joined(lines: seq<string>, k: nat): string
    requires k < |lines|
    decreases |lines| - k
  {
    lines[k] + if k + 1 < |lines| then " " + Joined(lines, k + 1) else ""
  }

  /** Each line without its leading blanks. */
  function Starts(lines: seq<string>): (r: seq<string>)
    ensures |r| == |lines|
  {
    seq(|lines|, i requires 0 <= i < |lines| => TrimLeft(lines[i], BLANK))
  }

  function Trim(s: string): string {
    TrimRight(TrimLeft(s, BLANK), BLANK)
  }

  /** Each line without the blanks around it. */
  function Trims(lines: seq<string>): (r: seq<string>)
    ensures |r| == |lines|
  {
    seq(|lines|, i requires 0 <= i < |lines| => Trim(lines[i]))
  }

  // ----------------------------------------------------------------- trimming

  predicate Blank(s: string) {
    forall i :: 0 <= i < |s| ==> s[i] in BLANK
  }

  lemma BlankHead(x: string)
    requires x != []
    ensures Blank(x) <==> x[0] in BLANK && Blank(x[1..])
  {
    if x[0] in BLANK && Blank(x[1..]) {
      assert forall i :: 1 <= i < |x| ==> x[i] == x[1..][i - 1];
    }
  }

  lemma {:induction false} TrimLeftOver(x: string, y: string)
    ensures TrimLeft(x + y, BLANK) == if Blank(x) then TrimLeft(y, BLANK) else TrimLeft(x, BLANK) + y
    ensures Blank(x) <==> TrimLeft(x, BLANK) == ""
  {
    if x == [] {
      assert x + y == y;
    } else {
      var all, rest := x + y, x[1..];
      TrimLeftOver(rest, y);
      assert all[0] == x[0] && all[1..] == rest + y;
      BlankHead(x);
      if x[0] in BLANK {
        assert TrimLeft(all, BLANK) == TrimLeft(rest + y, BLANK);
        assert TrimLeft(x, BLANK) == TrimLeft(rest, BLANK);
      }
    }
  }

  lemma {:induction false} TrimRightOver(x: string, y: string)
    ensures TrimRight(x + y, BLANK) == if Blank(y) then TrimRight(x, BLANK) else x + TrimRight(y, BLANK)
    ensures Blank(y) <==> TrimRight(y, BLANK) == ""
  {
    if y == [] {
      assert x + y == x;
    } else {
      var front := y[..|y| - 1];
      TrimRightOver(x, front);
      assert (x + y)[..|x + y| - 1] == x + front;
      assert Blank(y) <==> y[|y| - 1] in BLANK && Blank(front);
    }
  }

  lemma TrimLeftIdle(s: string)
    requires s != [] ==> s[0] !in BLANK
    ensures TrimLeft(s, BLANK) == s
  {}

  // ---------------------------------------------------------------- unfolding

  /** Unfolding copies a line up to the break that ends it. */
  lemma {:induction false} UnfoldLine(s: string, rest: string)
    requires OneLine(s)
    requires rest == "" || rest[0] == '\n' || (|rest| > 1 && rest[0] == '\r' && rest[1] == '\n')
    ensures Unfold(s + rest) == s + Unfold(rest)
  {
    if s == [] {
      assert s + rest == rest;
    } else {
      UnfoldLine(s[1..], rest);
      var all := s + rest;
      assert all[0] == s[0] && all[1..] == s[1..] + rest;
      assert |s| > 1 ==> s[1..][0] == s[1];
    }
  }

  lemma UnfoldAfterBreak(brk: string, rest: string)
    requires LineBreak(brk)
    ensures Unfold(brk + rest) == " " + Unfold(TrimLeft(rest, BLANK))
  {
    var all := brk + rest;
    if brk == "\n" {
      assert all[1..] == rest;
    } else {
      assert all[0] == '\r' && all[1] == '\n' && all[2..] == rest;
    }
  }

  lemma TrimLeftFree(s: string)
    requires OneLine(s)
    ensures OneLine(TrimLeft(s, BLANK))
  {
    var t := TrimLeft(s, BLANK);
    TrimLeftParts(s, BLANK);
    assert forall i :: 0 <= i < |t| ==> t[i] == s[|s| - |t| + i];
  }

  /** Unfolding a folded value joins its lines, each without its leading blanks. */
  lemma {:induction false} UnfoldFolded(lines: seq<string>, brk: string, k: nat)
    requires LineBreak(brk) && k < |lines| && forall i :: 0 <= i < |lines| ==> OneLine(lines[i])
    ensures Unfold(TrimLeft(FoldText(lines, brk, k), BLANK)) == Joined(Starts(lines), k)
    decreases |lines| - k
  {
    if k + 1 < |lines| {
      UnfoldFolded(lines, brk, k + 1);
      UnfoldBroken(lines[k], brk, FoldText(lines, brk, k + 1));
    } else {
      TrimLeftFree(lines[k]);
      assert lines[k] + "" == lines[k];
      var start := TrimLeft(lines[k], BLANK);
      assert start + "" == start;
      UnfoldLine(start, "");
    }
  }

  lemma UnfoldBroken(line: string, brk: string, tail: string)
    requires LineBreak(brk) && OneLine(line)
    ensures Unfold(TrimLeft(line + (brk + tail), BLANK))
            == TrimLeft(line, BLANK) + (" " + Unfold(TrimLeft(tail, BLANK)))
  {
    var rest := brk + tail;
    TrimLeftFree(line);
    TrimLeftOver(line, rest);
    assert rest[0] == brk[0] && (brk == "\r\n" ==> rest[1] == '\n');
    TrimLeftIdle(rest);
    if Blank(line) {
      assert TrimLeft(line, BLANK) + rest == rest;
    }
    UnfoldLine(TrimLeft(line, BLANK), rest);
    UnfoldAfterBreak(brk, tail);
  }

  // -------------------------------------------------------------- equivalence

  /** Some line from k on has more than blanks. */
  predicate Ink(lines: seq<string>, k: nat) {
    exists i :: k <= i < |lines| && lines[i] != ""
  }

  /** Every line with ink after it ends without blanks. */
  predicate NoBlankBeforeFold(starts: seq<string>, k: nat) {
    forall i :: k <= i < |starts| && Ink(starts, i + 1) ==> TrimRight(starts[i], BLANK) == starts[i]
  }

  lemma {:induction false} NoInk(lines: seq<string>, k: nat)
    requires k < |lines|
    ensures !Ink(lines, k) ==> Blank(Joined(lines, k))
    decreases |lines| - k
  {
    if !Ink(lines, k) && k + 1 < |lines| {
      assert !Ink(lines, k + 1);
      NoInk(lines, k + 1);
    }
  }

  function Ends(starts: seq<string>): (r: seq<string>)
    ensures |r| == |starts|
  {
    seq(|starts|, i requires 0 <= i < |starts| => TrimRight(starts[i], BLANK))
  }

  /** Lines as trimmed on the left have no ink only if they are empty. */
  predicate LeftTrimmed(starts: seq<string>) {
    forall i :: 0 <= i < |starts| && starts[i] != "" ==> starts[i][0] !in BLANK
  }

  lemma EndsInk(starts: seq<string>, k: nat)
    requires LeftTrimmed(starts)
    ensures Ink(Ends(starts), k) <==> Ink(starts, k)
    ensures forall i :: 0 <= i < |starts| ==> (Ends(starts)[i] == "" <==> starts[i] == "")
  {
    forall i | 0 <= i < |starts|
      ensures Ends(starts)[i] == "" <==> starts[i] == ""
    {
      TrimRightOver("", starts[i]);
    }
  }

  /** The right-trimmed join: everything up to the last line with ink. */
  lemma TrimJoined(lines: seq<string>, k: nat)
    requires k < |lines|
    ensures TrimRight(Joined(lines, k), BLANK)
            == if k + 1 < |lines| && !Blank(Joined(lines, k + 1))
               then lines[k] + " " + TrimRight(Joined(lines, k + 1), BLANK)
               else TrimRight(lines[k], BLANK)
  {
    if k + 1 == |lines| {
      assert lines[k] + "" == lines[k];
    } else {
      var rest := Joined(lines, k + 1);
      TrimRightOver(lines[k], " " + rest);
      TrimRightOver(" ", rest);
      assert Blank(" " + rest) <==> Blank(rest);
      if !Blank(rest) {
        assert lines[k] + (" " + TrimRight(rest, BLANK)) == lines[k] + " " + TrimRight(rest, BLANK);
      }
    }
  }

  lemma {:induction false} InkJoined(lines: seq<string>, k: nat)
    requires k < |lines| && LeftTrimmed(lines)
    ensures Ink(lines, k) <==> !Blank(Joined(lines, k))
    decreases |lines| - k
  {
    NoInk(lines, k);
    if Ink(lines, k) {
      var i :| k <= i < |lines| && lines[i] != "";
      if i == k {
        assert Joined(lines, k)[0] == lines[k][0];
      } else {
        InkJoined(lines, k + 1);
        assert Ink(lines, k + 1);
        var rest := Joined(lines, k + 1);
        var j :| 0 <= j < |rest| && rest[j] !in BLANK;
        assert Joined(lines, k)[|lines[k]| + 1 + j] == rest[j];
      }
    }
  }

  /** Joining right-trimmed lines gives the same text, up to trailing blanks, exactly when no
      line with ink after it ends in a blank; otherwise it gives a shorter one. */
  lemma {:induction false} EndsJoined(starts: seq<string>, k: nat)
    requires k < |starts| && LeftTrimmed(starts)
    ensures var full, short := TrimRight(Joined(starts, k), BLANK), TrimRight(Joined(Ends(starts), k), BLANK);
            |short| <= |full| && (short == full <==> NoBlankBeforeFold(starts, k))
    decreases |starts| - k
  {
    var ends := Ends(starts);
    EndsInk(starts, k + 1);
    TrimJoined(starts, k);
    TrimJoined(ends, k);
    TrimTwice(starts[k]);
    if k + 1 < |starts| {
      LeftTrimmedEnds(starts);
      InkJoined(starts, k + 1);
      InkJoined(ends, k + 1);
      EndsJoined(starts, k + 1);
      assert NoBlankBeforeFold(starts, k)
          <==> NoBlankBeforeFold(starts, k + 1) && (Ink(starts, k + 1) ==> ends[k] == starts[k]);
      if Ink(starts, k + 1) {
        SplitEqual(ends[k], TrimRight(Joined(ends, k + 1), BLANK), starts[k], TrimRight(Joined(starts, k + 1), BLANK));
      } else {
        assert forall j :: k < j <= |starts| ==> !Ink(starts, j);
      }
    } else {
      assert !Ink(starts, k + 1);
    }
  }

  lemma TrimTwice(s: string)
    ensures TrimRight(TrimRight(s, BLANK), BLANK) == TrimRight(s, BLANK)
  {
    var t := TrimRight(s, BLANK);
    if t != [] {
      assert t[|t| - 1] !in BLANK;
    }
  }

  lemma LeftTrimmedEnds(starts: seq<string>)
    requires LeftTrimmed(starts)
    ensures LeftTrimmed(Ends(starts))
  {
    forall i | 0 <= i < |starts| && Ends(starts)[i] != ""
      ensures Ends(starts)[i][0] !in BLANK
    {
      assert Ends(starts)[i][0] == starts[i][0];
    }
  }

  lemma SplitEqual(a: string, x: string, b: string, y: string)
    requires |a| <= |b| && |x| <= |y| && a <= b
    ensures a + " " + x == b + " " + y <==> a == b && x == y
  {
    var s, t := a + " " + x, b + " " + y;
    if s == t {
      assert |a| == |b| && |x| == |y|;
      assert x == s[|a| + 1..] && y == t[|b| + 1..];
    }
  }

  /** A value that is folded neatly: text on its first line if there is any later, and no
      blanks before a fold that text follows. */
  predicate Neat(lines: seq<string>)
    requires lines != []
  {
    var starts := Starts(lines);
    (Ink(starts, 1) ==> starts[0] != "") && NoBlankBeforeFold(starts, 0)
  }

  /** How a reader that trims and joins continuation lines delivers the value. */
  function ReadBack(lines: seq<string>): string
    requires lines != []
  {
    TrimLeft(Joined(Trims(lines), 0), BLANK)
  }

  lemma {:induction false} JoinedFree(lines: seq<string>, k: nat)
    requires k < |lines| && forall i :: 0 <= i < |lines| ==> OneLine(lines[i])
    ensures OneLine(Joined(lines, k))
    decreases |lines| - k
  {
    if k + 1 < |lines| {
      JoinedFree(lines, k + 1);
    }
  }

  lemma NormalizeOneLine(s: string)
    requires OneLine(s)
    ensures Normalize(s) == Trim(s)
  {
    TrimLeftFree(s);
    var t := TrimLeft(s, BLANK);
    assert t + "" == t;
    UnfoldLine(t, "");
  }

  /** The value read back is equivalent to the one written exactly when it is folded neatly. */
  lemma ReadBackSameExactly(lines: seq<string>, brk: string)
    requires LineBreak(brk) && Foldable(lines)
    ensures Normalize(FoldText(lines, brk, 0)) == Normalize(ReadBack(lines)) <==> Neat(lines)
  {
    var starts := Starts(lines);
    assert Ends(starts) == Trims(lines);
    UnfoldFolded(lines, brk, 0);
    ReadBackFree(lines);
    NormalizeOneLine(ReadBack(lines));
    TrimLeftIdle(TrimLeft(Joined(Ends(starts), 0), BLANK));
    StartsSameExactly(starts);
  }

  /** Not every value is: one whose first line is empty, as when a long value is folded right
      after the name, differs from itself read back. */
  lemma FoldedBeforeText()
    ensures Foldable(["", " x"]) && !Neat(["", " x"])
    ensures Normalize(FoldText(["", " x"], "\r\n", 0)) != Normalize(ReadBack(["", " x"]))
  {
    var lines := ["", " x"];
    assert TrimLeft(" x", BLANK) == "x" by {
      assert " x"[1..] == "x";
    }
    assert Starts(lines)[0] == "" && Starts(lines)[1] == "x";
    ReadBackSameExactly(lines, "\r\n");
  }

  lemma StartsSameExactly(starts: seq<string>)
    requires starts != [] && LeftTrimmed(starts)
    ensures TrimRight(Joined(starts, 0), BLANK) == TrimRight(TrimLeft(Joined(Ends(starts), 0), BLANK), BLANK)
            <==> (Ink(starts, 1) ==> starts[0] != "") && NoBlankBeforeFold(starts, 0)
  {
    var read := Joined(Ends(starts), 0);
    if starts[0] != "" {
      LeftTrimmedEnds(starts);
      EndsInk(starts, 0);
      assert read[0] == Ends(starts)[0][0];
      TrimLeftIdle(read);
      EndsJoined(starts, 0);
    } else if Ink(starts, 1) {
      LeadingFold(starts, read);
    } else {
      NoInkAtAll(starts);
    }
  }

  lemma NoInkAtAll(starts: seq<string>)
    requires starts != [] && LeftTrimmed(starts) && starts[0] == "" && !Ink(starts, 1)
    ensures NoBlankBeforeFold(starts, 0)
    ensures TrimRight(Joined(starts, 0), BLANK) == ""
    ensures TrimLeft(Joined(Ends(starts), 0), BLANK) == ""
  {
    var full, read := Joined(starts, 0), Joined(Ends(starts), 0);
    assert !Ink(starts, 0);
    EndsInk(starts, 0);
    NoInk(starts, 0);
    NoInk(Ends(starts), 0);
    TrimRightOver("", full);
    TrimLeftOver(read, "");
    assert forall j :: 0 < j <= |starts| ==> !Ink(starts, j);
  }

  lemma ReadBackFree(lines: seq<string>)
    requires Foldable(lines)
    ensures OneLine(ReadBack(lines))
  {
    forall i | 0 <= i < |lines|
      ensures OneLine(Trims(lines)[i])
    {
      TrimLeftFree(lines[i]);
      var t := TrimLeft(lines[i], BLANK);
      assert forall j :: 0 <= j < |Trim(lines[i])| ==> Trim(lines[i])[j] == t[j];
    }
    JoinedFree(Trims(lines), 0);
    TrimLeftFree(Joined(Trims(lines), 0));
  }

  /** A value whose text starts on a continuation line keeps a space in front when it is
      normalized, while the value read back has none. */
  lemma LeadingFold(starts: seq<string>, read: string)
    requires |starts| > 1 && LeftTrimmed(starts) && starts[0] == "" && Ink(starts, 1)
    ensures TrimRight(Joined(starts, 0), BLANK) != TrimRight(TrimLeft(read, BLANK), BLANK)
  {
    InkJoined(starts, 1);
    TrimJoined(starts, 0);
    var full := TrimRight(Joined(starts, 0), BLANK);
    assert full[0] == ' ';
    var t := TrimLeft(read, BLANK);
    var short := TrimRight(t, BLANK);
    if short != [] {
      assert short[0] == t[0] && t[0] !in BLANK;
    }
  }
}
