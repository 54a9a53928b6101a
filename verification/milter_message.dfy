/** Messages as text: how the adapter writes the header block it collected, and how a header
    block is read from the front of a message. */
module MilterMessage {
  import opened Text
  import opened MilterFolding
  import opened MilterHeaders

  /** The library's grammar of header lines: which names and values it accepts, and the
      canonical form of a name. */
  datatype Grammar = Grammar(validName: string -> bool, validValue: string -> bool, canon: Canon)

  // ------------------------------------------------------------------- writing

  /** A header as it is written. */
  function Written(h: Header): string {
    h.name + ": " + h.value + "\r\n"
  }

  /** The header lines of the headers from k on. */
  function Lines(hs: seq<Header>, k: nat): string
    requires k <= |hs|
    decreases |hs| - k
  {
    if k == |hs| then "" else Written(hs[k]) + Lines(hs, k + 1)
  }

  /** The complete message: the collected headers, a blank line and the body; the body alone
      when there are no headers. */
  function Reassembled(hs: seq<Header>, body: string): string {
    if hs == [] then body else Lines(hs, 0) + "\r\n" + body
  }

  /** Every line feed ends a carriage return and line feed. */
  predicate OnlyCrlf(s: string) {
    forall i :: 0 <= i < |s| && s[i] == '\n' ==> i > 0 && s[i - 1] == '\r'
  }

  lemma CrlfTogether(a: string, b: string)
    requires OnlyCrlf(a) && OnlyCrlf(b)
    ensures OnlyCrlf(a + b)
  {}

  lemma {:induction false} CrlfLines(hs: seq<Header>, k: nat)
    requires k <= |hs| && forall i :: 0 <= i < |hs| ==> OnlyCrlf(hs[i].name) && OnlyCrlf(hs[i].value)
    ensures OnlyCrlf(Lines(hs, k))
    decreases |hs| - k
  {
    if k < |hs| {
      CrlfLines(hs, k + 1);
      CrlfTogether(hs[k].name, ": ");
      CrlfTogether(hs[k].name + ": ", hs[k].value);
      CrlfTogether(hs[k].name + ": " + hs[k].value, "\r\n");
      CrlfTogether(Written(hs[k]), Lines(hs, k + 1));
    }
  }

  /** What is handed on has the line endings of the wire if what came in has. */
  lemma CrlfKept(hs: seq<Header>, body: string)
    requires OnlyCrlf(body) && forall i :: 0 <= i < |hs| ==> OnlyCrlf(hs[i].name) && OnlyCrlf(hs[i].value)
    ensures OnlyCrlf(Reassembled(hs, body))
  {
    CrlfLines(hs, 0);
    CrlfTogether(Lines(hs, 0), "\r\n");
    CrlfTogether(Lines(hs, 0) + "\r\n", body);
  }

  // ------------------------------------------------------------------- reading

  function LineEnd(s: string): (n: nat)
    ensures n <= |s|
  {
    if s == [] || s[0] == '\n' then 0 else 1 + LineEnd(s[1..])
  }

  /** The first line without its break. */
  function Line(s: string): (r: string)
    ensures |r| <= |s|
  {
    var n := LineEnd(s);
    if 0 < n < |s| && s[n - 1] == '\r' then s[..n - 1] else s[..n]
  }

  function AfterLine(s: string): (r: string)
    ensures s != [] ==> |r| < |s|
    ensures s == [] ==> r == []
  {
    var n := LineEnd(s);
    if n < |s| then s[n + 1..] else []
  }

  /** Lines that start with a blank continue the one before, joined by a space. */
  function Continue(line: string, s: string): (string, string)
    decreases |s|
  {
    if s != [] && s[0] in BLANK then
      var t := TrimLeft(s[1..], BLANK);
      Continue(line + " " + Trim(Line(t)), AfterLine(t))
    else (line, s)
  }

  function IndexOf(s: string, c: char): (n: nat)
    ensures n <= |s|
  {
    if s == [] || s[0] == c then 0 else 1 + IndexOf(s[1..], c)
  }

  datatype ReadResult = Malformed | Read(fields: seq<Header>, rest: string)

  lemma ContinueShorter(line: string, s: string)
    ensures |Continue(line, s).1| <= |s|
    decreases |s|
  {
    if s != [] && s[0] in BLANK {
      var t := TrimLeft(s[1..], BLANK);
      ContinueShorter(line + " " + Trim(Line(t)), AfterLine(t));
    }
  }

  /** Fields up to the blank line or the end of the text, with canonical names. */
  function ReadFields(g: Grammar, s: string): ReadResult
    decreases |s|
  {
    if s == [] then Read([], [])
    else
      var line := Trim(Line(s));
      if line == "" then Read([], AfterLine(s))
      else
        var (field, next) := Continue(line, AfterLine(s));
        ContinueShorter(line, AfterLine(s));
        var colon := IndexOf(field, ':');
        if colon == |field| || !g.validName(field[..colon]) || !g.validValue(field[colon + 1..]) then Malformed
        else
          match ReadFields(g, next)
          case Malformed => Malformed
          case Read(fields, rest) =>
            Read([Header(g.canon(field[..colon]), TrimLeft(field[colon + 1..], BLANK))] + fields, rest)
  }

  function ReadHeaderBlock(g: Grammar, s: string): ReadResult {
    if s != [] && s[0] in BLANK then Malformed else ReadFields(g, s)
  }

  // --------------------------------------------------------------- round trip

  lemma {:induction false} LineEndAt(x: string, rest: string)
    requires Free(x, '\n')
    ensures LineEnd(x + "\n" + rest) == |x|
  {
    var all := x + "\n" + rest;
    if x == [] {
      assert all[0] == '\n';
    } else {
      assert all[0] == x[0] && all[1..] == x[1..] + "\n" + rest;
      LineEndAt(x[1..], rest);
    }
  }

  /** A line without breaks is read up to the break that ends it. */
  lemma LineIs(x: string, brk: string, rest: string)
    requires OneLine(x) && LineBreak(brk)
    ensures Line(x + brk + rest) == x && AfterLine(x + brk + rest) == rest
  {
    var all := x + brk + rest;
    if brk == "\n" {
      LineEndAt(x, rest);
      assert |x| > 0 ==> all[|x| - 1] == x[|x| - 1];
      assert all[..|x|] == x && all[|x| + 1..] == rest;
    } else {
      var y := x + "\r";
      assert all == y + "\n" + rest;
      LineEndAt(y, rest);
      assert all[|x|] == '\r' && all[..|x|] == x && all[|y| + 1..] == rest;
    }
  }

  /** Text that does not start with a blank, so it does not continue a line. */
  predicate StartsField(s: string) {
    s == [] || s[0] !in BLANK
  }

  lemma TrimLeftTwice(s: string)
    requires s != [] && s[0] in BLANK
    ensures TrimLeft(s[1..], BLANK) == TrimLeft(s, BLANK)
  {}

  /** One continuation line is taken off. */
  lemma ContinueLine(line: string, x: string, brk: string, rest: string)
    requires OneLine(x) && x != [] && x[0] in BLANK && LineBreak(brk)
    ensures Continue(line, x + brk + rest) == Continue(line + " " + Trim(x), rest)
  {
    var s := x + brk + rest;
    var start := TrimLeft(x, BLANK);
    assert s == x + (brk + rest) && s[0] == x[0];
    TrimLeftTwice(s);
    TrimLeftOver(x, brk + rest);
    TrimLeftIdle(brk + rest);
    assert start + (brk + rest) == start + brk + rest;
    assert Blank(x) ==> start + (brk + rest) == brk + rest;
    TrimLeftFree(x);
    LineIs(start, brk, rest);
    TrimLeftIdle(start);
  }

  /** The rest of a folded value from line k on, with what follows it. */
  function Rest(lines: seq<string>, brk: string, k: nat, tail: string): string
    requires k < |lines|
  {
    FoldText(lines, brk, k) + "\r\n" + tail
  }

  /** One line of a folded value is taken off when another follows. */
  lemma ContinueFold(line: string, lines: seq<string>, brk: string, k: nat, tail: string)
    requires Foldable(lines) && LineBreak(brk) && 1 <= k && k + 1 < |lines|
    ensures Continue(line, Rest(lines, brk, k, tail))
            == Continue(line + " " + Trim(lines[k]), Rest(lines, brk, k + 1, tail))
  {
    assert Rest(lines, brk, k, tail) == lines[k] + brk + Rest(lines, brk, k + 1, tail);
    ContinueLine(line, lines[k], brk, Rest(lines, brk, k + 1, tail));
  }

  lemma ContinueLast(line: string, lines: seq<string>, brk: string, tail: string)
    requires Foldable(lines) && |lines| > 1 && StartsField(tail)
    ensures var k := |lines| - 1;
            Continue(line, Rest(lines, brk, k, tail)) == (Extended(line, lines, k), tail)
  {
    var k := |lines| - 1;
    assert FoldText(lines, brk, k) == lines[k] && Joined(Trims(lines), k) == Trim(lines[k]);
    ContinueLine(line, lines[k], "\r\n", tail);
  }

  /** A line with the continuation lines from k on joined to it. */
  function Extended(line: string, lines: seq<string>, k: nat): string
    requires k < |lines|
  {
    line + " " + Joined(Trims(lines), k)
  }

  lemma ExtendedStep(line: string, lines: seq<string>, k: nat)
    requires k + 1 < |lines|
    ensures Extended(line + " " + Trim(lines[k]), lines, k + 1) == Extended(line, lines, k)
  {}

  /** All continuation lines of a folded value are taken off and joined. */
  ghost predicate Unfolds(lines: seq<string>, brk: string, k: nat, tail: string) {
    k < |lines| && forall line :: Continue(line, Rest(lines, brk, k, tail)) == (Extended(line, lines, k), tail)
  }

  lemma UnfoldsLine(lines: seq<string>, brk: string, k: nat, tail: string)
    requires Foldable(lines) && LineBreak(brk) && 1 <= k
    requires Unfolds(lines, brk, k + 1, tail)
    ensures Unfolds(lines, brk, k, tail)
  {
    forall line
      ensures Continue(line, Rest(lines, brk, k, tail)) == (Extended(line, lines, k), tail)
    {
      ContinueFold(line, lines, brk, k, tail);
      ExtendedStep(line, lines, k);
    }
  }

  lemma UnfoldsLast(lines: seq<string>, brk: string, tail: string)
    requires Foldable(lines) && |lines| > 1 && StartsField(tail)
    ensures Unfolds(lines, brk, |lines| - 1, tail)
  {
    var k := |lines| - 1;
    forall line
      ensures Continue(line, Rest(lines, brk, k, tail)) == (Extended(line, lines, k), tail)
    {
      ContinueLast(line, lines, brk, tail);
    }
  }

  lemma ContinueFolded(line: string, lines: seq<string>, brk: string, tail: string)
    requires Foldable(lines) && LineBreak(brk) && |lines| > 1 && StartsField(tail)
    ensures Continue(line, Rest(lines, brk, 1, tail)) == (Extended(line, lines, 1), tail)
  {
    UnfoldsLast(lines, brk, tail);
    forall i: nat | 1 <= i && i + 1 < |lines| && Unfolds(lines, brk, i + 1, tail)
      ensures Unfolds(lines, brk, i, tail)
    {
      UnfoldsLine(lines, brk, i, tail);
    }
    Descend((i: nat) => i == 0 || Unfolds(lines, brk, i, tail), |lines| - 1, 1);
  }

  predicate GoodName(n: string) {
    n != [] && OneLine(n) && Free(n, ':') && forall i :: 0 <= i < |n| ==> n[i] !in BLANK
  }

  /** The text of a field's first line, trimmed on the right. */
  function FirstText(x: string): string {
    if Blank(x) then "" else " " + TrimRight(x, BLANK)
  }

  lemma TrimFirstText(head: string, x: string)
    requires head != [] && head[|head| - 1] !in BLANK
    ensures TrimRight(head + (" " + x), BLANK) == head + FirstText(x)
  {
    TrimRightOver(head, " " + x);
    TrimRightOver(" ", x);
    BlankHead(" " + x);
    assert (" " + x)[1..] == x;
  }

  /** The first line of a field, trimmed: the name, the colon, and the text if there is any. */
  lemma TrimFirstLine(n: string, x: string)
    requires GoodName(n)
    ensures Trim(n + ": " + x) == n + ":" + FirstText(x)
  {
    var head := n + ":";
    assert n + ": " + x == head + (" " + x);
    TrimLeftIdle(head + (" " + x));
    TrimFirstText(head, x);
  }

  /** The text after the colon as the reader assembles it, before it trims the left. */
  function AfterColon(lines: seq<string>): string
    requires lines != []
  {
    FirstText(lines[0]) + if |lines| > 1 then " " + Joined(Trims(lines), 1) else ""
  }

  lemma AfterColonReadsBack(lines: seq<string>)
    requires lines != []
    ensures TrimLeft(AfterColon(lines), BLANK) == ReadBack(lines)
  {
    var x := lines[0];
    var more := if |lines| > 1 then " " + Joined(Trims(lines), 1) else "";
    assert Joined(Trims(lines), 0) == Trim(x) + more;
    TrimLeftOver(x, "");
    assert x + "" == x;
    if Blank(x) {
      assert Trim(x) == "";
      assert "" + more == more;
    } else {
      TrimBetween(x, more);
    }
  }

  lemma TrimBetween(x: string, more: string)
    requires !Blank(x)
    ensures TrimLeft(" " + TrimRight(x, BLANK) + more, BLANK) == TrimLeft(Trim(x) + more, BLANK)
  {
    var y := TrimRight(x, BLANK);
    TrimBoth(x);
    assert " " + y + more == " " + (y + more);
    TrimLeftOver(" ", y + more);
    TrimLeftOver(y, more);
    TrimLeftIdle(Trim(x) + more);
  }

  /** Trimming right, then left, of a text that is not blank. */
  lemma {:induction false} TrimBoth(x: string)
    requires !Blank(x)
    ensures TrimLeft(TrimRight(x, BLANK), BLANK) == Trim(x)
    ensures !Blank(TrimRight(x, BLANK)) && Trim(x) != "" && Trim(x)[0] !in BLANK
  {
    if x[0] in BLANK {
      BlankHead(x);
      TrimBoth(x[1..]);
      assert x == [x[0]] + x[1..];
      TrimRightOver([x[0]], x[1..]);
      var y := TrimRight(x, BLANK);
      assert y[1..] == TrimRight(x[1..], BLANK);
      BlankHead(y);
    } else {
      TrimLeftIdle(x);
      TrimRightOver("", x);
      var y := TrimRight(x, BLANK);
      assert y[0] == x[0];
    }
  }

  /** A header whose value is given by the lines it is folded into. */
  datatype Folded = Folded(name: string, lines: seq<string>, brk: string)

  predicate WellFormed(g: Grammar, f: Folded) {
    && GoodName(f.name) && g.validName(f.name)
    && LineBreak(f.brk) && Foldable(f.lines) && g.validValue(AfterColon(f.lines))
  }

  function HeaderOf(f: Folded): Header
    requires f.lines != []
  {
    Header(f.name, FoldText(f.lines, f.brk, 0))
  }

  ghost predicate AllWellFormed(g: Grammar, fs: seq<Folded>) {
    forall i :: 0 <= i < |fs| ==> WellFormed(g, fs[i])
  }

  function HeadersOf(fs: seq<Folded>): (hs: seq<Header>)
    requires forall i :: 0 <= i < |fs| ==> fs[i].lines != []
    ensures |hs| == |fs|
  {
    seq(|fs|, i requires 0 <= i < |fs| => HeaderOf(fs[i]))
  }

  /** What reading the header back gives. */
  function FieldOf(g: Grammar, f: Folded): Header
    requires f.lines != []
  {
    Header(g.canon(f.name), ReadBack(f.lines))
  }

  /** The first line of a written header, and what follows it. */
  lemma FirstLine(f: Folded, tail: string)
    requires GoodName(f.name) && LineBreak(f.brk) && Foldable(f.lines)
    ensures var s := Written(HeaderOf(f)) + tail;
            && s != []
            && Line(s) == f.name + ": " + f.lines[0]
            && AfterLine(s) == if |f.lines| > 1 then Rest(f.lines, f.brk, 1, tail) else tail
  {
    var s := Written(HeaderOf(f)) + tail;
    var first := f.name + ": " + f.lines[0];
    if |f.lines| > 1 {
      var rest := Rest(f.lines, f.brk, 1, tail);
      assert s == first + f.brk + rest;
      LineIs(first, f.brk, rest);
    } else {
      assert FoldText(f.lines, f.brk, 0) == f.lines[0];
      assert s == first + "\r\n" + tail;
      LineIs(first, "\r\n", tail);
    }
  }

  /** The lines of one field, joined: its name, the colon and the text. */
  function FieldText(f: Folded): string
    requires f.lines != []
  {
    f.name + ":" + AfterColon(f.lines)
  }

  lemma FieldTextIs(f: Folded)
    requires f.lines != []
    ensures var start := f.name + ":" + FirstText(f.lines[0]);
            FieldText(f) == if |f.lines| > 1 then Extended(start, f.lines, 1) else start
  {
    assert FirstText(f.lines[0]) + "" == FirstText(f.lines[0]);
  }

  /** One header in front of a text that starts a field or ends the block is read as one field. */
  lemma ReadOne(g: Grammar, f: Folded, tail: string)
    requires WellFormed(g, f) && StartsField(tail)
    ensures var s := Written(HeaderOf(f)) + tail;
            && s != [] && Trim(Line(s)) != ""
            && Continue(Trim(Line(s)), AfterLine(s)) == (FieldText(f), tail)
  {
    var start := f.name + ":" + FirstText(f.lines[0]);
    FirstLine(f, tail);
    TrimFirstLine(f.name, f.lines[0]);
    FieldTextIs(f);
    if |f.lines| > 1 {
      ContinueFolded(start, f.lines, f.brk, tail);
    } else {
      ContinueEnds(start, tail);
    }
  }

  lemma ContinueEnds(line: string, s: string)
    requires StartsField(s)
    ensures Continue(line, s) == (line, s)
  {}

  lemma {:induction false} ColonAt(n: string, rest: string)
    requires Free(n, ':')
    ensures IndexOf(n + ":" + rest, ':') == |n|
  {
    var all := n + ":" + rest;
    if n == [] {
      assert all[0] == ':';
    } else {
      assert all[0] == n[0] && all[1..] == n[1..] + ":" + rest;
      ColonAt(n[1..], rest);
    }
  }

  /** The fields the headers read back as. */
  function FieldsOf(g: Grammar, fs: seq<Folded>): (r: seq<Header>)
    requires forall i :: 0 <= i < |fs| ==> fs[i].lines != []
    ensures |r| == |fs|
  {
    seq(|fs|, i requires 0 <= i < |fs| => FieldOf(g, fs[i]))
  }

  lemma FieldsNext(g: Grammar, fs: seq<Folded>, k: nat)
    requires k < |fs| && forall i :: 0 <= i < |fs| ==> fs[i].lines != []
    ensures FieldsOf(g, fs)[k..] == [FieldOf(g, fs[k])] + FieldsOf(g, fs)[k + 1..]
  {}

  /** What the reader makes of a line "name:text". */
  lemma SplitField(n: string, text: string)
    requires Free(n, ':')
    ensures var field := n + ":" + text;
            var colon := IndexOf(field, ':');
            colon == |n| && field[..colon] == n && field[colon + 1..] == text
  {
    ColonAt(n, text);
  }

  /** The reader takes one written header off. */
  lemma ReadStep(g: Grammar, f: Folded, tail: string, fields: seq<Header>, rest: string)
    requires WellFormed(g, f) && StartsField(tail) && ReadFields(g, tail) == Read(fields, rest)
    ensures ReadFields(g, Written(HeaderOf(f)) + tail) == Read([FieldOf(g, f)] + fields, rest)
  {
    ReadOne(g, f, tail);
    SplitField(f.name, AfterColon(f.lines));
    AfterColonReadsBack(f.lines);
  }

  /** The headers from k on, the blank line and the body. */
  function Block(hs: seq<Header>, k: nat, body: string): string
    requires k <= |hs|
  {
    Lines(hs, k) + ("\r\n" + body)
  }

  lemma BlockStep(hs: seq<Header>, k: nat, body: string)
    requires k < |hs|
    ensures Block(hs, k, body) == Written(hs[k]) + Block(hs, k + 1, body)
  {}

  lemma BlockStartsField(g: Grammar, fs: seq<Folded>, k: nat, body: string)
    requires AllWellFormed(g, fs) && k <= |fs|
    ensures StartsField(Block(HeadersOf(fs), k, body))
  {
    if k < |fs| {
      assert WellFormed(g, fs[k]);
      BlockStep(HeadersOf(fs), k, body);
    }
  }

  /** The written headers from k on read back field by field, and the body follows untouched. */
  ghost predicate ReadsBack(g: Grammar, fs: seq<Folded>, k: nat, body: string) {
    && AllWellFormed(g, fs) && k <= |fs|
    && ReadFields(g, Block(HeadersOf(fs), k, body)) == Read(FieldsOf(g, fs)[k..], body)
  }

  lemma EmptyReadsBack(g: Grammar, fs: seq<Folded>, body: string)
    requires AllWellFormed(g, fs)
    ensures ReadsBack(g, fs, |fs|, body)
  {
    assert "" + ("\r\n" + body) == "" + "\r\n" + body;
    LineIs("", "\r\n", body);
  }

  /** The reader takes the header k off. */
  lemma HeaderReadsBack(g: Grammar, fs: seq<Folded>, k: nat, body: string)
    requires ReadsBack(g, fs, k + 1, body)
    ensures ReadsBack(g, fs, k, body)
  {
    var hs := HeadersOf(fs);
    FieldsNext(g, fs, k);
    BlockStartsField(g, fs, k + 1, body);
    assert WellFormed(g, fs[k]);
    BlockStep(hs, k, body);
    ReadStep(g, fs[k], Block(hs, k + 1, body), FieldsOf(g, fs)[k + 1..], body);
  }

  lemma AllReadBack(g: Grammar, fs: seq<Folded>, body: string)
    requires AllWellFormed(g, fs)
    ensures ReadsBack(g, fs, 0, body)
  {
    EmptyReadsBack(g, fs, body);
    forall i: nat | i < |fs| && ReadsBack(g, fs, i + 1, body)
      ensures ReadsBack(g, fs, i, body)
    {
      HeaderReadsBack(g, fs, i, body);
    }
    Descend((i: nat) => ReadsBack(g, fs, i, body), |fs|, 0);
  }

  /** Round trip: reading a reassembled message gives its fields and its body back. */
  lemma ReadReassembled(g: Grammar, fs: seq<Folded>, body: string)
    requires AllWellFormed(g, fs) && fs != []
    ensures ReadHeaderBlock(g, Reassembled(HeadersOf(fs), body)) == Read(FieldsOf(g, fs), body)
  {
    var hs, text := HeadersOf(fs), Block(HeadersOf(fs), 0, body);
    assert Reassembled(hs, body) == text by {
      assert Lines(hs, 0) + "\r\n" + body == Lines(hs, 0) + ("\r\n" + body);
    }
    assert ReadHeaderBlock(g, text) == ReadFields(g, text) by {
      BlockStartsField(g, fs, 0, body);
    }
    assert ReadFields(g, text) == Read(FieldsOf(g, fs), body) by {
      AllReadBack(g, fs, body);
    }
  }
}
