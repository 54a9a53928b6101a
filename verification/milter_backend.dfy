/** The milter backend: collecting a message's headers and applying a rewritten message. */
module MilterBackend {
  import opened Text
  import opened Sorting
  import opened MilterHeaders
  import opened MilterReconcile
  import opened MilterNormalize

  /** Values that are equal once normalized. */
  predicate Unchanged(a: string, b: string) {
    Normalize(a) == Normalize(b)
  }

  function Identity(n: string): string { n }

  // ---------------------------------------------------------------- body guard

  const SNIFF_LENGTH := 512

  function Sniffed(body: string): string {
    body[..Min(SNIFF_LENGTH, |body|)]
  }

  /** line is what stands before the first line break. */
  predicate FirstLineOf(text: string, line: string) {
    && line <= text
    && (forall i :: 0 <= i < |line| ==> line[i] !in {'\r', '\n'})
    && (|line| < |text| ==> text[|line|] in {'\r', '\n'})
  }

  /** A field name of printable characters that ends at a colon; no boundary delimiter. */
  ghost predicate FieldLine(line: string) {
    && !("--" <= line)
    && exists c :: 0 < c < |line| && line[c] == ':' && NameUpTo(line, c)
  }

  predicate NameUpTo(line: string, c: nat)
    requires c <= |line|
  {
    forall i :: 0 <= i < c ==> '!' <= line[i] <= '~' && line[i] != ':'
  }

  /** Whether the text starts with a header line. */
  ghost predicate StartsWithField(body: string) {
    exists line :: FirstLineOf(Sniffed(body), line) && FieldLine(line)
  }

  lemma FirstLineUnique(text: string, a: string, b: string)
    requires FirstLineOf(text, a) && FirstLineOf(text, b)
    ensures a == b
  {
    if |a| < |b| {
      assert false;
    } else if |b| < |a| {
      assert false;
    }
  }

  /** Only the first 512 characters are looked at: text that begins with a name of printable
      characters and a colon starts with a field exactly if the colon is among them and the text is no
      boundary delimiter. */
  lemma FieldWithin(name: string, rest: string)
    requires name != "" && forall i :: 0 <= i < |name| ==> '!' <= name[i] <= '~' && name[i] != ':'
    ensures StartsWithField(name + ":" + rest) <==> |name| < 512 && !("--" <= name)
  {
    var body := name + ":" + rest;
    var peek := Sniffed(body);
    var line := FirstLine(peek);
    forall l | FirstLineOf(peek, l)
      ensures l == line
    {
      FirstLineUnique(peek, l, line);
    }
    NameLine(name, peek, line);
  }

  lemma NameLine(name: string, peek: string, line: string)
    requires name != "" && forall i :: 0 <= i < |name| ==> '!' <= name[i] <= '~' && name[i] != ':'
    requires FirstLineOf(peek, line)
    requires if |peek| > |name| then peek[..|name|] == name && peek[|name|] == ':' else peek <= name
    ensures FieldLine(line) <==> |name| < |peek| && !("--" <= name)
  {
    if |name| < |peek| {
      assert |line| > |name| && line[..|name|] == name;
      assert NameUpTo(line, |name|);
      assert "--" <= name <==> "--" <= line;
    }
  }

  /** What stands before the first line break. */
  function FirstLine(text: string): (line: string)
    ensures FirstLineOf(text, line)
  {
    if text == "" || text[0] in {'\r', '\n'} then "" else [text[0]] + FirstLine(text[1..])
  }

  method IndexAny(text: string, set1: set<char>) returns (n: nat)
    ensures n <= |text| && (n < |text| ==> text[n] in set1)
    ensures forall i :: 0 <= i < n ==> text[i] !in set1
  {
    n := 0;
    while n < |text| && text[n] !in set1
      invariant n <= |text|
      invariant forall i :: 0 <= i < n ==> text[i] !in set1
    {
      n := n + 1;
    }
  }

  method LooksLikeHeaderBlock(body: string) returns (r: bool)
    ensures r <==> StartsWithField(body)
  {
    var peek := Sniffed(body);
    var end := IndexAny(peek, {'\r', '\n'});
    var line := peek[..end];
    assert FirstLineOf(peek, line);
    assert StartsWithField(body) <==> FieldLine(line) by {
      forall l | FirstLineOf(peek, l)
        ensures l == line
      {
        FirstLineUnique(peek, l, line);
      }
    }
    if "--" <= line {
      return false;
    }
    var colon := IndexAny(line, {':'});
    assert forall c :: 0 < c < |line| && line[c] == ':' && NameUpTo(line, c) ==> c == colon;
    if colon == |line| || colon == 0 {
      return false;
    }
    var i := 0;
    while i < colon
      invariant i <= colon
      invariant NameUpTo(line, i)
    {
      if line[i] < '!' || line[i] > '~' {
        return false;
      }
      i := i + 1;
    }
    return true;
  }

  // ------------------------------------------------------------------ grouping

  lemma GroupStep(canon: Canon, m: Block, hs: seq<Header>, h: Header)
    requires Groups(canon, m, hs)
    ensures Groups(canon, m[canon(h.name) := Values(m, canon(h.name)) + [h.value]], hs + [h])
  {
    var next := m[canon(h.name) := Values(m, canon(h.name)) + [h.value]];
    forall n
      ensures Grouped(canon, next, hs + [h], n)
    {
      assert Grouped(canon, m, hs, n);
      ValuesAppend(canon, hs, h, n);
      if canon(h.name) != n {
        assert ValuesOf(canon, hs, n) + [] == ValuesOf(canon, hs, n);
      }
    }
  }

  /** Collects the values of each canonical name in order of appearance. */
  method GroupValues(canon: Canon, hs: seq<Header>) returns (m: Block)
    ensures Groups(canon, m, hs)
  {
    m := map[];
    forall n
      ensures Grouped(canon, m, [], n)
    {
      assert ValuesUpTo(canon, [], n, 0) == [];
    }
    assert hs[..0] == [];
    var i := 0;
    while i < |hs|
      invariant i <= |hs| && Groups(canon, m, hs[..i])
    {
      GroupStep(canon, m, hs[..i], hs[i]);
      assert hs[..i + 1] == hs[..i] + [hs[i]];
      m := m[canon(hs[i].name) := Values(m, canon(hs[i].name)) + [hs[i].value]];
      i := i + 1;
    }
    assert hs[..i] == hs;
  }

  lemma LessIsStrict()
    ensures StrictOrder(Less)
  {
    forall a: string, b: string
      ensures Less(a, b) ==> !Less(b, a)
      ensures a == b || Less(a, b) || Less(b, a)
    {
      LessTotal(a, b);
    }
    forall a: string, b: string, c: string | Less(a, b) && Less(b, c)
      ensures Less(a, c)
    {
      LessTransitive(a, b, c);
    }
  }

  lemma SortedNames(a: seq<string>)
    ensures Sorted(Sort(a, Less), Less)
    ensures forall n :: n in Sort(a, Less) <==> n in a
  {
    LessIsStrict();
    SortSorted(a, Less);
    forall n
      ensures n in Sort(a, Less) <==> n in a
    {
      assert n in a <==> n in multiset(a);
      assert n in Sort(a, Less) <==> n in multiset(Sort(a, Less));
    }
  }

  /** The names of either side, each once, in ascending order. */
  method HeaderNameUnion(orig: Block, want: Block) returns (names: seq<string>)
    ensures NoRepeats(names) && Covers(names, orig, want) && Sorted(names, Less)
  {
    var seen := orig.Keys + want.Keys;
    var all: seq<string> := [];
    while seen != {}
      invariant NoRepeats(all)
      invariant forall n :: n in all ==> n !in seen
      invariant forall n :: n in all || n in seen <==> n in orig || n in want
      decreases |seen|
    {
      var n :| n in seen;
      all := all + [n];
      seen := seen - {n};
    }
    names := Sort(all, Less);
    SortedNames(all);
    RearrangedNoRepeats(all, names);
  }
}
