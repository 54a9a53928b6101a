/** Strings shared by the models: decimal numerals, separator framing and splitting. */
module Text {

  datatype Option<+T> = None | Some(value: T)

  /** No occurrence of the separator c in s. */
  predicate Free(s: string, c: char) {
    forall i :: 0 <= i < |s| ==> s[i] != c
  }

  /** Downward induction from n to k. */
  lemma {:induction false} Descend(p: nat -> bool, n: nat, k: nat)
    requires k <= n && p(n)
    requires forall i: nat :: i < n && p(i + 1) ==> p(i)
    ensures p(k)
    decreases n - k
  {
    if k < n {
      Descend(p, n, k + 1);
    }
  }

  /** Induction up to k. */
  lemma {:induction false} Ascend(p: nat -> bool, k: nat)
    requires p(0)
    requires forall i: nat :: i < k && p(i) ==> p(i + 1)
    ensures p(k)
  {
    if k > 0 {
      Ascend(p, k - 1);
      assert p(k - 1);
    }
  }

  // ---------------------------------------------------------------- decimals

  function Digit(d: nat): (c: char)
    requires d < 10
    ensures '0' <= c <= '9'
  {
    ('0' as int + d) as char
  }

  /** The decimal numeral of n, as strconv.Itoa and %d print it. */
  function Decimal(n: nat): (s: string)
    ensures |s| > 0
    ensures forall i :: 0 <= i < |s| ==> '0' <= s[i] <= '9'
  {
    if n < 10 then [Digit(n)] else Decimal(n / 10) + [Digit(n % 10)]
  }

  /** The number that a numeral denotes, digit by digit. */
  function Denoted(s: string): nat
    requires forall i :: 0 <= i < |s| ==> '0' <= s[i] <= '9'
  {
    if s == "" then 0 else 10 * Denoted(s[..|s| - 1]) + (s[|s| - 1] as int - '0' as int)
  }

  /** The numeral of n denotes n, without leading zeros. */
  lemma {:induction false} DecimalDenotes(n: nat)
    ensures Denoted(Decimal(n)) == n && (n > 0 ==> Decimal(n)[0] != '0')
  {
    var s := Decimal(n);
    if n >= 10 {
      DecimalDenotes(n / 10);
      assert s[..|s| - 1] == Decimal(n / 10);
    } else {
      assert s[..0] == "";
    }
  }

  function DecimalInt(n: int): (s: string)
    ensures |s| > 0
    ensures forall i :: 0 <= i < |s| ==> s[i] == '-' || '0' <= s[i] <= '9'
  {
    if n < 0 then "-" + Decimal(-n) else Decimal(n)
  }

  lemma {:induction false} DecimalInjective(m: nat, n: nat)
    requires Decimal(m) == Decimal(n)
    ensures m == n
  {
    var s, t := Decimal(m), Decimal(n);
    if m < 10 && n < 10 {
      assert s[0] == t[0];
    } else if m >= 10 && n >= 10 {
      assert s[|s| - 1] == t[|t| - 1];
      assert s[..|s| - 1] == Decimal(m / 10);
      assert t[..|t| - 1] == Decimal(n / 10);
      DecimalInjective(m / 10, n / 10);
    } else {
      assert false;
    }
  }

  lemma DecimalIntInjective(m: int, n: int)
    requires DecimalInt(m) == DecimalInt(n)
    ensures m == n
  {
    var s, t := DecimalInt(m), DecimalInt(n);
    assert s[0] == t[0];
    if m < 0 && n < 0 {
      assert s[1..] == Decimal(-m);
      assert t[1..] == Decimal(-n);
      DecimalInjective(-m, -n);
    } else if m >= 0 && n >= 0 {
      DecimalInjective(m, n);
    } else {
      assert false;
    }
  }

  // ----------------------------------------------------------------- framing

  /** A separator that a and b do not contain tells where they end. */
  lemma FirstSeparator(a: string, x: string, b: string, y: string, c: char)
    requires Free(a, c) && Free(b, c)
    requires a + [c] + x == b + [c] + y
    ensures a == b && x == y
  {
    var s, t := a + [c] + x, b + [c] + y;
    assert s[|a|] == c && t[|b|] == c;
    if |a| < |b| {
      assert false;
    } else if |b| < |a| {
      assert false;
    } else {
      assert a == s[..|a|] == t[..|b|] == b;
      assert x == s[|a| + 1..] == t[|b| + 1..] == y;
    }
  }

  /** The fields joined by the separator c. */
  function Join(fields: seq<string>, c: char): string
    requires |fields| > 0
  {
    if |fields| == 1 then fields[0] else fields[0] + [c] + Join(fields[1..], c)
  }

  lemma JoinFirst(fields: seq<string>, c: char)
    requires fields != []
    ensures Join(fields, c) == if |fields| == 1 then fields[0] else fields[0] + [c] + Join(fields[1..], c)
  {}

  /** Equal joins agree on every leading field that is free of the separator, and on the
      unsplit rest. */
  lemma {:induction false} JoinDetermines(f: seq<string>, g: seq<string>, k: nat, c: char)
    requires k < |f| == |g|
    requires forall i :: 0 <= i < k ==> Free(f[i], c) && Free(g[i], c)
    requires Join(f, c) == Join(g, c)
    ensures f[..k] == g[..k]
    ensures Join(f[k..], c) == Join(g[k..], c)
  {
    if k == 0 {
      assert f[0..] == f && g[0..] == g;
    } else {
      FirstSeparator(f[0], Join(f[1..], c), g[0], Join(g[1..], c), c);
      JoinDetermines(f[1..], g[1..], k - 1, c);
      assert f[1..][k - 1..] == f[k..] && g[1..][k - 1..] == g[k..];
      assert f[..k] == [f[0]] + f[1..][..k - 1];
      assert g[..k] == [g[0]] + g[1..][..k - 1];
    }
  }

  /** A join taken apart before field k. */
  lemma {:induction false} JoinAt(fields: seq<string>, k: nat, c: char)
    requires 0 < k < |fields|
    ensures Join(fields, c) == Join(fields[..k], c) + [c] + Join(fields[k..], c)
  {
    if k > 1 {
      JoinAt(fields[1..], k - 1, c);
      assert fields[1..][..k - 1] == fields[..k][1..] && fields[1..][k - 1..] == fields[k..];
    }
  }

  // --------------------------------------------------------------- splitting

  /** strings.Split(s, sep) for a one-character separator. */
  function Split(s: string, c: char): (r: seq<string>)
    ensures |r| > 0
  {
    if s == [] then [[]]
    else if s[0] == c then [[]] + Split(s[1..], c)
    else
      var rest := Split(s[1..], c);
      rest[0 := [s[0]] + rest[0]]
  }

  /** Splitting is local: what stands left of a separator cannot change the fields to its
      right. */
  lemma {:induction false} SplitConcat(p: string, s: string, c: char)
    ensures Split(p + [c] + s, c) == Split(p, c) + Split(s, c)
  {
    if p == [] {
      assert p + [c] + s == [c] + s;
      assert ([c] + s)[1..] == s;
    } else {
      SplitConcat(p[1..], s, c);
      var t := p + [c] + s;
      assert t[0] == p[0] && t[1..] == p[1..] + [c] + s;
      SplitHead(t, Split(p[1..], c), Split(s, c), c);
    }
  }

  lemma SplitHead(t: string, rest: seq<string>, tail: seq<string>, c: char)
    requires t != [] && rest != [] && Split(t[1..], c) == rest + tail
    ensures Split(t, c) == (if t[0] == c then [[]] + rest else rest[0 := [t[0]] + rest[0]]) + tail
  {
    if t[0] == c {
      assert [[]] + (rest + tail) == ([[]] + rest) + tail;
    }
  }

  /** Text splits into itself alone exactly if it is free of the separator. */
  lemma {:induction false} SplitOne(s: string, c: char)
    ensures |Split(s, c)| == 1 <==> Free(s, c)
    ensures Free(s, c) ==> Split(s, c) == [s]
  {
    if s != [] {
      SplitOne(s[1..], c);
      assert [s[0]] + s[1..] == s;
      assert Free(s, c) <==> s[0] != c && Free(s[1..], c) by {
        assert forall i :: 1 <= i < |s| ==> s[i] == s[1..][i - 1];
      }
    }
  }

  /** A cut set for trimming: blanks and tabs, or the wider ASCII white space. */
  function TrimLeft(s: string, cut: set<char>): (r: string)
    ensures |r| <= |s|
    ensures r == [] || r[0] !in cut
  {
    if s != [] && s[0] in cut then TrimLeft(s[1..], cut) else s
  }

  /** What is trimmed off the left is in the cut set; the rest is a suffix. */
  lemma {:induction false} TrimLeftParts(s: string, cut: set<char>)
    ensures var r := TrimLeft(s, cut);
            s[|s| - |r|..] == r && forall i :: 0 <= i < |s| - |r| ==> s[i] in cut
  {
    if s != [] && s[0] in cut {
      TrimLeftParts(s[1..], cut);
      assert forall i :: 1 <= i < |s| ==> s[i] == s[1..][i - 1];
    }
  }

  function TrimRight(s: string, cut: set<char>): (r: string)
    ensures |r| <= |s|
    ensures r == [] || r[|r| - 1] !in cut
    ensures r <= s
  {
    if s != [] && s[|s| - 1] in cut then TrimRight(s[..|s| - 1], cut) else s
  }

  const SPACE: set<char> := {' ', '\t', '\n', '\r', '\U{0B}', '\U{0C}'}
  const BLANK: set<char> := {' ', '\t'}

  function TrimSpace(s: string): string {
    TrimRight(TrimLeft(s, SPACE), SPACE)
  }

  /** Blanks around a text do not show once it is trimmed. */
  lemma {:induction false} TrimLeftPadded(l: string, s: string, cut: set<char>)
    requires forall i :: 0 <= i < |l| ==> l[i] in cut
    ensures TrimLeft(l + s, cut) == TrimLeft(s, cut)
  {
    if l == "" {
      assert l + s == s;
    } else {
      TrimLeftPadded(l[1..], s, cut);
      assert (l + s)[1..] == l[1..] + s;
    }
  }

  lemma {:induction false} TrimRightPadded(s: string, r: string, cut: set<char>)
    requires forall i :: 0 <= i < |r| ==> r[i] in cut
    ensures TrimRight(s + r, cut) == TrimRight(s, cut)
  {
    if r == "" {
      assert s + r == s;
    } else {
      var front := r[..|r| - 1];
      TrimRightPadded(s, front, cut);
      assert (s + r)[..|s + r| - 1] == s + front;
    }
  }

  /** White space around a text is what trimming takes away. */
  lemma TrimSpacePadded(l: string, x: string, r: string)
    requires (forall i :: 0 <= i < |l| ==> l[i] in SPACE) && forall i :: 0 <= i < |r| ==> r[i] in SPACE
    requires x != "" ==> x[0] !in SPACE && x[|x| - 1] !in SPACE
    ensures TrimSpace(l + x + r) == x
  {
    TrimLeftPadded(l, x + r, SPACE);
    assert l + x + r == l + (x + r);
    if x == "" {
      TrimLeftPadded(r, "", SPACE);
      assert r + "" == r && x + r == r;
    } else {
      assert (x + r)[0] == x[0];
      TrimRightPadded(x, r, SPACE);
    }
  }

  /** Text in front of the first separator belongs to the first field. */
  lemma {:induction false} SplitPrefixed(l: string, s: string, c: char)
    requires Free(l, c)
    ensures Split(l + s, c) == Split(s, c)[0 := l + Split(s, c)[0]]
  {
    if l == "" {
      assert l + s == s && l + Split(s, c)[0] == Split(s, c)[0];
    } else {
      SplitPrefixed(l[1..], s, c);
      assert (l + s)[0] == l[0] && (l + s)[1..] == l[1..] + s;
      assert [l[0]] + (l[1..] + Split(s, c)[0]) == l + Split(s, c)[0];
    }
  }

  // ------------------------------------------------------------------- order

  /** Byte-wise lexicographic order, as Go compares strings. */
  predicate Less(a: string, b: string) {
    b != [] && (a == [] || a[0] < b[0] || (a[0] == b[0] && Less(a[1..], b[1..])))
  }

  lemma {:induction false} LessTotal(a: string, b: string)
    ensures Less(a, b) || a == b || Less(b, a)
    ensures !(Less(a, b) && Less(b, a))
    ensures !Less(a, a)
  {
    if a != [] && b != [] {
      LessTotal(a[1..], b[1..]);
      LessTotal(a[1..], a[1..]);
      if a[0] == b[0] && a[1..] == b[1..] {
        assert a == [a[0]] + a[1..] && b == [b[0]] + b[1..];
      }
    } else if a != [] {
      LessTotal(a[1..], a[1..]);
    }
  }

  lemma {:induction false} LessTransitive(a: string, b: string, c: string)
    requires Less(a, b) && Less(b, c)
    ensures Less(a, c)
  {
    if a != [] && a[0] == b[0] == c[0] {
      LessTransitive(a[1..], b[1..], c[1..]);
    }
  }
}
