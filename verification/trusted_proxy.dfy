/** The client address behind trusted reverse proxies. */
module TrustedProxy {
  import opened Text

  /** How addresses are parsed and printed, and which of them are trusted proxies. An address is
      what parsing yields, IPv4-mapped ones taken as IPv4. */
  datatype Network<!A> = Network(parse: string -> Option<A>, trusted: A -> bool, show: A -> string)

  /** A request: its peer's host, and the values of the two forwarding headers, line by line. */
  datatype Request = Request(host: string, forwardedFor: seq<string>, realIP: seq<string>)

  /** A header's value is that of its first line. */
  function Get(lines: seq<string>): string {
    if lines == [] then "" else lines[0]
  }

  function Hops(value: string): (r: seq<string>)
    ensures |r| > 0
  {
    Split(value, ',')
  }

  function HopAddress<A>(net: Network<A>, hop: string): Option<A> {
    net.parse(TrimSpace(hop))
  }

  predicate IsProxy<A>(net: Network<A>, hop: string) {
    HopAddress(net, hop).Some? && net.trusted(HopAddress(net, hop).value)
  }

  /** Hop i is the last one that is not a trusted proxy; -1 if all are. */
  ghost predicate LastForeign<A>(net: Network<A>, hops: seq<string>, i: int) {
    && -1 <= i < |hops|
    && (i >= 0 ==> !IsProxy(net, hops[i]))
    && forall j :: i < j < |hops| ==> IsProxy(net, hops[j])
  }

  /** The address of that hop, if it has one. */
  function ForeignAddress<A>(net: Network<A>, hops: seq<string>, i: int): Option<string>
    requires -1 <= i < |hops|
  {
    if i < 0 then None
    else match HopAddress(net, hops[i])
      case None => None
      case Some(a) => Some(net.show(a))
  }

  method ParseHeaderAddr<A>(net: Network<A>, raw: string) returns (r: Option<string>)
    ensures r == HeaderAddress(net, raw)
  {
    var s := TrimSpace(raw);
    if s == "" {
      return None;
    }
    var a := net.parse(s);
    r := match a case None => None case Some(x) => Some(net.show(x));
  }

  function HeaderAddress<A>(net: Network<A>, raw: string): Option<string> {
    var s := TrimSpace(raw);
    if s == "" then None else match net.parse(s) case None => None case Some(x) => Some(net.show(x))
  }

  /** Walks the chain from the right, past the trusted proxies. */
  method ForwardedClientIP<A>(net: Network<A>, req: Request) returns (r: Option<string>)
    ensures Get(req.forwardedFor) == "" ==> r == HeaderAddress(net, Get(req.realIP))
    ensures Get(req.forwardedFor) != "" ==>
              exists i :: LastForeign(net, Hops(Get(req.forwardedFor)), i)
                          && r == ForeignAddress(net, Hops(Get(req.forwardedFor)), i)
  {
    var xff := Get(req.forwardedFor);
    if xff == "" {
      r := ParseHeaderAddr(net, Get(req.realIP));
      return;
    }
    var hops := Hops(xff);
    var i := |hops| - 1;
    while i >= 0
      invariant -1 <= i < |hops|
      invariant forall j :: i < j < |hops| ==> IsProxy(net, hops[j])
    {
      var a := net.parse(TrimSpace(hops[i]));
      if a.None? {
        assert LastForeign(net, hops, i);
        return None;
      }
      if !net.trusted(a.value) {
        assert LastForeign(net, hops, i);
        return Some(net.show(a.value));
      }
      i := i - 1;
    }
    assert LastForeign(net, hops, i);
    return None;
  }

  /** The address to throttle and to log: the peer's, unless the peer is a trusted proxy that
      reports a usable one. */
  method ClientIP<A>(net: Network<A>, anyTrusted: bool, req: Request) returns (ip: string)
    ensures ip == ClientAddress(net, anyTrusted, req)
  {
    if !anyTrusted {
      return req.host;
    }
    var peer := net.parse(req.host);
    if peer.None? {
      return req.host;
    }
    if !net.trusted(peer.value) {
      return req.host;
    }
    var forwarded := ForwardedClientIP(net, req);
    ip := if forwarded.Some? then forwarded.value else req.host;
    ForwardedIs(net, req, forwarded);
  }

  lemma ForwardedIs<A>(net: Network<A>, req: Request, r: Option<string>)
    requires Get(req.forwardedFor) == "" ==> r == HeaderAddress(net, Get(req.realIP))
    requires Get(req.forwardedFor) != "" ==>
               exists i :: LastForeign(net, Hops(Get(req.forwardedFor)), i)
                           && r == ForeignAddress(net, Hops(Get(req.forwardedFor)), i)
    ensures r == Forwarded(net, req)
  {
    if Get(req.forwardedFor) != "" {
      var hops := Hops(Get(req.forwardedFor));
      var i :| LastForeign(net, hops, i) && r == ForeignAddress(net, hops, i);
      LastForeignUnique(net, hops, i, LastFrom(net, hops, |hops| - 1));
    }
  }

  function LastFrom<A>(net: Network<A>, hops: seq<string>, i: int): (r: int)
    requires -1 <= i < |hops| && forall j :: i < j < |hops| ==> IsProxy(net, hops[j])
    ensures LastForeign(net, hops, r)
    decreases i + 1
  {
    if i < 0 || !IsProxy(net, hops[i]) then i else LastFrom(net, hops, i - 1)
  }

  lemma LastForeignUnique<A>(net: Network<A>, hops: seq<string>, i: int, j: int)
    requires LastForeign(net, hops, i) && LastForeign(net, hops, j)
    ensures i == j
  {}

  function Forwarded<A>(net: Network<A>, req: Request): Option<string> {
    if Get(req.forwardedFor) == "" then HeaderAddress(net, Get(req.realIP))
    else
      var hops := Hops(Get(req.forwardedFor));
      ForeignAddress(net, hops, LastFrom(net, hops, |hops| - 1))
  }

  predicate PeerTrusted<A>(net: Network<A>, anyTrusted: bool, host: string) {
    anyTrusted && net.parse(host).Some? && net.trusted(net.parse(host).value)
  }

  function ClientAddress<A>(net: Network<A>, anyTrusted: bool, req: Request): string {
    if !PeerTrusted(net, anyTrusted, req.host) then req.host
    else
      var f := Forwarded(net, req);
      if f.Some? then f.value else req.host
  }

  // ------------------------------------------------------------ noninterference

  /** No header value reads as an address other than the host. */
  ghost predicate OnlyReports<A>(net: Network<A>, host: string) {
    forall raw :: Reports(net, host, raw)
  }

  predicate Reports<A>(net: Network<A>, host: string, raw: string) {
    HeaderAddress(net, raw) == None || HeaderAddress(net, raw) == Some(host)
  }

  /** A peer's headers make no difference at all, for any values of them, exactly if it is not a
      trusted proxy (or there is no other address to report): every other peer is believed. */
  lemma HeadersIgnoredExactly<A>(net: Network<A>, anyTrusted: bool, host: string)
    requires net.parse("").None?
    ensures (forall req: Request :: req.host == host ==> ClientAddress(net, anyTrusted, req) == host)
            <==> !PeerTrusted(net, anyTrusted, host) || OnlyReports(net, host)
  {
    if PeerTrusted(net, anyTrusted, host) && OnlyReports(net, host) {
      forall req: Request | req.host == host
        ensures ClientAddress(net, anyTrusted, req) == host
      {
        ForwardedReports(net, req);
      }
    }
    if PeerTrusted(net, anyTrusted, host) && !OnlyReports(net, host) {
      var raw :| !Reports(net, host, raw);
      var req := Request(host, [], [raw]);
      assert Forwarded(net, req) == HeaderAddress(net, raw);
      assert ClientAddress(net, anyTrusted, req) != host;
    }
  }

  lemma ForwardedReports<A>(net: Network<A>, req: Request)
    requires net.parse("").None? && OnlyReports(net, req.host)
    ensures Forwarded(net, req) == None || Forwarded(net, req) == Some(req.host)
  {
    if Get(req.forwardedFor) == "" {
      assert Reports(net, req.host, Get(req.realIP));
    } else {
      var hops := Hops(Get(req.forwardedFor));
      var i := LastFrom(net, hops, |hops| - 1);
      if i >= 0 {
        assert Reports(net, req.host, hops[i]);
      }
    }
  }

  /** The last foreign hop of a chain does not change by what is put in front of the chain. */
  lemma LastForeignShifts<A>(net: Network<A>, front: seq<string>, hops: seq<string>, i: nat)
    requires LastForeign(net, hops, i)
    ensures LastForeign(net, front + hops, |front| + i)
    ensures ForeignAddress(net, front + hops, |front| + i) == ForeignAddress(net, hops, i)
  {
    var all := front + hops;
    forall j | |front| + i < j < |all|
      ensures IsProxy(net, all[j])
    {
      assert all[j] == hops[j - |front|];
    }
  }

  /** What the proxies appended decides: if their part of the chain has a hop that is not a
      trusted proxy, and the last such hop is a well-formed address, that address is the result
      for every prefix a client may have sent, well-formed or not. */
  lemma AppendedDecides<A>(net: Network<A>, req: Request, prefix: string, appended: string, i: nat)
    requires PeerTrusted(net, true, req.host)
    requires Get(req.forwardedFor) == prefix + "," + appended
    requires LastForeign(net, Hops(appended), i) && HopAddress(net, Hops(appended)[i]).Some?
    ensures Some(ClientAddress(net, true, req)) == ForeignAddress(net, Hops(appended), i)
  {
    var value := Get(req.forwardedFor);
    SplitConcat(prefix, appended, ',');
    assert prefix + [','] + appended == value;
    LastForeignShifts(net, Hops(prefix), Hops(appended), i);
    LastForeignUnique(net, Hops(value), |Hops(prefix)| + i, LastFrom(net, Hops(value), |Hops(value)| - 1));
  }

  /** If that hop is malformed, the peer's own address is used, again for every prefix. */
  lemma MalformedFallsBack<A>(net: Network<A>, req: Request, prefix: string, appended: string, i: nat)
    requires PeerTrusted(net, true, req.host)
    requires Get(req.forwardedFor) == prefix + "," + appended
    requires LastForeign(net, Hops(appended), i) && HopAddress(net, Hops(appended)[i]).None?
    ensures ClientAddress(net, true, req) == req.host
  {
    var value := Get(req.forwardedFor);
    SplitConcat(prefix, appended, ',');
    assert prefix + [','] + appended == value;
    LastForeignShifts(net, Hops(prefix), Hops(appended), i);
    LastForeignUnique(net, Hops(value), |Hops(prefix)| + i, LastFrom(net, Hops(value), |Hops(value)| - 1));
  }

  /** A line without a comma is one hop. */
  lemma OneHop(line: string)
    requires Free(line, ',')
    ensures Hops(line) == [line]
  {
    SplitOne(line, ',');
  }

  /** Only the first line of the header counts: an address that a client sends in a line of its own,
      in front of the lines the proxies add, is believed whatever those say. */
  lemma FirstLineDecides<A>(net: Network<A>, req: Request, sent: string, more: seq<string>, a: A)
    requires PeerTrusted(net, true, req.host) && req.forwardedFor == [sent] + more
    requires sent != "" && Free(sent, ',')
    requires HopAddress(net, sent) == Some(a) && !net.trusted(a)
    ensures ClientAddress(net, true, req) == net.show(a)
  {
    OneHop(sent);
    assert Hops(sent)[0] == sent;
    assert LastForeign(net, Hops(sent), 0);
    LastForeignUnique(net, Hops(sent), 0, LastFrom(net, Hops(sent), 0));
  }

  /** Hop k is malformed, and only trusted proxies stand behind it. */
  ghost predicate MalformedLast<A>(net: Network<A>, hops: seq<string>, k: nat) {
    && k < |hops| && HopAddress(net, hops[k]).None?
    && forall j :: k < j < |hops| ==> IsProxy(net, hops[j])
  }

  /** If some hop of the first line is malformed, the header counts for nothing exactly if the last
      hop that is not a trusted proxy is malformed: in front of a well-formed one it is not
      noticed. */
  lemma MalformedNoticedExactly<A>(net: Network<A>, req: Request, i: nat)
    requires Get(req.forwardedFor) != ""
    requires var hops := Hops(Get(req.forwardedFor)); i < |hops| && HopAddress(net, hops[i]).None?
    ensures Forwarded(net, req) == None <==> exists k :: MalformedLast(net, Hops(Get(req.forwardedFor)), k)
  {
    var hops := Hops(Get(req.forwardedFor));
    var last := LastFrom(net, hops, |hops| - 1);
    assert !IsProxy(net, hops[i]);
    assert last >= 0;
    if k: nat :| MalformedLast(net, hops, k) {
      assert LastForeign(net, hops, k);
      LastForeignUnique(net, hops, k, last);
    }
    if HopAddress(net, hops[last]).None? {
      assert MalformedLast(net, hops, last);
    }
  }

  predicate WhiteSpace(s: string) {
    forall i :: 0 <= i < |s| ==> s[i] in " \t\r\n"
  }

  /** A hop is read without the blanks around it. */
  lemma HopRead<A>(net: Network<A>, l: string, x: string, r: string)
    requires WhiteSpace(l) && WhiteSpace(r)
    requires x != "" ==> x[0] !in SPACE && x[|x| - 1] !in SPACE
    ensures HopAddress(net, l + x + r) == net.parse(x)
  {
    TrimSpacePadded(l, x, r);
  }

  /** Blanks behind a comma do not matter, wherever it stands in the chain. */
  lemma BlankAfterComma<A>(net: Network<A>, front: string, blanks: string, back: string, more: seq<string>,
                           realIP: seq<string>)
    requires WhiteSpace(blanks)
    ensures Forwarded(net, Request("", [front + "," + (blanks + back)] + more, realIP))
            == Forwarded(net, Request("", [front + "," + back] + more, realIP))
  {
    HopsSpaced(front, blanks, back);
    HeadSpaced(net, Hops(front), blanks, Hops(back));
    assert Get([front + "," + back] + more) == front + "," + back;
    assert Get([front + "," + (blanks + back)] + more) == front + "," + (blanks + back);
  }

  lemma HeadSpaced<A>(net: Network<A>, front: seq<string>, blanks: string, back: seq<string>)
    requires WhiteSpace(blanks) && back != []
    ensures var spaced, plain := front + back[0 := blanks + back[0]], front + back;
            ForeignAddress(net, spaced, LastFrom(net, spaced, |spaced| - 1))
            == ForeignAddress(net, plain, LastFrom(net, plain, |plain| - 1))
  {
    TrimLeftPadded(blanks, back[0], SPACE);
    SameForeign(net, front + back[0 := blanks + back[0]], front + back);
  }

  lemma HopsSpaced(front: string, blanks: string, back: string)
    requires Free(blanks, ',')
    ensures Hops(front + "," + back) == Hops(front) + Hops(back)
    ensures Hops(front + "," + (blanks + back)) == Hops(front) + Hops(back)[0 := blanks + Hops(back)[0]]
  {
    SplitConcat(front, blanks + back, ',');
    SplitConcat(front, back, ',');
    SplitPrefixed(blanks, back, ',');
    assert front + [','] + (blanks + back) == front + "," + (blanks + back);
    assert front + [','] + back == front + "," + back;
  }

  /** Chains whose hops read as the same addresses report the same. */
  lemma SameForeign<A>(net: Network<A>, hops: seq<string>, other: seq<string>)
    requires |hops| == |other| && forall j :: 0 <= j < |hops| ==> HopAddress(net, hops[j]) == HopAddress(net, other[j])
    ensures var i, k := LastFrom(net, hops, |hops| - 1), LastFrom(net, other, |other| - 1);
            i == k && ForeignAddress(net, hops, i) == ForeignAddress(net, other, k)
  {
    var i := LastFrom(net, hops, |hops| - 1);
    assert LastForeign(net, other, i);
    LastForeignUnique(net, other, i, LastFrom(net, other, |other| - 1));
  }
}
