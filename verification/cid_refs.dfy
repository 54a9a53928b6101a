/** Which Content-IDs a message's HTML bodies embed: the budgeted collection and the question
    it answers about an inline asset. */
module CidRefs {
  import opened MimeTree
  import opened MimePaths
  import opened CidScan

  const MAX_PART_SCAN := 1048576
  const MAX_TOTAL_SCAN := 4194304
  const MAX_TOTAL_TOKENS := 65536

  /** A leaf's captured content. */
  datatype Body =
    | Content(text: string)
    | OpenFails
    | ReadFails

  /** What is known of one HTML body: the Content-IDs found, and whether more may be there. */
  datatype HtmlRefs = HtmlRefs(path: string, ids: set<string>, truncated: bool)

  predicate IsHtmlBody(att: Attachment) {
    att.info.mediaType == "text/html" && att.info.inline
  }

  /** Scans at most limit characters. */
  method ScanReferences(decode: Decoder, text: string, limit: nat)
    returns (ids: set<string>, scanned: nat, truncated: bool)
    ensures truncated <==> |text| > limit
    ensures scanned == if truncated then limit else |text|
    ensures ids == ContentIDs(decode, text[..scanned])
  {
    var data := text[..if |text| > limit + 1 then limit + 1 else |text|];
    truncated := |data| > limit;
    if truncated {
      data := data[..limit];
    }
    scanned := |data|;
    assert data == text[..scanned];
    ids := ExtractTokens(decode, data);
  }

  /** What is recorded for one body is safe: complete, or marked as truncated. */
  predicate Sound(decode: Decoder, h: HtmlRefs, att: Attachment, body: Body) {
    && h.path == att.path
    && (!h.truncated ==> body.Content? && h.ids == ContentIDs(decode, body.text))
  }

  /** How many of the first k parts are HTML bodies. */
  function HtmlCount(atts: seq<Attachment>, k: nat): nat
    requires k <= |atts|
  {
    if k == 0 then 0 else HtmlCount(atts, k - 1) + if IsHtmlBody(atts[k - 1]) then 1 else 0
  }

  /** One record per HTML body, in order. */
  ghost predicate Recorded(decode: Decoder, hs: seq<HtmlRefs>, atts: seq<Attachment>, bodies: seq<Body>, k: nat)
    requires k <= |atts| == |bodies|
  {
    && |hs| == HtmlCount(atts, k)
    && forall i :: 0 <= i < k && IsHtmlBody(atts[i]) ==> RecordFor(decode, hs, atts, bodies, i)
  }

  predicate RecordFor(decode: Decoder, hs: seq<HtmlRefs>, atts: seq<Attachment>, bodies: seq<Body>, i: nat)
    requires i < |atts| == |bodies|
  {
    HtmlCount(atts, i) < |hs| && Sound(decode, hs[HtmlCount(atts, i)], atts[i], bodies[i])
  }

  function Tokens(hs: seq<HtmlRefs>, k: nat): nat
    requires k <= |hs|
  {
    if k == 0 then 0 else Tokens(hs, k - 1) + |hs[k - 1].ids|
  }

  lemma {:induction false} CountGrows(atts: seq<Attachment>, i: nat, k: nat)
    requires i <= k <= |atts|
    ensures HtmlCount(atts, i) <= HtmlCount(atts, k)
    ensures i < k && IsHtmlBody(atts[i]) ==> HtmlCount(atts, i) < HtmlCount(atts, k)
  {
    if i < k {
      CountGrows(atts, i, k - 1);
    }
  }

  /** One more record. */
  lemma RecordedNext(decode: Decoder, hs: seq<HtmlRefs>, atts: seq<Attachment>, bodies: seq<Body>, k: nat, h: HtmlRefs)
    requires k < |atts| == |bodies| && Recorded(decode, hs, atts, bodies, k)
    requires IsHtmlBody(atts[k]) && Sound(decode, h, atts[k], bodies[k])
    ensures Recorded(decode, hs + [h], atts, bodies, k + 1)
  {
    forall i | 0 <= i < k + 1 && IsHtmlBody(atts[i])
      ensures RecordFor(decode, hs + [h], atts, bodies, i)
    {
      if i < k {
        CountGrows(atts, i, k);
        assert RecordFor(decode, hs, atts, bodies, i);
      }
    }
  }

  lemma RecordedSkip(decode: Decoder, hs: seq<HtmlRefs>, atts: seq<Attachment>, bodies: seq<Body>, k: nat)
    requires k < |atts| == |bodies| && Recorded(decode, hs, atts, bodies, k) && !IsHtmlBody(atts[k])
    ensures Recorded(decode, hs, atts, bodies, k + 1)
  {}

  lemma {:induction false} TokensMore(hs: seq<HtmlRefs>, h: HtmlRefs, k: nat)
    requires k <= |hs|
    ensures Tokens(hs + [h], k) == Tokens(hs, k)
  {
    if k > 0 {
      TokensMore(hs, h, k - 1);
    }
  }

  /** The characters of the HTML bodies among the first k parts. */
  function HtmlLength(atts: seq<Attachment>, bodies: seq<Body>, k: nat): nat
    requires k <= |atts| == |bodies|
  {
    if k == 0 then 0
    else HtmlLength(atts, bodies, k - 1)
         + if IsHtmlBody(atts[k - 1]) && bodies[k - 1].Content? then |bodies[k - 1].text| else 0
  }

  /** The Content-IDs the HTML bodies among the first k parts name, body by body. */
  function HtmlTokens(decode: Decoder, atts: seq<Attachment>, bodies: seq<Body>, k: nat): nat
    requires k <= |atts| == |bodies|
  {
    if k == 0 then 0
    else HtmlTokens(decode, atts, bodies, k - 1)
         + if IsHtmlBody(atts[k - 1]) && bodies[k - 1].Content? then |ContentIDs(decode, bodies[k - 1].text)| else 0
  }

  lemma {:induction false} HtmlGrows(decode: Decoder, atts: seq<Attachment>, bodies: seq<Body>, i: nat, k: nat)
    requires i <= k <= |atts| == |bodies|
    ensures HtmlLength(atts, bodies, i) <= HtmlLength(atts, bodies, k)
    ensures HtmlTokens(decode, atts, bodies, i) <= HtmlTokens(decode, atts, bodies, k)
  {
    if i < k {
      HtmlGrows(decode, atts, bodies, i, k - 1);
    }
  }

  /** Every HTML body can be read and is small enough, and so are all of them together. */
  ghost predicate Modest(decode: Decoder, atts: seq<Attachment>, bodies: seq<Body>)
    requires |atts| == |bodies|
  {
    && (forall i :: 0 <= i < |atts| && IsHtmlBody(atts[i]) ==> bodies[i].Content? && |bodies[i].text| <= MAX_PART_SCAN)
    && HtmlLength(atts, bodies, |atts|) < MAX_TOTAL_SCAN
    && HtmlTokens(decode, atts, bodies, |atts|) < MAX_TOTAL_TOKENS
  }

  ghost predicate NoneTruncated(hs: seq<HtmlRefs>) {
    forall k :: 0 <= k < |hs| ==> !hs[k].truncated
  }

  predicate FitsBudgets(decode: Decoder, body: Body, scanBudget: nat, tokenBudget: nat) {
    && body.Content? && |body.text| <= MAX_PART_SCAN && |body.text| < scanBudget
    && |ContentIDs(decode, body.text)| < tokenBudget
  }

  predicate FullyScanned(decode: Decoder, body: Body, h: HtmlRefs, scanned: nat, tokensLeft: nat, tokenBudget: nat) {
    && body.Content? && !h.truncated && scanned == |body.text|
    && tokensLeft + |ContentIDs(decode, body.text)| == tokenBudget
  }

  /** So far nothing was cut off, and the budgets are spent accordingly. */
  ghost predicate Complete(decode: Decoder, atts: seq<Attachment>, bodies: seq<Body>, hs: seq<HtmlRefs>, scanned: nat,
                           tokenBudget: nat, k: nat)
    requires k <= |atts| == |bodies|
  {
    && NoneTruncated(hs) && scanned == HtmlLength(atts, bodies, k)
    && tokenBudget + HtmlTokens(decode, atts, bodies, k) == MAX_TOTAL_TOKENS
  }

  /** In a modest message the next body fits what is left of the budgets. */
  lemma NextFits(decode: Decoder, atts: seq<Attachment>, bodies: seq<Body>, hs: seq<HtmlRefs>, scanned: nat,
                 scanBudget: nat, tokenBudget: nat, k: nat)
    requires k < |atts| == |bodies| && IsHtmlBody(atts[k]) && scanned + scanBudget == MAX_TOTAL_SCAN
    requires Modest(decode, atts, bodies) && Complete(decode, atts, bodies, hs, scanned, tokenBudget, k)
    ensures FitsBudgets(decode, bodies[k], scanBudget, tokenBudget)
  {
    HtmlGrows(decode, atts, bodies, k + 1, |atts|);
  }

  lemma CompleteNext(decode: Decoder, atts: seq<Attachment>, bodies: seq<Body>, hs: seq<HtmlRefs>, scanned: nat,
                     tokenBudget: nat, k: nat, h: HtmlRefs, n: nat, tokensLeft: nat)
    requires k < |atts| == |bodies| && IsHtmlBody(atts[k])
    requires Complete(decode, atts, bodies, hs, scanned, tokenBudget, k)
    requires FullyScanned(decode, bodies[k], h, n, tokensLeft, tokenBudget)
    ensures Complete(decode, atts, bodies, hs + [h], scanned + n, tokensLeft, k + 1)
  {}

  /** Scans one HTML body within what is left of the budgets. Tokens that do not fit are dropped
      and use the token budget up. */
  method ScanBody(decode: Decoder, att: Attachment, body: Body, scanBudget: nat, tokenBudget: nat)
    returns (h: HtmlRefs, scanned: nat, tokensLeft: nat)
    ensures Sound(decode, h, att, body)
    ensures scanned <= scanBudget && |h.ids| + tokensLeft <= tokenBudget
    ensures FitsBudgets(decode, body, scanBudget, tokenBudget) ==>
              FullyScanned(decode, body, h, scanned, tokensLeft, tokenBudget)
  {
    h, scanned, tokensLeft := HtmlRefs(att.path, {}, true), 0, tokenBudget;
    if scanBudget > 0 && tokenBudget > 0 && body.Content? {
      var limit := if scanBudget < MAX_PART_SCAN then scanBudget else MAX_PART_SCAN;
      var ids, truncated;
      ids, scanned, truncated := ScanReferences(decode, body.text, limit);
      assert body.text[..|body.text|] == body.text;
      if |ids| > tokenBudget {
        tokensLeft := 0;
      } else {
        tokensLeft := tokenBudget - |ids|;
        h := HtmlRefs(att.path, ids, truncated);
      }
    }
  }

  /** Scans the HTML bodies within the message's budgets. Whatever the bodies hold, the scanned
      characters and the Content-IDs kept stay within the totals, and every body is recorded
      soundly; a message within all budgets is recorded completely. */
  method CollectHtmlRefs(decode: Decoder, atts: seq<Attachment>, bodies: seq<Body>)
    returns (hs: seq<HtmlRefs>, scanned: nat)
    requires |atts| == |bodies|
    ensures Recorded(decode, hs, atts, bodies, |atts|)
    ensures scanned <= MAX_TOTAL_SCAN && Tokens(hs, |hs|) <= MAX_TOTAL_TOKENS
    ensures Modest(decode, atts, bodies) ==> NoneTruncated(hs)
    ensures scanned <= 4 * 1024 * 1024 && Tokens(hs, |hs|) <= 65536
    ensures (forall i :: 0 <= i < |atts| && IsHtmlBody(atts[i]) ==>
               bodies[i].Content? && |bodies[i].text| <= 1024 * 1024)
            && HtmlLength(atts, bodies, |atts|) < 4 * 1024 * 1024 && HtmlTokens(decode, atts, bodies, |atts|) < 65536
            ==> NoneTruncated(hs)
  {
    hs, scanned := [], 0;
    var scanBudget: nat, tokenBudget: nat := MAX_TOTAL_SCAN, MAX_TOTAL_TOKENS;
    var i := 0;
    while i < |atts|
      invariant i <= |atts| && Recorded(decode, hs, atts, bodies, i)
      invariant scanned + scanBudget == MAX_TOTAL_SCAN
      invariant Tokens(hs, |hs|) + tokenBudget <= MAX_TOTAL_TOKENS
      invariant Modest(decode, atts, bodies) ==> Complete(decode, atts, bodies, hs, scanned, tokenBudget, i)
    {
      if !IsHtmlBody(atts[i]) {
        RecordedSkip(decode, hs, atts, bodies, i);
      } else {
        var h, n, left := ScanBody(decode, atts[i], bodies[i], scanBudget, tokenBudget);
        if Modest(decode, atts, bodies) {
          NextFits(decode, atts, bodies, hs, scanned, scanBudget, tokenBudget, i);
          CompleteNext(decode, atts, bodies, hs, scanned, tokenBudget, i, h, n, left);
        }
        scanBudget, scanned, tokenBudget := scanBudget - n, scanned + n, left;
        RecordedNext(decode, hs, atts, bodies, i, h);
        TokensMore(hs, h, |hs|);
        hs := hs + [h];
      }
      i := i + 1;
    }
  }

  // ------------------------------------------------------------------ question

  predicate Embeds(h: HtmlRefs, container: string, id: string) {
    IsWithinContainer(h.path, container) && id in h.ids
  }

  predicate Unsure(h: HtmlRefs, container: string) {
    IsWithinContainer(h.path, container) && h.truncated
  }

  ghost predicate Found(hs: seq<HtmlRefs>, container: string, id: string) {
    exists k :: 0 <= k < |hs| && Embeds(hs[k], container, id)
  }

  ghost predicate Incomplete(hs: seq<HtmlRefs>, container: string) {
    exists k :: 0 <= k < |hs| && Unsure(hs[k], container)
  }

  /** The answer: referenced if found or if that cannot be ruled out; failsafe in the latter
      case only. */
  ghost predicate IsReferenced(hs: seq<HtmlRefs>, container: string, id: string) {
    container == "" || Found(hs, container, id) || Incomplete(hs, container)
  }

  method CidReferenced(hs: seq<HtmlRefs>, container: string, id: string) returns (referenced: bool, failsafe: bool)
    ensures referenced <==> IsReferenced(hs, container, id)
    ensures failsafe <==> referenced && (container == "" || !Found(hs, container, id))
  {
    if container == "" {
      return true, true;
    }
    var incomplete := false;
    var i := 0;
    while i < |hs|
      invariant i <= |hs|
      invariant forall k :: 0 <= k < i ==> !Embeds(hs[k], container, id)
      invariant incomplete <==> exists k :: 0 <= k < i && Unsure(hs[k], container)
    {
      if IsWithinContainer(hs[i].path, container) {
        if hs[i].truncated {
          assert Unsure(hs[i], container);
          incomplete := true;
        }
        if id in hs[i].ids {
          assert Embeds(hs[i], container, id);
          return true, false;
        }
      }
      i := i + 1;
    }
    return incomplete, incomplete;
  }

  // ------------------------------------------------------------------ fail-safe

  /** Some HTML body within the container embeds the Content-ID, by an unbounded scan of
      everything that can be read. */
  ghost predicate TrulyEmbedded(decode: Decoder, atts: seq<Attachment>, bodies: seq<Body>, container: string,
                                id: string)
    requires |atts| == |bodies|
  {
    exists i :: 0 <= i < |atts| && EmbeddedIn(decode, atts[i], bodies[i], container, id)
  }

  predicate EmbeddedIn(decode: Decoder, att: Attachment, body: Body, container: string, id: string) {
    && IsHtmlBody(att) && IsWithinContainer(att.path, container)
    && body.Content? && id in ContentIDs(decode, body.text)
  }

  lemma {:induction false} RecordOf(atts: seq<Attachment>, k: nat, j: nat) returns (i: nat)
    requires k <= |atts| && j < HtmlCount(atts, k)
    ensures i < k && IsHtmlBody(atts[i]) && HtmlCount(atts, i) == j
  {
    if j < HtmlCount(atts, k - 1) {
      i := RecordOf(atts, k - 1, j);
    } else {
      i := k - 1;
    }
  }

  /** The budgets fail safe: what an unbounded scan would find embedded is reported as
      referenced, whatever was truncated; and if nothing within the container was, the answers
      are the same. */
  lemma BudgetsFailSafe(decode: Decoder, hs: seq<HtmlRefs>, atts: seq<Attachment>, bodies: seq<Body>,
                        container: string, id: string)
    requires |atts| == |bodies| && Recorded(decode, hs, atts, bodies, |atts|)
    ensures TrulyEmbedded(decode, atts, bodies, container, id) ==> IsReferenced(hs, container, id)
    ensures container != "" && !Incomplete(hs, container) ==>
              (IsReferenced(hs, container, id) <==> TrulyEmbedded(decode, atts, bodies, container, id))
  {
    if TrulyEmbedded(decode, atts, bodies, container, id) {
      var i :| 0 <= i < |atts| && EmbeddedIn(decode, atts[i], bodies[i], container, id);
      assert RecordFor(decode, hs, atts, bodies, i);
      var h := hs[HtmlCount(atts, i)];
      assert Embeds(h, container, id) || Unsure(h, container);
    }
    if container != "" && !Incomplete(hs, container) && IsReferenced(hs, container, id) {
      var k :| 0 <= k < |hs| && Embeds(hs[k], container, id);
      var i := RecordOf(atts, |atts|, k);
      assert RecordFor(decode, hs, atts, bodies, i);
      assert !Unsure(hs[k], container);
      assert EmbeddedIn(decode, atts[i], bodies[i], container, id);
    }
  }

  /** The records of a scan without budgets. */
  function Unbounded(decode: Decoder, atts: seq<Attachment>, bodies: seq<Body>, k: nat): seq<HtmlRefs>
    requires k <= |atts| == |bodies|
  {
    if k == 0 then []
    else
      var hs := Unbounded(decode, atts, bodies, k - 1);
      if !IsHtmlBody(atts[k - 1]) then hs
      else if bodies[k - 1].Content? then
        hs + [HtmlRefs(atts[k - 1].path, ContentIDs(decode, bodies[k - 1].text), false)]
      else hs + [HtmlRefs(atts[k - 1].path, {}, true)]
  }

  lemma {:induction false} UnboundedRecorded(decode: Decoder, atts: seq<Attachment>, bodies: seq<Body>, k: nat)
    requires k <= |atts| == |bodies|
    ensures Recorded(decode, Unbounded(decode, atts, bodies, k), atts, bodies, k)
    ensures (forall i :: 0 <= i < k && IsHtmlBody(atts[i]) ==> bodies[i].Content?) ==>
              NoneTruncated(Unbounded(decode, atts, bodies, k))
  {
    if k > 0 {
      var hs := Unbounded(decode, atts, bodies, k - 1);
      UnboundedRecorded(decode, atts, bodies, k - 1);
      if IsHtmlBody(atts[k - 1]) {
        var h := if bodies[k - 1].Content?
                 then HtmlRefs(atts[k - 1].path, ContentIDs(decode, bodies[k - 1].text), false)
                 else HtmlRefs(atts[k - 1].path, {}, true);
        RecordedNext(decode, hs, atts, bodies, k - 1, h);
      } else {
        RecordedSkip(decode, hs, atts, bodies, k - 1);
      }
    }
  }
}
