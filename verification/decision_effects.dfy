/** What becomes of an attachment in the end, said of its headers, the text of the message's bodies and
    the policy's ruling. */
module DecisionEffects {
  import opened Text
  import opened MimeTree
  import opened MimePaths
  import opened CidScan
  import opened CidMarkup
  import opened CidRefs
  import opened PolicyDecision
  import opened PipelineDecision

  /** The attachment is an HTML text that is shown with the message. */
  predicate ShownHtml(att: Attachment) {
    att.info.mediaType == "text/html" && att.info.inline
  }

  /** The attachment is a part of the message's own text: shown with it, without a file name. */
  predicate OwnText(att: Attachment) {
    && att.info.inline && att.info.filename == ""
    && (att.info.mediaType == "text/html" || att.info.mediaType == "text/plain")
  }

  predicate Image(att: Attachment) {
    "image/" <= att.info.detectedType
  }

  /** The ruling takes effect: the policy's own dry-run setting counts if there is one, and otherwise
      the global one. */
  predicate InEarnest(d: Decision, global: bool) {
    match d.dryRun
    case Some(dry) => !dry
    case None => !global
  }

  /** A small image that an HTML text of its own multipart/related embeds by a reference written out in
      that text is never replaced, unless a rule singles it out, whatever the scan budgets cut off. */
  lemma EmbeddedByText(decode: Decoder, root: Part, bodies: seq<Body>, ruled: seq<Decision>, maxSize: int,
                       global: bool, out: MessageDecision, hs: seq<HtmlRefs>, k: nat, j: nat, c: Container,
                       before: string, mid: string, scheme: string, id: string, after: string)
    requires j < |bodies| == |Leaves(root, "0", "")| && k < |bodies|
    requires DecidedBy(decode, Leaves(root, "0", ""), bodies, ruled, maxSize, global, out, hs)
    requires var atts := Leaves(root, "0", "");
             && atts[k].inlineAsset && Image(atts[k]) && atts[k].size <= maxSize && !ruled[k].inlineOptIn
             && ShownHtml(atts[j]) && decode(id) == atts[k].info.contentID != ""
    requires c in Containers(root, "0", "", 0) && ParentOf(c, Leaves(root, "0", "")[k], k) && c.lo <= j < c.hi
    requires bodies[j] == Content(before + mid + (scheme + id + after))
    requires LeadsUp(before, mid) && IsScheme(scheme) && AllWritten(id) && 1 <= |id| <= 998
    requires after == "" || !Written(after[0]) || |id| == 998
    ensures out.attachments[k].action != Replace
  {
    ReferenceFound(decode, before, mid, scheme, id, after);
    EmbeddedImageKept(decode, root, bodies, ruled, maxSize, global, out, hs, k, j, c);
  }

  /** What the message shows as its own text is never replaced. */
  lemma OwnTextKept(atts: seq<Attachment>, ruled: seq<Decision>, maxSize: int, hs: seq<HtmlRefs>, global: bool,
                    out: MessageDecision, i: nat)
    requires Concluded(atts, ruled, maxSize, hs, global, out) && i < |atts| && OwnText(atts[i])
    ensures out.attachments[i].action != Replace
  {
    assert ConcludedAt(atts[i], ruled[i], maxSize, hs, global, out.attachments[i]);
  }

  /** Everything else that is no small inline image is replaced exactly if that is ruled in earnest. */
  lemma OthersReplaced(atts: seq<Attachment>, ruled: seq<Decision>, maxSize: int, hs: seq<HtmlRefs>, global: bool,
                       out: MessageDecision, i: nat)
    requires Concluded(atts, ruled, maxSize, hs, global, out) && i < |atts| && !OwnText(atts[i])
    requires !atts[i].inlineAsset || !Image(atts[i]) || atts[i].size > maxSize || ruled[i].inlineOptIn
    ensures out.attachments[i].action == Replace <==> ruled[i].action == Replace && InEarnest(ruled[i], global)
  {
    assert ConcludedAt(atts[i], ruled[i], maxSize, hs, global, out.attachments[i]);
  }

  /** The message is rejected exactly if some attachment is ruled to be blocked in earnest; what is
      ruled in a dry run neither blocks it nor is replaced. */
  lemma DryRunHarmless(atts: seq<Attachment>, ruled: seq<Decision>, maxSize: int, hs: seq<HtmlRefs>, global: bool,
                       out: MessageDecision)
    requires Concluded(atts, ruled, maxSize, hs, global, out)
    ensures out.action == Block <==> exists i :: 0 <= i < |ruled| && ruled[i].action == Block
                                                && InEarnest(ruled[i], global)
    ensures forall i :: 0 <= i < |atts| && !InEarnest(ruled[i], global) ==>
              out.attachments[i].action != Block && out.attachments[i].action != Replace
  {
    FirstBlockedExists(ruled, global);
    forall i | 0 <= i < |ruled|
      ensures BlocksInEarnest(ruled[i], global) <==> ruled[i].action == Block && InEarnest(ruled[i], global)
    {}
    forall i | 0 <= i < |atts| && !InEarnest(ruled[i], global)
      ensures out.attachments[i].action != Block && out.attachments[i].action != Replace
    {
      assert ConcludedAt(atts[i], ruled[i], maxSize, hs, global, out.attachments[i]);
    }
  }
}
