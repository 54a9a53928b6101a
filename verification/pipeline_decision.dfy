/** The decision a whole message gets: evaluation, the protections of inline assets and of the
    message's own text, dry-run mode, and the parameters of its links. */
module PipelineDecision {
  import opened Text
  import opened MimeTree
  import opened MimePaths
  import opened CidScan
  import opened CidRefs
  import opened PolicyDecision

  datatype MessageDecision = MessageDecision(action: Action, attachments: seq<Decision>, reason: string)

  datatype Envelope = Envelope(sender: string, recipients: seq<string>)

  // --------------------------------------------------------------- aggregation

  datatype Summary = Summary(action: Action, reason: string)

  /** The strongest action of the first k decisions, if stronger than the starting one, with the
      reason of the first that has it. */
  function Summarize(start: Action, ds: seq<Decision>, k: nat): Summary
    requires k <= |ds|
  {
    if k == 0 then Summary(start, "")
    else
      var s := Summarize(start, ds, k - 1);
      if Strength(ds[k - 1].action) > Strength(s.action) then Summary(ds[k - 1].action, ds[k - 1].reason) else s
  }

  function SummaryOf(start: Action, ds: seq<Decision>): Summary {
    Summarize(start, ds, |ds|)
  }

  ghost predicate FirstWith(ds: seq<Decision>, a: Action, i: nat) {
    && i < |ds| && ds[i].action == a
    && forall j :: 0 <= j < i ==> Strength(ds[j].action) < Strength(a)
  }

  lemma {:induction false} SummaryUpTo(start: Action, ds: seq<Decision>, k: nat) returns (i: nat)
    requires k <= |ds|
    ensures var s := Summarize(start, ds, k);
            && Strength(start) <= Strength(s.action)
            && (forall j :: 0 <= j < k ==> Strength(ds[j].action) <= Strength(s.action))
            && (s == Summary(start, "") || (i < k && FirstWith(ds, s.action, i) && s.reason == ds[i].reason))
  {
    if k == 0 {
      i := 0;
    } else {
      i := SummaryUpTo(start, ds, k - 1);
      if Strength(ds[k - 1].action) > Strength(Summarize(start, ds, k - 1).action) {
        i := k - 1;
      }
    }
  }

  /** A message's action is what its attachments' come to. */
  lemma SummaryIsSeverest(start: Action, ds: seq<Decision>)
    requires start in {NoAction, Pass}
    ensures SummaryOf(start, ds).action == Severest(ds, start)
  {
    var i := SummaryUpTo(start, ds, |ds|);
    StrongestIsSeverest(ds, start, SummaryOf(start, ds).action);
  }

  /** A message is blocked exactly when one of its attachments is, and the first such gives the
      reason. */
  lemma BlockedExactly(start: Action, ds: seq<Decision>)
    requires start != Block
    ensures SummaryOf(start, ds).action == Block <==> exists i :: 0 <= i < |ds| && ds[i].action == Block
    ensures SummaryOf(start, ds).action == Block ==>
              exists i: nat :: FirstWith(ds, Block, i) && SummaryOf(start, ds).reason == ds[i].reason
  {
    var i := SummaryUpTo(start, ds, |ds|);
  }

  // ---------------------------------------------------------------- evaluation

  /** The policy's verdict on one attachment, over all recipients. */
  function Ruled(p: Policy, matches: Match, env: Envelope, att: Attachment): Decision {
    Worst(PerRecipient(p, matches, env.sender, env.recipients, att))
  }

  ghost predicate AllRuled(p: Policy, matches: Match, env: Envelope, atts: seq<Attachment>, ds: seq<Decision>) {
    |ds| == |atts| && forall i :: 0 <= i < |atts| ==> ds[i] == Ruled(p, matches, env, atts[i])
  }

  method Evaluate(p: Policy, matches: Match, env: Envelope, atts: seq<Attachment>) returns (m: MessageDecision)
    ensures AllRuled(p, matches, env, atts, m.attachments)
    ensures Summary(m.action, m.reason) == SummaryOf(Pass, m.attachments)
    ensures m.action == Severest(m.attachments, Pass)
    ensures forall i :: 0 <= i < |atts| ==>
              m.attachments[i].action
              == Severest(PerRecipient(p, matches, env.sender, env.recipients, atts[i]), NoAction)
  {
    var decisions: seq<Decision> := [];
    var action, reason := Pass, "";
    var i := 0;
    while i < |atts|
      invariant i == |decisions| <= |atts|
      invariant forall j :: 0 <= j < i ==> decisions[j] == Ruled(p, matches, env, atts[j])
      invariant forall j :: 0 <= j < i ==>
                  decisions[j].action
                  == Severest(PerRecipient(p, matches, env.sender, env.recipients, atts[j]), NoAction)
      invariant Summary(action, reason) == SummaryOf(Pass, decisions)
    {
      var d := DecideAttachment(p, matches, env.sender, env.recipients, atts[i]);
      SummaryPrefix(Pass, decisions, [d], i);
      decisions := decisions + [d];
      if Strength(d.action) > Strength(action) {
        action, reason := d.action, d.reason;
      }
      i := i + 1;
    }
    m := MessageDecision(action, decisions, reason);
    SummaryIsSeverest(Pass, decisions);
  }

  lemma {:induction false} SummaryPrefix(start: Action, a: seq<Decision>, b: seq<Decision>, k: nat)
    requires k <= |a|
    ensures Summarize(start, a + b, k) == Summarize(start, a, k)
  {
    if k > 0 {
      SummaryPrefix(start, a, b, k - 1);
    }
  }

  // --------------------------------------------------------------- protections

  /** A part of the message's own text: shown inline, nameless, plain or HTML. */
  predicate IsStructuralBody(att: Attachment) {
    att.info.inline && att.info.filename == "" && att.info.mediaType in {"text/plain", "text/html"}
  }

  predicate IsCandidate(att: Attachment, maxSize: int) {
    att.inlineAsset && att.size <= maxSize
  }

  const IMAGE := "image/"

  /** A small, verified image inside multipart/related that an HTML body refers to, and that no
      rule singles out. */
  ghost predicate InlineProtected(att: Attachment, d: Decision, maxSize: int, hs: seq<HtmlRefs>) {
    && d.action == Replace && !d.inlineOptIn
    && att.inlineAsset && IMAGE <= att.info.detectedType && att.size <= maxSize
    && IsReferenced(hs, ParentPath(att.path), att.info.contentID)
  }

  predicate BodyProtected(att: Attachment, d: Decision) {
    d.action == Replace && IsStructuralBody(att)
  }

  /** An attachment's decision after a protection. */
  function Spared(d: Decision, protected: bool): Decision {
    if protected then d.(action := Pass) else d
  }

  method HasInlineCandidate(atts: seq<Attachment>, maxSize: int) returns (r: bool)
    ensures r <==> exists i :: 0 <= i < |atts| && IsCandidate(atts[i], maxSize)
  {
    var i := 0;
    while i < |atts|
      invariant i <= |atts| && forall j :: 0 <= j < i ==> !IsCandidate(atts[j], maxSize)
    {
      if IsCandidate(atts[i], maxSize) {
        return true;
      }
      i := i + 1;
    }
    return false;
  }

  /** The paths at the chosen positions below k, in order. */
  function Paths(atts: seq<Attachment>, chosen: set<nat>, k: nat): seq<string>
    requires k <= |atts|
  {
    if k == 0 then [] else Paths(atts, chosen, k - 1) + if k - 1 in chosen then [atts[k - 1].path] else []
  }

  /** The reference to the asset was not found, only not ruled out. */
  ghost predicate Unverified(att: Attachment, hs: seq<HtmlRefs>) {
    ParentPath(att.path) == "" || !Found(hs, ParentPath(att.path), att.info.contentID)
  }

  method ChecksAsInline(att: Attachment, d: Decision, maxSize: int, hs: seq<HtmlRefs>)
    returns (spare: bool, failsafe: bool)
    ensures spare <==> InlineProtected(att, d, maxSize, hs)
    ensures failsafe <==> spare && Unverified(att, hs)
  {
    if d.action != Replace || d.inlineOptIn || !att.inlineAsset || !(IMAGE <= att.info.detectedType)
        || att.size > maxSize {
      return false, false;
    }
    spare, failsafe := CidReferenced(hs, ParentPath(att.path), att.info.contentID);
  }

  /** Downgrades the protected inline assets, reporting which, and which of them unverified. */
  method ProtectInlineAssets(atts: seq<Attachment>, m: MessageDecision, maxSize: int, hs: seq<HtmlRefs>)
    returns (out: MessageDecision, protectedPaths: seq<string>, unverifiedPaths: seq<string>,
             ghost spared: set<nat>, ghost unverified: set<nat>)
    requires |atts| == |m.attachments|
    ensures |out.attachments| == |atts|
    ensures forall i :: i in spared <==> 0 <= i < |atts| && InlineProtected(atts[i], m.attachments[i], maxSize, hs)
    ensures forall i :: i in unverified <==> i in spared && Unverified(atts[i], hs)
    ensures forall i :: 0 <= i < |atts| ==> out.attachments[i] == Spared(m.attachments[i], i in spared)
    ensures Summary(out.action, out.reason) == SummaryOf(Pass, out.attachments)
    ensures out.action == Severest(out.attachments, Pass)
    ensures protectedPaths == Paths(atts, spared, |atts|) && unverifiedPaths == Paths(atts, unverified, |atts|)
  {
    var ds := m.attachments;
    protectedPaths, unverifiedPaths := [], [];
    spared, unverified := {}, {};
    var i := 0;
    while i < |ds|
      invariant i <= |ds| == |atts|
      invariant forall j :: j in spared <==> 0 <= j < i && InlineProtected(atts[j], m.attachments[j], maxSize, hs)
      invariant forall j :: j in unverified <==> j in spared && Unverified(atts[j], hs)
      invariant forall j :: 0 <= j < |atts| ==> ds[j] == Spared(m.attachments[j], j in spared)
      invariant protectedPaths == Paths(atts, spared, i) && unverifiedPaths == Paths(atts, unverified, i)
    {
      var spare, failsafe := ChecksAsInline(atts[i], ds[i], maxSize, hs);
      PathsNext(atts, spared, i, spare);
      PathsNext(atts, unverified, i, failsafe);
      if spare {
        ds := ds[i := ds[i].(action := Pass)];
        spared := spared + {i};
        protectedPaths := protectedPaths + [atts[i].path];
      }
      if failsafe {
        unverified := unverified + {i};
        unverifiedPaths := unverifiedPaths + [atts[i].path];
      }
      i := i + 1;
    }
    out := Aggregated(ds);
  }

  lemma PathsNext(atts: seq<Attachment>, chosen: set<nat>, k: nat, choose: bool)
    requires k < |atts| && forall i :: i in chosen ==> i < k
    ensures Paths(atts, if choose then chosen + {k} else chosen, k + 1)
            == Paths(atts, chosen, k) + if choose then [atts[k].path] else []
  {
    PathsSame(atts, chosen, if choose then chosen + {k} else chosen, k);
  }

  lemma {:induction false} PathsSame(atts: seq<Attachment>, a: set<nat>, b: set<nat>, k: nat)
    requires k <= |atts| && forall i :: 0 <= i < k ==> (i in a <==> i in b)
    ensures Paths(atts, a, k) == Paths(atts, b, k)
  {
    if k > 0 {
      PathsSame(atts, a, b, k - 1);
    }
  }

  /** Re-derives the message's action from its attachments' decisions. */
  method Aggregated(ds: seq<Decision>) returns (m: MessageDecision)
    ensures m.attachments == ds && Summary(m.action, m.reason) == SummaryOf(Pass, ds)
    ensures m.action == Severest(ds, Pass)
  {
    var action, reason := Pass, "";
    var i := 0;
    while i < |ds|
      invariant i <= |ds| && Summary(action, reason) == Summarize(Pass, ds, i)
    {
      if Strength(ds[i].action) > Strength(action) {
        action, reason := ds[i].action, ds[i].reason;
      }
      i := i + 1;
    }
    m := MessageDecision(action, ds, reason);
    SummaryIsSeverest(Pass, ds);
  }

  method ProtectStructuralBodies(atts: seq<Attachment>, m: MessageDecision)
    returns (out: MessageDecision, protectedPaths: seq<string>, ghost spared: set<nat>)
    requires |atts| == |m.attachments|
    ensures |out.attachments| == |atts|
    ensures forall i :: i in spared <==> 0 <= i < |atts| && BodyProtected(atts[i], m.attachments[i])
    ensures forall i :: 0 <= i < |atts| ==> out.attachments[i] == Spared(m.attachments[i], i in spared)
    ensures Summary(out.action, out.reason) == SummaryOf(Pass, out.attachments)
    ensures out.action == Severest(out.attachments, Pass)
    ensures protectedPaths == Paths(atts, spared, |atts|)
  {
    var ds := m.attachments;
    protectedPaths, spared := [], {};
    var i := 0;
    while i < |ds|
      invariant i <= |ds| == |atts|
      invariant forall j :: j in spared <==> 0 <= j < i && BodyProtected(atts[j], m.attachments[j])
      invariant forall j :: 0 <= j < |atts| ==> ds[j] == Spared(m.attachments[j], j in spared)
      invariant protectedPaths == Paths(atts, spared, i)
    {
      PathsNext(atts, spared, i, BodyProtected(atts[i], ds[i]));
      if ds[i].action == Replace && IsStructuralBody(atts[i]) {
        ds := ds[i := ds[i].(action := Pass)];
        spared := spared + {i};
        protectedPaths := protectedPaths + [atts[i].path];
      }
      i := i + 1;
    }
    out := Aggregated(ds);
  }

  // ------------------------------------------------------------------ dry run

  function ApplyMode(d: Decision, global: bool): Decision {
    if EffectiveDryRun(d, global) then d.(action := Pass) else d
  }

  /** Applies dry-run mode. Unlike the other aggregations this one starts from no action at all. */
  method ApplyModeToMessage(m: MessageDecision, global: bool) returns (out: MessageDecision)
    ensures |out.attachments| == |m.attachments|
    ensures forall i :: 0 <= i < |m.attachments| ==> out.attachments[i] == ApplyMode(m.attachments[i], global)
    ensures Summary(out.action, out.reason) == SummaryOf(NoAction, out.attachments)
    ensures out.action == Severest(out.attachments, NoAction)
  {
    var ds: seq<Decision> := [];
    var action, reason := NoAction, "";
    var i := 0;
    while i < |m.attachments|
      invariant i == |ds| <= |m.attachments|
      invariant forall j :: 0 <= j < i ==> ds[j] == ApplyMode(m.attachments[j], global)
      invariant Summary(action, reason) == SummaryOf(NoAction, ds)
    {
      var adjusted := ApplyMode(m.attachments[i], global);
      SummaryPrefix(NoAction, ds, [adjusted], i);
      ds := ds + [adjusted];
      if Strength(adjusted.action) > Strength(action) {
        action, reason := adjusted.action, adjusted.reason;
      }
      i := i + 1;
    }
    out := MessageDecision(action, ds, reason);
    SummaryIsSeverest(NoAction, ds);
  }

  // ----------------------------------------------------------------- the chain

  ghost predicate Protected(att: Attachment, d: Decision, maxSize: int, hs: seq<HtmlRefs>) {
    InlineProtected(att, d, maxSize, hs) || BodyProtected(att, d)
  }

  /** The first attachment whose ruling blocks in earnest. */
  ghost predicate FirstBlocked(ruled: seq<Decision>, global: bool, i: nat) {
    && i < |ruled| && BlocksInEarnest(ruled[i], global)
    && forall j :: 0 <= j < i ==> !BlocksInEarnest(ruled[j], global)
  }

  predicate BlocksInEarnest(d: Decision, global: bool) {
    d.action == Block && !EffectiveDryRun(d, global)
  }

  /** An attachment is replaced in the end if its ruling says so in earnest and nothing protects
      it. */
  ghost predicate ReplacedInEarnest(att: Attachment, d: Decision, maxSize: int, hs: seq<HtmlRefs>, global: bool) {
    d.action == Replace && !EffectiveDryRun(d, global) && !Protected(att, d, maxSize, hs)
  }

  /** What the chain makes of one attachment. */
  ghost predicate ConcludedAt(att: Attachment, ruled: Decision, maxSize: int, hs: seq<HtmlRefs>, global: bool,
                              final: Decision)
  {
    && (final.action == Replace <==> ReplacedInEarnest(att, ruled, maxSize, hs, global))
    && (final.action == Block <==> BlocksInEarnest(ruled, global))
    && final.params == ruled.params
  }

  /** What the chain makes of the message. */
  ghost predicate Settles(ruled: seq<Decision>, global: bool, out: MessageDecision) {
    && (out.action == Block <==> exists i: nat :: FirstBlocked(ruled, global, i))
    && (forall i: nat :: FirstBlocked(ruled, global, i) ==> out.reason == ruled[i].reason)
    && (out.action == NoAction <==> ruled == [])
    && out.action == Severest(out.attachments, NoAction)
  }

  /** What the whole chain decides: the message is blocked exactly when some attachment's ruling
      is a block in earnest, with the first such reason; and an attachment is replaced exactly
      when its ruling says so in earnest and nothing protects it. */
  ghost predicate Concluded(atts: seq<Attachment>, ruled: seq<Decision>, maxSize: int, hs: seq<HtmlRefs>, global: bool,
                            out: MessageDecision)
  {
    && |atts| == |ruled| == |out.attachments|
    && (forall i :: 0 <= i < |atts| ==> ConcludedAt(atts[i], ruled[i], maxSize, hs, global, out.attachments[i]))
    && Settles(ruled, global, out)
  }

  ghost predicate Chained(atts: seq<Attachment>, ruled: seq<Decision>, maxSize: int, hs: seq<HtmlRefs>, global: bool,
                          finals: seq<Decision>)
  {
    && |atts| == |ruled| == |finals|
    && forall i :: 0 <= i < |atts| ==>
         finals[i] == ApplyMode(Spared(ruled[i], Protected(atts[i], ruled[i], maxSize, hs)), global)
  }

  /** The final action is a block, or missing, just where the ruling is. */
  predicate SameBlocks(ruled: seq<Decision>, global: bool, finals: seq<Decision>) {
    && |finals| == |ruled|
    && forall i :: 0 <= i < |ruled| ==>
         (finals[i].action == Block <==> BlocksInEarnest(ruled[i], global))
         && finals[i].action != NoAction && finals[i].reason == ruled[i].reason
  }

  lemma Settled(ruled: seq<Decision>, global: bool, out: MessageDecision)
    requires SameBlocks(ruled, global, out.attachments)
    requires Summary(out.action, out.reason) == SummaryOf(NoAction, out.attachments)
    ensures Settles(ruled, global, out)
  {
    var ds := out.attachments;
    BlockedExactly(NoAction, ds);
    SummaryIsSeverest(NoAction, ds);
    if out.action == Block {
      var i: nat :| FirstWith(ds, Block, i) && out.reason == ds[i].reason;
      assert FirstBlocked(ruled, global, i);
      forall j: nat | FirstBlocked(ruled, global, j)
        ensures j == i
      {}
    }
    if ds != [] {
      var i := SummaryUpTo(NoAction, ds, |ds|);
      assert ds[0].action != NoAction;
    }
  }

  lemma Conclusion(atts: seq<Attachment>, ruled: seq<Decision>, maxSize: int, hs: seq<HtmlRefs>, global: bool,
                   out: MessageDecision)
    requires Chained(atts, ruled, maxSize, hs, global, out.attachments)
    requires Summary(out.action, out.reason) == SummaryOf(NoAction, out.attachments)
    requires forall i :: 0 <= i < |ruled| ==> ruled[i].action != NoAction
    ensures Concluded(atts, ruled, maxSize, hs, global, out)
  {
    Settled(ruled, global, out);
  }

  /** The attachments protected as inline assets. */
  ghost function InlineSet(atts: seq<Attachment>, ruled: seq<Decision>, maxSize: int, hs: seq<HtmlRefs>): set<nat>
    requires |atts| == |ruled|
  {
    set i: nat | i < |atts| && InlineProtected(atts[i], ruled[i], maxSize, hs)
  }

  /** The attachments protected only as the message's own text. */
  ghost function BodySet(atts: seq<Attachment>, ruled: seq<Decision>, maxSize: int, hs: seq<HtmlRefs>): set<nat>
    requires |atts| == |ruled|
  {
    set i: nat | i < |atts| && BodyProtected(atts[i], ruled[i]) && !InlineProtected(atts[i], ruled[i], maxSize, hs)
  }

  /** What is reported as protected: each protected attachment's path, once. */
  ghost predicate Reports(atts: seq<Attachment>, ruled: seq<Decision>, maxSize: int, hs: seq<HtmlRefs>,
                          inlinePaths: seq<string>, bodyPaths: seq<string>)
    requires |atts| == |ruled|
  {
    && inlinePaths == Paths(atts, InlineSet(atts, ruled, maxSize, hs), |atts|)
    && bodyPaths == Paths(atts, BodySet(atts, ruled, maxSize, hs), |atts|)
  }

  /** From the rulings to the final decision, with the collected references. */
  method Conclude(atts: seq<Attachment>, m: MessageDecision, maxSize: int, hs: seq<HtmlRefs>, global: bool)
    returns (out: MessageDecision, inlinePaths: seq<string>, bodyPaths: seq<string>)
    requires |atts| == |m.attachments|
    requires forall i :: 0 <= i < |atts| ==> m.attachments[i].action != NoAction
    ensures Concluded(atts, m.attachments, maxSize, hs, global, out)
    ensures Chained(atts, m.attachments, maxSize, hs, global, out.attachments)
    ensures Reports(atts, m.attachments, maxSize, hs, inlinePaths, bodyPaths)
  {
    var inline, unverifiedPaths, bodies;
    ghost var spared, unverified, kept;
    inline, inlinePaths, unverifiedPaths, spared, unverified := ProtectInlineAssets(atts, m, maxSize, hs);
    bodies, bodyPaths, kept := ProtectStructuralBodies(atts, inline);
    out := ApplyModeToMessage(bodies, global);
    assert spared == InlineSet(atts, m.attachments, maxSize, hs);
    assert kept == BodySet(atts, m.attachments, maxSize, hs);
    Conclusion(atts, m.attachments, maxSize, hs, global, out);
  }

  // --------------------------------------------------------------- the scan gate

  /** Without a candidate no references are needed: whatever they are, the decision is the same. */
  lemma GateHarmless(atts: seq<Attachment>, ruled: seq<Decision>, maxSize: int, hs: seq<HtmlRefs>, other: seq<HtmlRefs>,
                     global: bool, out: MessageDecision)
    requires forall i :: 0 <= i < |atts| ==> !IsCandidate(atts[i], maxSize)
    requires Chained(atts, ruled, maxSize, hs, global, out.attachments)
    requires Concluded(atts, ruled, maxSize, hs, global, out)
    ensures Chained(atts, ruled, maxSize, other, global, out.attachments)
    ensures Concluded(atts, ruled, maxSize, other, global, out)
    ensures InlineSet(atts, ruled, maxSize, hs) == InlineSet(atts, ruled, maxSize, other)
    ensures BodySet(atts, ruled, maxSize, hs) == BodySet(atts, ruled, maxSize, other)
  {
    forall i | 0 <= i < |atts|
      ensures InlineProtected(atts[i], ruled[i], maxSize, hs) == InlineProtected(atts[i], ruled[i], maxSize, other)
    {
      assert !IsCandidate(atts[i], maxSize);
    }
  }

  /** The decision goes by sound records of the HTML bodies, complete ones if the message is
      within the scan budgets. */
  ghost predicate DecidedBy(decode: Decoder, atts: seq<Attachment>, bodies: seq<Body>, ruled: seq<Decision>,
                            maxSize: int, global: bool, out: MessageDecision, hs: seq<HtmlRefs>)
    requires |atts| == |bodies|
  {
    && Recorded(decode, hs, atts, bodies, |atts|) && (Modest(decode, atts, bodies) ==> NoneTruncated(hs))
    && Chained(atts, ruled, maxSize, hs, global, out.attachments)
    && Concluded(atts, ruled, maxSize, hs, global, out)
  }

  predicate Assigned(p: Policy) {
    p.otherwise.action != NoAction && forall i :: 0 <= i < |p.rules| ==> p.rules[i].outcome.action != NoAction
  }

  lemma RuledAssigned(p: Policy, matches: Match, env: Envelope, att: Attachment)
    requires Assigned(p)
    ensures Ruled(p, matches, env, att).action != NoAction
  {
    var ds := PerRecipient(p, matches, env.sender, env.recipients, att);
    var i := WorstIsStrongest(ds);
    var rs := if env.recipients == [] then [""] else env.recipients;
    assert ds[i] == OneDecision(p, matches, env.sender, rs[i], att);
  }

  /** The decision on a message whose policy names an action in every rule and by default. That
      the scan may be skipped does not show in it. */
  method Decide(p: Policy, matches: Match, env: Envelope, decode: Decoder, atts: seq<Attachment>, bodies: seq<Body>,
                maxSize: int, global: bool)
    returns (out: MessageDecision, inlinePaths: seq<string>, bodyPaths: seq<string>,
             ghost ruled: seq<Decision>, ghost records: seq<HtmlRefs>)
    requires |atts| == |bodies| && Assigned(p)
    ensures AllRuled(p, matches, env, atts, ruled)
    ensures DecidedBy(decode, atts, bodies, ruled, maxSize, global, out, records)
    ensures Reports(atts, ruled, maxSize, records, inlinePaths, bodyPaths)
    ensures out.action == Block <==>
              exists i :: 0 <= i < |atts| && BlocksInEarnest(Ruled(p, matches, env, atts[i]), global)
  {
    var m := Evaluate(p, matches, env, atts);
    ruled := m.attachments;
    forall i | 0 <= i < |atts|
      ensures ruled[i].action != NoAction
    {
      RuledAssigned(p, matches, env, atts[i]);
    }
    var candidate := HasInlineCandidate(atts, maxSize);
    var hs: seq<HtmlRefs> := [];
    if candidate {
      var scanned;
      hs, scanned := CollectHtmlRefs(decode, atts, bodies);
    }
    out, inlinePaths, bodyPaths := Conclude(atts, m, maxSize, hs, global);
    records := hs;
    if !candidate {
      records := Unbounded(decode, atts, bodies, |atts|);
      UnboundedRecorded(decode, atts, bodies, |atts|);
      GateHarmless(atts, ruled, maxSize, hs, records, global, out);
    }
    FirstBlockedExists(ruled, global);
  }

  lemma FirstBlockedExists(ruled: seq<Decision>, global: bool)
    ensures (exists i: nat :: FirstBlocked(ruled, global, i)) <==>
            exists i :: 0 <= i < |ruled| && BlocksInEarnest(ruled[i], global)
  {
    if i :| 0 <= i < |ruled| && BlocksInEarnest(ruled[i], global) {
      var j: nat := 0;
      while !BlocksInEarnest(ruled[j], global)
        invariant j <= i && forall k :: 0 <= k < j ==> !BlocksInEarnest(ruled[k], global)
        decreases i - j
      {
        j := j + 1;
      }
      assert FirstBlocked(ruled, global, j);
    }
  }

  // -------------------------------------------------------------- inline assets

  /** Leaf j is an HTML body that refers to leaf k's Content-ID. */
  predicate EmbedsFrom(decode: Decoder, root: Part, bodies: seq<Body>, j: nat, k: nat) {
    var atts := Leaves(root, "0", "");
    && j < |atts| == |bodies| && k < |atts|
    && IsHtmlBody(atts[j]) && bodies[j].Content? && atts[k].info.contentID in ContentIDs(decode, bodies[j].text)
  }

  /** An image that an HTML body of its own multipart/related embeds, small enough and not
      singled out by a rule, is never replaced, whatever the scan budgets cut off. */
  lemma EmbeddedImageKept(decode: Decoder, root: Part, bodies: seq<Body>, ruled: seq<Decision>, maxSize: int,
                          global: bool, out: MessageDecision, hs: seq<HtmlRefs>, k: nat, j: nat, c: Container)
    requires EmbedsFrom(decode, root, bodies, j, k)
    requires DecidedBy(decode, Leaves(root, "0", ""), bodies, ruled, maxSize, global, out, hs)
    requires var att := Leaves(root, "0", "")[k];
             att.inlineAsset && IMAGE <= att.info.detectedType && att.size <= maxSize && !ruled[k].inlineOptIn
    requires c in Containers(root, "0", "", 0) && ParentOf(c, Leaves(root, "0", "")[k], k) && c.lo <= j < c.hi
    ensures out.attachments[k].action != Replace
  {
    var atts, cs := Leaves(root, "0", ""), Containers(root, "0", "", 0);
    ContainersLocate(root, "0", "", 0);
    var m :| 0 <= m < |cs| && cs[m] == c;
    assert Locates(cs[m], atts, 0);
    assert IsWithinContainer(atts[j].path, c.path) by {
      assert c.lo <= 0 + j < c.hi;
    }
    assert EmbeddedIn(decode, atts[j], bodies[j], c.path, atts[k].info.contentID);
    BudgetsFailSafe(decode, hs, atts, bodies, c.path, atts[k].info.contentID);
    assert ConcludedAt(atts[k], ruled[k], maxSize, hs, global, out.attachments[k]);
  }

  /** And in a message within the scan budgets, an inline asset whose Content-ID no HTML body of
      its own multipart/related embeds gets no protection as one. */
  lemma UnembeddedNotProtected(decode: Decoder, root: Part, bodies: seq<Body>, d: Decision, maxSize: int,
                               hs: seq<HtmlRefs>, k: nat, c: Container)
    requires var atts := Leaves(root, "0", "");
             && |atts| == |bodies| && k < |atts| && Recorded(decode, hs, atts, bodies, |atts|) && NoneTruncated(hs)
    requires c in Containers(root, "0", "", 0) && ParentOf(c, Leaves(root, "0", "")[k], k)
    requires forall j: nat :: c.lo <= j < c.hi ==> !EmbedsFrom(decode, root, bodies, j, k)
    ensures !InlineProtected(Leaves(root, "0", "")[k], d, maxSize, hs)
  {
    var atts, cs := Leaves(root, "0", ""), Containers(root, "0", "", 0);
    var id := atts[k].info.contentID;
    ContainersLocate(root, "0", "", 0);
    var m :| 0 <= m < |cs| && cs[m] == c;
    assert Locates(cs[m], atts, 0);
    ContainersAreUnder(root, "0", "", 0);
    assert Under(cs[m].path, "0");
    BudgetsFailSafe(decode, hs, atts, bodies, c.path, id);
    if TrulyEmbedded(decode, atts, bodies, c.path, id) {
      var j: nat :| 0 <= j < |atts| && EmbeddedIn(decode, atts[j], bodies[j], c.path, id);
      assert c.lo <= 0 + j < c.hi;
      assert EmbedsFrom(decode, root, bodies, j, k);
    }
  }

  // ---------------------------------------------------------- link parameters

  const UNBOUNDED := Params(None, None, None)

  /** The parameters of the replacements among the first k decisions, merged. */
  function Merged(ds: seq<Decision>, k: nat): Params
    requires k <= |ds|
  {
    if k == 0 then UNBOUNDED
    else
      var m := Merged(ds, k - 1);
      if ds[k - 1].action == Replace then MostRestrictive(m, ds[k - 1].params) else m
  }

  /** The one set of parameters for all links of a message. */
  method WorstCaseReplaceParams(m: MessageDecision) returns (out: Params)
    ensures out == Merged(m.attachments, |m.attachments|)
  {
    out := UNBOUNDED;
    var first := true;
    var i := 0;
    while i < |m.attachments|
      invariant i <= |m.attachments| && out == Merged(m.attachments, i)
      invariant first ==> out == UNBOUNDED
    {
      var d := m.attachments[i];
      if d.action == Replace {
        if first {
          out, first := d.params, false;
        } else {
          out := MostRestrictive(out, d.params);
        }
      }
      i := i + 1;
    }
  }

  /** Every decision of every recipient about the attachments, among the first k, that are
      replaced in the end. */
  function Pairs(p: Policy, matches: Match, env: Envelope, atts: seq<Attachment>, finals: seq<Decision>, k: nat)
    : seq<Decision>
    requires k <= |atts| == |finals|
  {
    if k == 0 then []
    else
      Pairs(p, matches, env, atts, finals, k - 1)
      + if finals[k - 1].action == Replace
        then PerRecipient(p, matches, env.sender, env.recipients, atts[k - 1]) else []
  }

  /** The final decisions keep the parameters of the rulings they come from. */
  ghost predicate Carries(p: Policy, matches: Match, env: Envelope, atts: seq<Attachment>, finals: seq<Decision>) {
    && |finals| == |atts|
    && forall i :: 0 <= i < |atts| && finals[i].action == Replace ==>
         Ruled(p, matches, env, atts[i]).action == Replace
         && finals[i].params == Ruled(p, matches, env, atts[i]).params
  }

  /** Each bound on the message's links is the least that any recipient's decision sets for any
      attachment that is replaced in the end. */
  lemma {:induction false} MergedBound(p: Policy, matches: Match, env: Envelope, atts: seq<Attachment>,
                                       finals: seq<Decision>, k: nat, field: Field)
    requires Carries(p, matches, env, atts, finals) && k <= |atts| && Merges(field) && field(UNBOUNDED) == None
    ensures Least(field(Merged(finals, k)), Pairs(p, matches, env, atts, finals, k), field)
  {
    if k > 0 {
      MergedBound(p, matches, env, atts, finals, k - 1, field);
      var m := Merged(finals, k - 1);
      var before := Pairs(p, matches, env, atts, finals, k - 1);
      if finals[k - 1].action == Replace {
        var ds := PerRecipient(p, matches, env.sender, env.recipients, atts[k - 1]);
        WorstBound(ds, field);
        assert Combines(field, m, finals[k - 1].params);
        LeastTogether(field(m), before, field(Worst(ds).params), ds, field);
      } else {
        assert before + [] == before;
      }
    }
  }

  /** The chain's link parameters: for every bound, the least one set for what is replaced. */
  lemma FinalBounds(p: Policy, matches: Match, env: Envelope, atts: seq<Attachment>, ruled: seq<Decision>,
                    maxSize: int, hs: seq<HtmlRefs>, global: bool, finals: seq<Decision>)
    requires AllRuled(p, matches, env, atts, ruled) && Chained(atts, ruled, maxSize, hs, global, finals)
    ensures var pairs, m := Pairs(p, matches, env, atts, finals, |atts|), Merged(finals, |finals|);
            Least(m.ttl, pairs, Ttl) && Least(m.maxDownloads, pairs, MaxDownloads)
                && Least(m.retention, pairs, Retention)
  {
    assert Carries(p, matches, env, atts, finals);
    MergedBound(p, matches, env, atts, finals, |atts|, Ttl);
    MergedBound(p, matches, env, atts, finals, |atts|, MaxDownloads);
    MergedBound(p, matches, env, atts, finals, |atts|, Retention);
  }
}
