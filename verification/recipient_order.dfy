/** When the order of its recipients decides whether a message is rejected. */
module RecipientOrder {
  import opened Text
  import opened MimeTree
  import opened Rearranging
  import opened PolicyDecision
  import opened PipelineDecision

  // ----------------------------------------------------------- stances and orders

  /** What a recipient's decision is on an attachment: not to block it, to block it in a dry run
      only, or to block it in earnest. */
  datatype Stance = Indifferent | Dry | Earnest

  /** The stances of recipients on attachments, which are numbered. */
  type Stances = (string, nat) -> Stance

  /** The first recipient that blocks attachment i does so in earnest. */
  ghost predicate EarnestFirst(s: Stances, qs: seq<string>, i: nat) {
    exists k :: 0 <= k < |qs| && FirstBlocker(s, qs, i, k) && s(qs[k], i) == Earnest
  }

  ghost predicate FirstBlocker(s: Stances, qs: seq<string>, i: nat, k: nat)
    requires k < |qs|
  {
    s(qs[k], i) != Indifferent && forall j :: 0 <= j < k ==> s(qs[j], i) == Indifferent
  }

  /** With the recipients in this order, some attachment is blocked in earnest. */
  ghost predicate RejectedBy(s: Stances, n: nat, qs: seq<string>) {
    exists i: nat :: i < n && EarnestFirst(s, qs, i)
  }

  predicate Takes(s: Stances, r: string, i: nat, stance: Stance) {
    s(r, i) == stance
  }

  /** The recipient takes the stance on one of the attachments. */
  ghost predicate TakesIn(s: Stances, r: string, t: set<nat>, stance: Stance) {
    exists i :: i in t && Takes(s, r, i, stance)
  }

  ghost predicate BlocksIn(s: Stances, r: string, t: set<nat>) {
    TakesIn(s, r, t, Dry) || TakesIn(s, r, t, Earnest)
  }

  /** Some of these attachments are blocked, and nobody blocks any of them without blocking one of
      them in earnest. */
  ghost predicate Unavoidable(s: Stances, rs: seq<string>, t: set<nat>) {
    && (exists r :: r in rs && BlocksIn(s, r, t))
    && forall r :: r in rs && TakesIn(s, r, t, Dry) ==> TakesIn(s, r, t, Earnest)
  }

  ghost predicate Within(t: set<nat>, n: nat) {
    forall i :: i in t ==> i < n
  }

  /** Whoever comes first among those that block any of such attachments has one of them blocked
      in earnest. */
  lemma {:induction false} UnavoidableRejected(s: Stances, rs: seq<string>, t: set<nat>, n: nat)
    requires Unavoidable(s, rs, t) && Within(t, n)
    ensures RejectedBy(s, n, rs)
  {
    var r :| r in rs && BlocksIn(s, r, t);
    var m :| 0 <= m < |rs| && rs[m] == r;
    var k := FirstIn(s, rs, t, m);
    var i :| i in t && Takes(s, rs[k], i, Earnest);
    forall j | 0 <= j < k
      ensures s(rs[j], i) == Indifferent
    {
      assert !BlocksIn(s, rs[j], t);
      assert !Takes(s, rs[j], i, Dry) && !Takes(s, rs[j], i, Earnest);
    }
    assert FirstBlocker(s, rs, i, k);
    assert EarnestFirst(s, rs, i);
  }

  lemma {:induction false} FirstIn(s: Stances, rs: seq<string>, t: set<nat>, m: nat) returns (k: nat)
    requires m < |rs| && BlocksIn(s, rs[m], t)
    ensures k <= m && BlocksIn(s, rs[k], t)
    ensures forall j :: 0 <= j < k ==> !BlocksIn(s, rs[j], t)
  {
    k := 0;
    while !BlocksIn(s, rs[k], t)
      invariant k <= m && forall j :: 0 <= j < k ==> !BlocksIn(s, rs[j], t)
      decreases m - k
    {
      k := k + 1;
    }
  }

  ghost predicate BlockedBySome(s: Stances, rs: seq<string>, i: nat) {
    exists r :: r in rs && s(r, i) != Indifferent
  }

  /** The attachments in t that anyone blocks. */
  ghost function Blocked(s: Stances, rs: seq<string>, t: set<nat>): set<nat> {
    set i | i in t && BlockedBySome(s, rs, i)
  }

  /** Somebody blocks some of the attachments in a dry run and none of them in earnest. */
  lemma SomeoneDry(s: Stances, rs: seq<string>, t: set<nat>) returns (r: string)
    requires Blocked(s, rs, t) != {} && !Unavoidable(s, rs, Blocked(s, rs, t))
    ensures r in rs && TakesIn(s, r, Blocked(s, rs, t), Dry) && !TakesIn(s, r, Blocked(s, rs, t), Earnest)
  {
    var o := Blocked(s, rs, t);
    var i :| i in o;
    var x :| x in rs && s(x, i) != Indifferent;
    assert Takes(s, x, i, Dry) || Takes(s, x, i, Earnest);
    assert BlocksIn(s, x, o);
    r :| r in rs && TakesIn(s, r, o, Dry) && !TakesIn(s, r, o, Earnest);
  }

  /** Attachments nobody unavoidably rejects can all be first blocked in a dry run, if at all: put
      a recipient in front that blocks some of the open ones and none of them in earnest, then go
      on with those still open. */
  lemma {:induction false} Evaded(s: Stances, rs: seq<string>, t: set<nat>) returns (qs: seq<string>)
    requires forall u :: u <= t ==> !Unavoidable(s, rs, u)
    ensures Rearranged(rs, qs)
    ensures forall i :: i in t ==> !EarnestFirst(s, qs, i)
    decreases |rs|
  {
    var o := Blocked(s, rs, t);
    if o == {} {
      qs := rs;
      forall i | i in t
        ensures !EarnestFirst(s, qs, i)
      {
        assert i !in o;
        NobodyBlocks(s, rs, i);
      }
    } else {
      assert o <= t;
      var r := SomeoneDry(s, rs, t);
      var j :| 0 <= j < |rs| && rs[j] == r;
      var rest := ToFront(rs, j)[1..];
      FrontApart(rs, j);
      var open := set i | i in o && s(r, i) == Indifferent;
      forall u | u <= open
        ensures !Unavoidable(s, rest, u)
      {
        StillAvoidable(s, rs, rest, r, u);
      }
      var more := Evaded(s, rest, open);
      qs := [r] + more;
      SameMembers(rest, more);
      forall i | i in t
        ensures !EarnestFirst(s, qs, i)
      {
        EvadedStep(s, rs, r, more, t, i);
      }
    }
  }

  lemma NobodyBlocks(s: Stances, rs: seq<string>, i: nat)
    requires !BlockedBySome(s, rs, i)
    ensures !EarnestFirst(s, rs, i)
  {
    forall k | 0 <= k < |rs|
      ensures s(rs[k], i) == Indifferent
    {
      assert rs[k] in rs;
    }
  }

  lemma FrontApart(rs: seq<string>, j: nat)
    requires j < |rs|
    ensures var rest := ToFront(rs, j)[1..];
            && multiset(rs) == multiset{rs[j]} + multiset(rest)
            && forall x :: x in rs <==> x == rs[j] || x in rest
  {
    var front := ToFront(rs, j);
    ToFrontAt(rs, j, 0);
    ToFrontRearranges(rs, j);
    assert front == [rs[j]] + front[1..];
    SameMembers(rs, front);
  }

  lemma StillAvoidable(s: Stances, rs: seq<string>, rest: seq<string>, r: string, u: set<nat>)
    requires forall x :: x in rs <==> x == r || x in rest
    requires forall i :: i in u ==> s(r, i) == Indifferent
    requires !Unavoidable(s, rs, u)
    ensures !Unavoidable(s, rest, u)
  {
    assert !TakesIn(s, r, u, Dry);
  }

  lemma EvadedStep(s: Stances, rs: seq<string>, r: string, more: seq<string>, t: set<nat>, i: nat)
    requires i in t && r in rs && (forall x :: x in more ==> x in rs)
    requires !TakesIn(s, r, Blocked(s, rs, t), Earnest)
    requires i in Blocked(s, rs, t) && s(r, i) == Indifferent ==> !EarnestFirst(s, more, i)
    ensures !EarnestFirst(s, [r] + more, i)
  {
    var qs := [r] + more;
    forall k | 0 <= k < |qs| && FirstBlocker(s, qs, i, k)
      ensures s(qs[k], i) != Earnest
    {
      assert BlockedBySome(s, rs, i) by {
        assert qs[k] in rs;
      }
      if k == 0 {
        assert !Takes(s, r, i, Earnest);
      } else {
        assert qs[0] == r;
        LaterBlocker(s, r, more, i, k);
      }
    }
  }

  lemma LaterBlocker(s: Stances, r: string, more: seq<string>, i: nat, k: nat)
    requires 0 < k <= |more| && FirstBlocker(s, [r] + more, i, k)
    ensures FirstBlocker(s, more, i, k - 1)
  {
    var qs := [r] + more;
    assert qs[k] == more[k - 1];
    forall j | 0 <= j < k - 1
      ensures s(more[j], i) == Indifferent
    {
      assert qs[j + 1] == more[j];
    }
  }

  /** Every order rejects the message exactly when some of its attachments are blocked by somebody,
      and nobody blocks one of them in a dry run who does not block one of them in earnest. */
  lemma AlwaysRejected(s: Stances, n: nat, rs: seq<string>)
    ensures (forall qs :: Rearranged(rs, qs) ==> RejectedBy(s, n, qs))
            <==> exists t :: Within(t, n) && Unavoidable(s, rs, t)
  {
    if t :| Within(t, n) && Unavoidable(s, rs, t) {
      forall qs | Rearranged(rs, qs)
        ensures RejectedBy(s, n, qs)
      {
        SameMembers(rs, qs);
        StillUnavoidable(s, rs, qs, t);
        UnavoidableRejected(s, qs, t, n);
      }
    } else {
      var t := set i: nat | i < n && BlockedBySome(s, rs, i);
      assert Within(t, n);
      var qs := Evaded(s, rs, t);
      SameMembers(rs, qs);
      forall i: nat | i < n
        ensures !EarnestFirst(s, qs, i)
      {
        if i !in t {
          assert !BlockedBySome(s, qs, i);
          NobodyBlocks(s, qs, i);
        }
      }
    }
  }

  lemma StillUnavoidable(s: Stances, rs: seq<string>, qs: seq<string>, t: set<nat>)
    requires Unavoidable(s, rs, t) && forall x :: x in rs <==> x in qs
    ensures Unavoidable(s, qs, t)
  {}

  ghost predicate SomeEarnest(s: Stances, n: nat, rs: seq<string>) {
    exists r, i: nat :: r in rs && i < n && Takes(s, r, i, Earnest)
  }

  /** Some order rejects the message exactly when somebody blocks an attachment in earnest. */
  lemma SometimesRejected(s: Stances, n: nat, rs: seq<string>)
    ensures (exists qs :: Rearranged(rs, qs) && RejectedBy(s, n, qs)) <==> SomeEarnest(s, n, rs)
  {
    if r, i: nat :| r in rs && i < n && Takes(s, r, i, Earnest) {
      var j :| 0 <= j < |rs| && rs[j] == r;
      var qs := ToFront(rs, j);
      ToFrontRearranges(rs, j);
      ToFrontAt(rs, j, 0);
      assert FirstBlocker(s, qs, i, 0);
      assert EarnestFirst(s, qs, i);
      assert RejectedBy(s, n, qs);
    }
    forall qs | Rearranged(rs, qs) && RejectedBy(s, n, qs)
      ensures SomeEarnest(s, n, rs)
    {
      SameMembers(rs, qs);
      var i: nat :| i < n && EarnestFirst(s, qs, i);
      var k :| 0 <= k < |qs| && FirstBlocker(s, qs, i, k) && s(qs[k], i) == Earnest;
      assert qs[k] in rs && Takes(s, qs[k], i, Earnest);
    }
  }

  /** Agreement on each attachment by itself is not needed: two recipients that each block in
      earnest what the other blocks in a dry run have the message rejected in either order. */
  lemma CrosswiseRejected(s: Stances, n: nat, a: string, b: string, qs: seq<string>)
    requires n >= 2 && Rearranged([a, b], qs)
    requires s(a, 0) == Dry && s(b, 0) == Earnest && s(a, 1) == Earnest && s(b, 1) == Dry
    ensures RejectedBy(s, n, qs)
  {
    var rs, t: set<nat> := [a, b], {0, 1};
    SameMembers(rs, qs);
    assert rs[0] == a && rs[1] == b;
    assert Takes(s, a, 1, Earnest) && Takes(s, b, 0, Earnest);
    assert TakesIn(s, a, t, Earnest) && TakesIn(s, b, t, Earnest);
    assert a in rs && BlocksIn(s, a, t);
    StillUnavoidable(s, rs, qs, t);
    UnavoidableRejected(s, qs, t, n);
  }

  // ------------------------------------------------------------------ a message

  /** Who is decided for: a message without recipients has one nameless one. */
  function Addressees(recipients: seq<string>): seq<string> {
    if recipients == [] then [""] else recipients
  }

  function StanceOf(d: Decision, global: bool): Stance {
    if d.action != Block then Indifferent else if EffectiveDryRun(d, global) then Dry else Earnest
  }

  /** The stances that a policy gives the recipients of a sender's message. */
  function StancesOf(p: Policy, matches: Match, sender: string, atts: seq<Attachment>, global: bool): Stances {
    (r: string, i: nat) =>
      if i < |atts| then StanceOf(OneDecision(p, matches, sender, r, atts[i]), global) else Indifferent
  }

  /** The message is rejected: some attachment's ruling blocks in earnest. */
  ghost predicate Rejected(p: Policy, matches: Match, env: Envelope, atts: seq<Attachment>, global: bool) {
    exists i :: 0 <= i < |atts| && BlocksInEarnest(Ruled(p, matches, env, atts[i]), global)
  }

  lemma BlockedInEarnest(p: Policy, matches: Match, env: Envelope, atts: seq<Attachment>, global: bool, i: nat)
    requires i < |atts|
    ensures BlocksInEarnest(Ruled(p, matches, env, atts[i]), global)
            <==> EarnestFirst(StancesOf(p, matches, env.sender, atts, global), Addressees(env.recipients), i)
  {
    var s, rs := StancesOf(p, matches, env.sender, atts, global), Addressees(env.recipients);
    var ds := PerRecipient(p, matches, env.sender, env.recipients, atts[i]);
    var w := WorstIsStrongest(ds);
    assert forall k :: 0 <= k < |rs| ==> s(rs[k], i) == StanceOf(ds[k], global);
    if Worst(ds).action == Block {
      assert FirstBlocker(s, rs, i, w);
      forall k | 0 <= k < |rs| && FirstBlocker(s, rs, i, k)
        ensures k == w
      {
        assert s(rs[k], i) != Indifferent && s(rs[w], i) != Indifferent;
      }
    } else {
      forall k | 0 <= k < |rs|
        ensures s(rs[k], i) == Indifferent
      {
        assert Strength(ds[k].action) <= Strength(Worst(ds).action);
      }
    }
  }

  lemma RejectedIs(p: Policy, matches: Match, env: Envelope, atts: seq<Attachment>, global: bool)
    ensures Rejected(p, matches, env, atts, global)
            <==> RejectedBy(StancesOf(p, matches, env.sender, atts, global), |atts|, Addressees(env.recipients))
  {
    var s, rs := StancesOf(p, matches, env.sender, atts, global), Addressees(env.recipients);
    forall i: nat | i < |atts|
      ensures BlocksInEarnest(Ruled(p, matches, env, atts[i]), global) <==> EarnestFirst(s, rs, i)
    {
      BlockedInEarnest(p, matches, env, atts, global, i);
    }
    if RejectedBy(s, |atts|, rs) {
      var i: nat :| i < |atts| && EarnestFirst(s, rs, i);
      assert BlocksInEarnest(Ruled(p, matches, env, atts[i]), global);
    }
    if Rejected(p, matches, env, atts, global) {
      var i :| 0 <= i < |atts| && BlocksInEarnest(Ruled(p, matches, env, atts[i]), global);
      assert EarnestFirst(s, rs, i);
    }
  }

  lemma OneNameless(qs: seq<string>)
    requires Rearranged([""], qs)
    ensures qs == [""]
  {
    assert |qs| == |multiset(qs)| == 1;
    assert qs[0] in multiset(qs);
  }

  /** The orders of the addressees are those of the recipients. */
  lemma SameOrders(rs: seq<string>, qs: seq<string>)
    ensures Rearranged(rs, qs) ==> Rearranged(Addressees(rs), Addressees(qs))
    ensures Rearranged(Addressees(rs), qs) ==>
              exists order :: Rearranged(rs, order) && Addressees(order) == qs
  {
    if Rearranged(rs, qs) {
      assert |multiset(rs)| == |rs| && |multiset(qs)| == |qs|;
    }
    if Rearranged(Addressees(rs), qs) {
      if rs == [] {
        OneNameless(qs);
        assert Rearranged(rs, []) && Addressees([]) == qs;
      } else {
        assert |multiset(rs)| == |rs| && |multiset(qs)| == |qs|;
        assert Rearranged(rs, qs) && Addressees(qs) == qs;
      }
    }
  }

  ghost predicate RejectedFor(p: Policy, matches: Match, env: Envelope, atts: seq<Attachment>, global: bool,
                              qs: seq<string>)
  {
    Rejected(p, matches, env.(recipients := qs), atts, global)
  }

  /** A message is rejected in every order of its recipients exactly when some of its attachments
      are blocked for somebody, and nobody has one of them blocked in a dry run without having one
      of them blocked in earnest; and in some order exactly when somebody has one blocked in
      earnest. */
  lemma RejectionByOrder(p: Policy, matches: Match, env: Envelope, atts: seq<Attachment>, global: bool)
    ensures var s, rs := StancesOf(p, matches, env.sender, atts, global), Addressees(env.recipients);
            && ((forall qs :: Rearranged(env.recipients, qs) ==> RejectedFor(p, matches, env, atts, global, qs))
                <==> exists t :: Within(t, |atts|) && Unavoidable(s, rs, t))
            && ((exists qs :: Rearranged(env.recipients, qs) && RejectedFor(p, matches, env, atts, global, qs))
                <==> SomeEarnest(s, |atts|, rs))
  {
    var s, rs := StancesOf(p, matches, env.sender, atts, global), Addressees(env.recipients);
    AlwaysRejected(s, |atts|, rs);
    SometimesRejected(s, |atts|, rs);
    forall qs | Rearranged(env.recipients, qs)
      ensures Rearranged(rs, Addressees(qs))
      ensures RejectedFor(p, matches, env, atts, global, qs) <==> RejectedBy(s, |atts|, Addressees(qs))
    {
      SameOrders(env.recipients, qs);
      RejectedIs(p, matches, env.(recipients := qs), atts, global);
    }
    forall qs | Rearranged(rs, qs)
      ensures exists order :: Rearranged(env.recipients, order) && Addressees(order) == qs
    {
      SameOrders(env.recipients, qs);
    }
  }

  /** So the order of the recipients never decides whether a message is rejected exactly when
      nobody has an attachment blocked in earnest, or it is rejected in every order. */
  lemma RejectionOrderExactly(p: Policy, matches: Match, env: Envelope, atts: seq<Attachment>, global: bool)
    ensures var s, rs := StancesOf(p, matches, env.sender, atts, global), Addressees(env.recipients);
            (forall qs :: Rearranged(env.recipients, qs) ==>
               (RejectedFor(p, matches, env, atts, global, qs) <==> Rejected(p, matches, env, atts, global)))
            <==> !SomeEarnest(s, |atts|, rs) || exists t :: Within(t, |atts|) && Unavoidable(s, rs, t)
  {
    RejectionByOrder(p, matches, env, atts, global);
    assert Rearranged(env.recipients, env.recipients);
    assert RejectedFor(p, matches, env, atts, global, env.recipients) <==> Rejected(p, matches, env, atts, global);
  }

  // --------------------------------------------------------------- one attachment

  predicate BothBlock(a: Decision, b: Decision, global: bool) {
    a.action == Block && b.action == Block && EffectiveDryRun(a, global) != EffectiveDryRun(b, global)
  }

  /** The recipients for whom an attachment is blocked agree on whether that runs dry. */
  ghost predicate BlockersAgree(ds: seq<Decision>, global: bool) {
    forall i, j :: 0 <= i < |ds| && 0 <= j < |ds| ==> !BothBlock(ds[i], ds[j], global)
  }

  lemma BlockersAllAgree(ds: seq<Decision>, global: bool)
    requires ds != []
    ensures BlockersAgree(ds, global)
            <==> Worst(ds).action != Block || AllAgree(ds, global, EffectiveDryRun(Worst(ds), global))
  {
    var dry := EffectiveDryRun(Worst(ds), global);
    var w := WorstIsStrongest(ds);
    if Worst(ds).action == Block && BlockersAgree(ds, global) {
      forall j | 0 <= j < |ds|
        ensures TopAgrees(ds, global, dry, j)
      {
        assert !BothBlock(ds[w], ds[j], global);
      }
    }
    if Worst(ds).action == Block && AllAgree(ds, global, dry) {
      forall i, j | 0 <= i < |ds| && 0 <= j < |ds|
        ensures !BothBlock(ds[i], ds[j], global)
      {
        assert TopAgrees(ds, global, dry, i) && TopAgrees(ds, global, dry, j);
      }
    }
  }

  /** For a message with one attachment: whether that is rejected is the same for every order of
      the recipients exactly when those for whom it is blocked agree on whether that runs dry. */
  lemma RejectionOrder(p: Policy, matches: Match, env: Envelope, att: Attachment, global: bool)
    ensures (forall qs :: Rearranged(env.recipients, qs) ==>
               (BlocksInEarnest(Ruled(p, matches, env.(recipients := qs), att), global)
                <==> BlocksInEarnest(Ruled(p, matches, env, att), global)))
            <==> BlockersAgree(PerRecipient(p, matches, env.sender, env.recipients, att), global)
  {
    var rs := env.recipients;
    var ds := PerRecipient(p, matches, env.sender, rs, att);
    RecipientDryRunOrder(p, matches, env.sender, rs, att, global);
    BlockersAllAgree(ds, global);
    forall qs | Rearranged(rs, qs)
      ensures Ruled(p, matches, env.(recipients := qs), att).action == Worst(ds).action
    {
      SameMembers(rs, qs);
      RecipientOrderIrrelevant(p, matches, env.sender, rs, qs, att);
    }
  }

  /** A condition that holds for the recipient a rule is named after. */
  function ByRecipient(): Match {
    (rule: Rule, sender: string, recipient: string, att: Attachment) => rule.name == recipient
  }

  /** Blocks for recipient a in a dry run only, and for recipient b in earnest. */
  function MixedPolicy(): Policy {
    var none := Params(None, None, None);
    Policy([Rule("a", false, false, Spec(Block, none, "", Some(true))),
            Rule("b", false, false, Spec(Block, none, "", Some(false)))],
           Spec(Pass, none, "", None))
  }

  /** The order can decide: of the two recipients the first one's rule says whether the message is
      rejected. */
  lemma OrderDecides(sender: string, att: Attachment, global: bool)
    ensures !BlocksInEarnest(Ruled(MixedPolicy(), ByRecipient(), Envelope(sender, ["a", "b"]), att), global)
    ensures BlocksInEarnest(Ruled(MixedPolicy(), ByRecipient(), Envelope(sender, ["b", "a"]), att), global)
  {
    var p, matches := MixedPolicy(), ByRecipient();
    assert "a"[0] != "b"[0];
    OneDecisionIs(p, matches, sender, "a", att, 0);
    OneDecisionIs(p, matches, sender, "b", att, 1);
    var ds := PerRecipient(p, matches, sender, ["a", "b"], att);
    var es := PerRecipient(p, matches, sender, ["b", "a"], att);
    assert ds[0] == es[1] == Outcome(p, 0) && ds[1] == es[0] == Outcome(p, 1);
    assert ds[..1] == [ds[0]] && es[..1] == [es[0]];
    assert Worst(ds) == Stronger(ds[0], ds[1]) && Worst(es) == Stronger(es[0], es[1]);
    assert Ruled(p, matches, Envelope(sender, ["a", "b"]), att) == Worst(ds);
    assert Ruled(p, matches, Envelope(sender, ["b", "a"]), att) == Worst(es);
  }
}
