/** Policy decisions: the first matching rule, the worst case over recipients, and the message's
    action. */
module PolicyDecision {
  import opened Text
  import opened MimeTree
  import opened Rearranging

  datatype Action = NoAction | Pass | Replace | Block

  /** How severe an action is. */
  function Strength(a: Action): nat {
    match a
    case NoAction => 0
    case Pass => 1
    case Replace => 2
    case Block => 3
  }

  /** Link parameters of a replacement; None is unbounded. */
  datatype Params = Params(ttl: Option<int>, maxDownloads: Option<int>, retention: Option<int>)

  datatype Spec = Spec(action: Action, params: Params, reason: string, dryRun: Option<bool>)

  /** A rule. selective tells whether its condition names a disposition. */
  datatype Rule = Rule(name: string, disabled: bool, selective: bool, outcome: Spec)

  datatype Policy = Policy(rules: seq<Rule>, otherwise: Spec)

  /** Whether a rule's condition matches. */
  type Match = (Rule, string, string, Attachment) -> bool

  datatype Decision =
    Decision(action: Action, ruleName: string, params: Params, reason: string, dryRun: Option<bool>, inlineOptIn: bool)

  // -------------------------------------------------------------- one recipient

  predicate Applies(rule: Rule, matches: Match, sender: string, recipient: string, att: Attachment) {
    !rule.disabled && matches(rule, sender, recipient, att)
  }

  /** Rule i is the first enabled one that matches; i is the number of rules if there is none. */
  ghost predicate FirstApplies(p: Policy, matches: Match, sender: string, recipient: string, att: Attachment, i: nat) {
    && i <= |p.rules|
    && (i < |p.rules| ==> Applies(p.rules[i], matches, sender, recipient, att))
    && forall j :: 0 <= j < i ==> !Applies(p.rules[j], matches, sender, recipient, att)
  }

  /** The decision says what is specified. */
  predicate Follows(d: Decision, s: Spec) {
    d.action == s.action && d.params == s.params && d.reason == s.reason && d.dryRun == s.dryRun
  }

  function Outcome(p: Policy, i: nat): Decision
    requires i <= |p.rules|
  {
    if i == |p.rules| then
      Decision(p.otherwise.action, "", p.otherwise.params, p.otherwise.reason, p.otherwise.dryRun, false)
    else
      var r := p.rules[i];
      Decision(r.outcome.action, r.name, r.outcome.params, r.outcome.reason, r.outcome.dryRun, r.selective)
  }

  function FirstFrom(p: Policy, matches: Match, sender: string, recipient: string, att: Attachment, i: nat): (r: nat)
    requires i <= |p.rules|
    requires forall j :: 0 <= j < i ==> !Applies(p.rules[j], matches, sender, recipient, att)
    ensures FirstApplies(p, matches, sender, recipient, att, r)
    decreases |p.rules| - i
  {
    if i == |p.rules| || Applies(p.rules[i], matches, sender, recipient, att) then i
    else FirstFrom(p, matches, sender, recipient, att, i + 1)
  }

  function OneDecision(p: Policy, matches: Match, sender: string, recipient: string, att: Attachment): Decision {
    Outcome(p, FirstFrom(p, matches, sender, recipient, att, 0))
  }

  lemma OneDecisionIs(p: Policy, matches: Match, sender: string, recipient: string, att: Attachment, i: nat)
    requires FirstApplies(p, matches, sender, recipient, att, i)
    ensures OneDecision(p, matches, sender, recipient, att) == Outcome(p, i)
  {
    var j := FirstFrom(p, matches, sender, recipient, att, 0);
    assert FirstApplies(p, matches, sender, recipient, att, j);
  }

  /** The first rule that is enabled and matches wins, and without one the default. */
  lemma FirstMatchWins(p: Policy, matches: Match, sender: string, recipient: string, att: Attachment, i: nat)
    requires i <= |p.rules|
    requires forall j :: 0 <= j < i ==> p.rules[j].disabled || !matches(p.rules[j], sender, recipient, att)
    requires i < |p.rules| ==> !p.rules[i].disabled && matches(p.rules[i], sender, recipient, att)
    ensures var d := OneDecision(p, matches, sender, recipient, att);
            if i < |p.rules| then
              && Follows(d, p.rules[i].outcome)
              && d.ruleName == p.rules[i].name && d.inlineOptIn == p.rules[i].selective
            else Follows(d, p.otherwise) && d.ruleName == "" && !d.inlineOptIn
  {
    assert FirstApplies(p, matches, sender, recipient, att, i);
    OneDecisionIs(p, matches, sender, recipient, att, i);
  }

  method DecideOne(p: Policy, matches: Match, sender: string, recipient: string, att: Attachment) returns (d: Decision)
    ensures forall i :: FirstApplies(p, matches, sender, recipient, att, i) ==> d == Outcome(p, i)
    ensures d == OneDecision(p, matches, sender, recipient, att)
    ensures forall i: nat :: FirstApplies(p, matches, sender, recipient, att, i) ==>
              if i < |p.rules| then
                && Follows(d, p.rules[i].outcome)
                && d.ruleName == p.rules[i].name && d.inlineOptIn == p.rules[i].selective
              else Follows(d, p.otherwise) && d.ruleName == "" && !d.inlineOptIn
  {
    var i := 0;
    while i < |p.rules|
      invariant i <= |p.rules|
      invariant forall j :: 0 <= j < i ==> !Applies(p.rules[j], matches, sender, recipient, att)
    {
      var r := p.rules[i];
      if !r.disabled {
        if matches(r, sender, recipient, att) {
          assert FirstApplies(p, matches, sender, recipient, att, i);
          return Decision(r.outcome.action, r.name, r.outcome.params, r.outcome.reason, r.outcome.dryRun, r.selective);
        }
      }
      i := i + 1;
    }
    assert FirstApplies(p, matches, sender, recipient, att, i);
    return Decision(p.otherwise.action, "", p.otherwise.params, p.otherwise.reason, p.otherwise.dryRun, false);
  }

  // --------------------------------------------------------------- worst case

  function Tighter(a: Option<int>, b: Option<int>): Option<int> {
    match (a, b)
    case (None, _) => b
    case (_, None) => a
    case (Some(x), Some(y)) => if x <= y then a else b
  }

  function MostRestrictive(a: Params, b: Params): Params {
    Params(Tighter(a.ttl, b.ttl), Tighter(a.maxDownloads, b.maxDownloads), Tighter(a.retention, b.retention))
  }

  function Stronger(a: Decision, b: Decision): Decision {
    if Strength(b.action) > Strength(a.action) then b
    else if Strength(a.action) > Strength(b.action) then a
    else if a.action == Replace then
      a.(params := MostRestrictive(a.params, b.params), inlineOptIn := a.inlineOptIn || b.inlineOptIn)
    else a
  }

  /** The worst of the decisions, taken one after the other. */
  function Worst(ds: seq<Decision>): Decision
    requires ds != []
  {
    if |ds| == 1 then ds[0] else Stronger(Worst(ds[..|ds| - 1]), ds[|ds| - 1])
  }

  ghost predicate SomeHas(ds: seq<Decision>, a: Action) {
    exists i :: 0 <= i < |ds| && ds[i].action == a
  }

  /** What decisions come to: one block blocks, otherwise one replacement replaces, otherwise one
      pass passes, and without any of these it is as given. */
  ghost function Severest(ds: seq<Decision>, otherwise: Action): Action {
    if SomeHas(ds, Block) then Block
    else if SomeHas(ds, Replace) then Replace
    else if SomeHas(ds, Pass) then Pass
    else otherwise
  }

  /** The strongest action is the severest. */
  lemma StrongestIsSeverest(ds: seq<Decision>, otherwise: Action, a: Action)
    requires otherwise in {NoAction, Pass} && Strength(otherwise) <= Strength(a)
    requires forall i :: 0 <= i < |ds| ==> Strength(ds[i].action) <= Strength(a)
    requires a == otherwise || SomeHas(ds, a)
    ensures a == Severest(ds, otherwise)
  {}

  /** The decisions of each recipient; a message without recipients has one nameless one. */
  function PerRecipient(p: Policy, matches: Match, sender: string, recipients: seq<string>, att: Attachment)
    : (ds: seq<Decision>)
    ensures |ds| == if recipients == [] then 1 else |recipients|
  {
    var rs := if recipients == [] then [""] else recipients;
    seq(|rs|, i requires 0 <= i < |rs| => OneDecision(p, matches, sender, rs[i], att))
  }

  method DecideAttachment(p: Policy, matches: Match, sender: string, recipients: seq<string>, att: Attachment)
    returns (d: Decision)
    ensures d == Worst(PerRecipient(p, matches, sender, recipients, att))
    ensures d.action == Severest(PerRecipient(p, matches, sender, recipients, att), NoAction)
  {
    var rs := if |recipients| == 0 then [""] else recipients;
    ghost var ds := PerRecipient(p, matches, sender, recipients, att);
    d := DecideOne(p, matches, sender, rs[0], att);
    var i := 1;
    while i < |rs|
      invariant 1 <= i <= |rs| && d == Worst(ds[..i])
    {
      var next := DecideOne(p, matches, sender, rs[i], att);
      assert ds[..i + 1][..i] == ds[..i];
      d := Stronger(d, next);
      i := i + 1;
    }
    assert ds[..|rs|] == ds;
    var first := WorstIsSeverest(ds);
  }

  // ------------------------------------------------- what the worst case means

  /** d has the strongest action in ds, and the first of those decisions gave it its rule name,
      reason and dry-run setting. */
  ghost predicate FirstStrongest(ds: seq<Decision>, d: Decision, i: nat) {
    && i < |ds| && ds[i].action == d.action
    && ds[i].ruleName == d.ruleName && ds[i].reason == d.reason && ds[i].dryRun == d.dryRun
    && (forall j :: 0 <= j < i ==> Strength(ds[j].action) < Strength(d.action))
    && forall j :: 0 <= j < |ds| ==> Strength(ds[j].action) <= Strength(d.action)
  }

  lemma {:induction false} WorstIsStrongest(ds: seq<Decision>) returns (i: nat)
    requires ds != []
    ensures FirstStrongest(ds, Worst(ds), i)
  {
    if |ds| == 1 {
      i := 0;
    } else {
      i := WorstIsStrongest(ds[..|ds| - 1]);
      if Strength(ds[|ds| - 1].action) > Strength(ds[i].action) {
        i := |ds| - 1;
      }
    }
  }

  /** The worst case is what the decisions come to, and the first decision with its action gave it
      its rule name, reason and dry-run setting. */
  lemma WorstIsSeverest(ds: seq<Decision>) returns (i: nat)
    requires ds != []
    ensures Worst(ds).action == Severest(ds, NoAction)
    ensures i < |ds| && ds[i].action == Worst(ds).action && forall j :: 0 <= j < i ==> ds[j].action != ds[i].action
    ensures ds[i].ruleName == Worst(ds).ruleName && ds[i].reason == Worst(ds).reason
    ensures ds[i].dryRun == Worst(ds).dryRun
  {
    i := WorstIsStrongest(ds);
    StrongestIsSeverest(ds, NoAction, Worst(ds).action);
  }

  /** One of the bounds a decision carries. */
  type Field = Params -> Option<int>

  predicate Bounds(field: Field, d: Decision) {
    d.action == Replace && field(d.params).Some?
  }

  /** o is the least bound that the replacements in ds set, and unbounded if none does. */
  ghost predicate Least(o: Option<int>, ds: seq<Decision>, field: Field) {
    match o
    case None => forall d :: d in ds ==> !Bounds(field, d)
    case Some(v) =>
      && (exists d :: d in ds && Bounds(field, d) && field(d.params).value == v)
      && forall d :: d in ds && Bounds(field, d) ==> v <= field(d.params).value
  }

  lemma LeastUnique(a: Option<int>, ds: seq<Decision>, b: Option<int>, es: seq<Decision>, field: Field)
    requires Least(a, ds, field) && Least(b, es, field) && forall d :: d in ds <==> d in es
    ensures a == b
  {
    if a.Some? {
      var d :| d in ds && Bounds(field, d) && field(d.params).value == a.value;
      assert d in es && Bounds(field, d);
    }
    if b.Some? {
      var d :| d in es && Bounds(field, d) && field(d.params).value == b.value;
      assert d in ds && Bounds(field, d);
    }
  }

  function BoundOf(field: Field, d: Decision): Option<int> {
    if d.action == Replace then field(d.params) else None
  }

  lemma LeastOfOne(d: Decision, field: Field)
    ensures Least(BoundOf(field, d), [d], field)
  {
    if Bounds(field, d) {
      assert d in [d];
    }
  }

  lemma LeastTogether(a: Option<int>, ds: seq<Decision>, b: Option<int>, es: seq<Decision>, field: Field)
    requires Least(a, ds, field) && Least(b, es, field)
    ensures Least(Tighter(a, b), ds + es, field)
  {
    var all := ds + es;
    assert forall d :: d in all <==> d in ds || d in es;
    if a.Some? {
      var d :| d in ds && Bounds(field, d) && field(d.params).value == a.value;
      assert d in all;
    }
    if b.Some? {
      var d :| d in es && Bounds(field, d) && field(d.params).value == b.value;
      assert d in all;
    }
  }

  predicate Combines(field: Field, a: Params, b: Params) {
    field(MostRestrictive(a, b)) == Tighter(field(a), field(b))
  }

  /** Merging combines the field: the tighter of the two. */
  ghost predicate Merges(field: Field) {
    forall a, b :: Combines(field, a, b)
  }

  /** If the worst case is a replacement, each of its bounds is the least any recipient's
      replacement sets. */
  lemma {:induction false} WorstBound(ds: seq<Decision>, field: Field)
    requires ds != [] && Worst(ds).action == Replace && Merges(field)
    ensures Least(field(Worst(ds).params), ds, field)
  {
    var front, d := ds[..|ds| - 1], ds[|ds| - 1];
    assert ds == front + [d];
    LeastOfOne(d, field);
    if front != [] {
      var w := Worst(front);
      var i := WorstIsStrongest(front);
      assert Combines(field, w.params, d.params);
      if w.action == Replace {
        WorstBound(front, field);
      }
      assert Least(BoundOf(field, w), front, field);
      LeastTogether(BoundOf(field, w), front, BoundOf(field, d), [d], field);
    }
  }

  function Ttl(p: Params): Option<int> { p.ttl }

  function MaxDownloads(p: Params): Option<int> { p.maxDownloads }

  function Retention(p: Params): Option<int> { p.retention }

  predicate OptsIn(d: Decision) {
    d.action == Replace && d.inlineOptIn
  }

  ghost predicate SomeOptsIn(ds: seq<Decision>) {
    exists d :: d in ds && OptsIn(d)
  }

  lemma {:induction false} WorstOptsIn(ds: seq<Decision>)
    requires ds != [] && Worst(ds).action == Replace
    ensures Worst(ds).inlineOptIn <==> SomeOptsIn(ds)
  {
    if |ds| == 1 {
      if ds[0].inlineOptIn {
        assert OptsIn(ds[0]);
      }
    } else {
      var front, d := ds[..|ds| - 1], ds[|ds| - 1];
      assert ds == front + [d];
      var i := WorstIsStrongest(front);
      if Worst(front).action == Replace {
        WorstOptsIn(front);
      }
      if SomeOptsIn(front) {
        var x :| x in front && OptsIn(x);
        assert x in ds;
      }
      if OptsIn(d) {
        assert d in ds;
      }
    }
  }

  /** Neither the order of the decisions nor their repetition matters for the action, nor for a
      replacement's parameters and opt-in. */
  lemma OrderIrrelevant(ds: seq<Decision>, es: seq<Decision>)
    requires ds != [] && es != [] && forall d :: d in ds <==> d in es
    ensures Worst(ds).action == Worst(es).action
    ensures Worst(ds).action == Replace ==>
              Worst(ds).params == Worst(es).params && Worst(ds).inlineOptIn == Worst(es).inlineOptIn
  {
    var i := WorstIsStrongest(ds);
    var j := WorstIsStrongest(es);
    assert ds[i] in es && es[j] in ds;
    assert Strength(Worst(ds).action) == Strength(Worst(es).action);
    if Worst(ds).action == Replace {
      SameBound(ds, es, Ttl);
      SameBound(ds, es, MaxDownloads);
      SameBound(ds, es, Retention);
      WorstOptsIn(ds);
      WorstOptsIn(es);
    }
  }

  lemma SameBound(ds: seq<Decision>, es: seq<Decision>, field: Field)
    requires ds != [] && es != [] && Worst(ds).action == Replace && Worst(es).action == Replace && Merges(field)
    requires forall d :: d in ds <==> d in es
    ensures field(Worst(ds).params) == field(Worst(es).params)
  {
    WorstBound(ds, field);
    WorstBound(es, field);
    LeastUnique(field(Worst(ds).params), ds, field(Worst(es).params), es, field);
  }

  lemma NoneIn(rs: seq<string>, qs: seq<string>)
    requires forall r :: r in rs <==> r in qs
    ensures rs == [] <==> qs == []
  {
    if rs != [] {
      assert rs[0] in qs;
    }
    if qs != [] {
      assert qs[0] in rs;
    }
  }

  /** The same recipients get the same decisions. */
  lemma SameDecisions(p: Policy, matches: Match, sender: string, rs: seq<string>, qs: seq<string>, att: Attachment)
    requires forall r :: r in rs <==> r in qs
    ensures var ds, es := PerRecipient(p, matches, sender, rs, att), PerRecipient(p, matches, sender, qs, att);
            forall d :: d in ds <==> d in es
  {
    var ds, es := PerRecipient(p, matches, sender, rs, att), PerRecipient(p, matches, sender, qs, att);
    NoneIn(rs, qs);
    if rs != [] {
      forall d
        ensures d in ds <==> d in es
      {
        if d in ds {
          var i :| 0 <= i < |ds| && ds[i] == d;
          assert rs[i] in qs;
          var j :| 0 <= j < |qs| && qs[j] == rs[i];
          assert es[j] == d;
        }
        if d in es {
          var i :| 0 <= i < |es| && es[i] == d;
          assert qs[i] in rs;
          var j :| 0 <= j < |rs| && rs[j] == qs[i];
          assert ds[j] == d;
        }
      }
    }
  }

  /** For a given attachment the recipients' order does not matter either. */
  lemma RecipientOrderIrrelevant(p: Policy, matches: Match, sender: string, rs: seq<string>, qs: seq<string>,
                                 att: Attachment)
    requires forall r :: r in rs <==> r in qs
    ensures var a := Worst(PerRecipient(p, matches, sender, rs, att));
            var b := Worst(PerRecipient(p, matches, sender, qs, att));
            && a.action == b.action
            && (a.action == Replace ==> a.params == b.params && a.inlineOptIn == b.inlineOptIn)
  {
    SameDecisions(p, matches, sender, rs, qs, att);
    OrderIrrelevant(PerRecipient(p, matches, sender, rs, att), PerRecipient(p, matches, sender, qs, att));
  }

  // --------------------------------------------------------------- dry run

  /** A decision's own setting wins over the global one. */
  function EffectiveDryRun(d: Decision, global: bool): bool {
    if d.dryRun.Some? then d.dryRun.value else global
  }

  predicate TopAgrees(ds: seq<Decision>, global: bool, dry: bool, j: nat)
    requires ds != [] && j < |ds|
  {
    ds[j].action == Worst(ds).action ==> EffectiveDryRun(ds[j], global) == dry
  }

  ghost predicate AllAgree(ds: seq<Decision>, global: bool, dry: bool)
    requires ds != []
  {
    forall j :: 0 <= j < |ds| ==> TopAgrees(ds, global, dry, j)
  }

  lemma AgreeingStays(ds: seq<Decision>, es: seq<Decision>, global: bool, dry: bool)
    requires ds != [] && es != [] && (forall d :: d in ds <==> d in es) && AllAgree(ds, global, dry)
    ensures EffectiveDryRun(Worst(es), global) == dry
  {
    OrderIrrelevant(ds, es);
    var i := WorstIsStrongest(es);
    assert es[i] in ds;
    var j :| 0 <= j < |ds| && ds[j] == es[i];
    assert TopAgrees(ds, global, dry, j);
  }

  /** With a strongest decision in front, its setting counts. */
  lemma FrontCounts(ds: seq<Decision>, j: nat, global: bool)
    requires j < |ds| && ds[j].action == Worst(ds).action
    ensures EffectiveDryRun(Worst(ToFront(ds, j)), global) == EffectiveDryRun(ds[j], global)
  {
    var es := ToFront(ds, j);
    ToFrontRearranges(ds, j);
    SameMembers(ds, es);
    OrderIrrelevant(ds, es);
    var i := WorstIsStrongest(es);
    assert es[0] == ds[j];
    assert i == 0;
  }

  ghost predicate OrderKeeps(ds: seq<Decision>, global: bool)
    requires ds != []
  {
    forall es :: es != [] && Rearranged(ds, es) ==>
      EffectiveDryRun(Worst(es), global) == EffectiveDryRun(Worst(ds), global)
  }

  /** Whether the worst case runs dry is the one part of the outcome that recipient order can
      change: it never does exactly when all decisions with the strongest action agree on it. */
  lemma DryRunOrder(ds: seq<Decision>, global: bool)
    requires ds != []
    ensures OrderKeeps(ds, global) <==> AllAgree(ds, global, EffectiveDryRun(Worst(ds), global))
  {
    var dry := EffectiveDryRun(Worst(ds), global);
    if AllAgree(ds, global, dry) {
      forall es | es != [] && Rearranged(ds, es)
        ensures EffectiveDryRun(Worst(es), global) == dry
      {
        SameMembers(ds, es);
        AgreeingStays(ds, es, global, dry);
      }
    }
    if OrderKeeps(ds, global) {
      forall j | 0 <= j < |ds|
        ensures TopAgrees(ds, global, dry, j)
      {
        if ds[j].action == Worst(ds).action {
          ToFrontRearranges(ds, j);
          FrontCounts(ds, j, global);
        }
      }
    }
  }

  lemma RecipientToFront(p: Policy, matches: Match, sender: string, rs: seq<string>, att: Attachment, j: nat)
    requires j < |rs|
    ensures PerRecipient(p, matches, sender, ToFront(rs, j), att)
            == ToFront(PerRecipient(p, matches, sender, rs, att), j)
  {}

  /** The same for an attachment and the recipients of its message: however they are ordered, the
      worst case runs dry or not alike, exactly when all recipients with the strongest action
      agree on it. */
  lemma RecipientDryRunOrder(p: Policy, matches: Match, sender: string, rs: seq<string>, att: Attachment, global: bool)
    ensures var ds := PerRecipient(p, matches, sender, rs, att);
            (forall qs :: Rearranged(rs, qs) ==>
               EffectiveDryRun(Worst(PerRecipient(p, matches, sender, qs, att)), global)
               == EffectiveDryRun(Worst(ds), global))
            <==> AllAgree(ds, global, EffectiveDryRun(Worst(ds), global))
  {
    var ds := PerRecipient(p, matches, sender, rs, att);
    var dry := EffectiveDryRun(Worst(ds), global);
    if AllAgree(ds, global, dry) {
      forall qs | Rearranged(rs, qs)
        ensures EffectiveDryRun(Worst(PerRecipient(p, matches, sender, qs, att)), global) == dry
      {
        RearrangedRecipients(p, matches, sender, rs, qs, att);
        AgreeingStays(ds, PerRecipient(p, matches, sender, qs, att), global, dry);
      }
    } else {
      var j :| 0 <= j < |ds| && !TopAgrees(ds, global, dry, j);
      if rs != [] {
        ToFrontRearranges(rs, j);
        RecipientToFront(p, matches, sender, rs, att, j);
        FrontCounts(ds, j, global);
      }
    }
  }

  lemma RearrangedRecipients(p: Policy, matches: Match, sender: string, rs: seq<string>, qs: seq<string>,
                             att: Attachment)
    requires Rearranged(rs, qs)
    ensures var ds, es := PerRecipient(p, matches, sender, rs, att), PerRecipient(p, matches, sender, qs, att);
            forall d :: d in ds <==> d in es
  {
    SameMembers(rs, qs);
    SameDecisions(p, matches, sender, rs, qs, att);
  }
}
