/** Download links: the store they are kept in, creating the links of a message, and undoing
    that. */
module LinkEngine {
  import opened Text
  import opened PolicyDecision

  /** How many of the first n calls fail, where fails tells which do, numbered from the first one
      on. */
  function FailCount(fails: nat -> bool, n: nat): nat {
    if n == 0 then 0 else FailCount(fails, n - 1) + if fails(n - 1) then 1 else 0
  }

  /** Identifiers, object keys and tokens: drawn at random, which may fail, and never twice. Which
      draws fail is up to the world. */
  class Entropy {
    const fails: nat -> bool
    var draws: nat
    var next: nat

    constructor (fails: nat -> bool)
      ensures this.fails == fails && draws == 0 && next == 0
    {
      this.fails := fails;
      draws, next := 0, 0;
    }

    /** How many draws have failed so far. */
    function Faults(): nat
      reads this
    {
      FailCount(fails, draws)
    }

    method Draw() returns (id: Option<nat>)
      modifies this
      ensures draws == old(draws) + 1 && next >= old(next)
      ensures id.None? <==> fails(old(draws))
      ensures id.Some? ==> old(next) <= id.value < next
      ensures Faults() == old(Faults()) + if id.Some? then 0 else 1
    {
      draws := draws + 1;
      if fails(draws - 1) {
        return None;
      }
      id := Some(next);
      next := next + 1;
    }
  }

  /** The wall clock, which does not go backwards. */
  class Clock {
    var now: int

    constructor (start: int)
      ensures now == start
    {
      now := start;
    }

    method Read() returns (t: int)
      modifies this
      ensures t == now >= old(now)
    {
      var passed :| passed >= 0;
      now := now + passed;
      t := now;
    }
  }

  /** A row of the metadata store. A link without an attachment is the link to the message's
      package page. */
  datatype Row =
    | MessageRow(messageID: nat, sender: string, status: Action)
    | AttachmentRow(messageID: nat, id: nat, path: string, storageKey: nat, retainUntil: int)
    | LinkRow(messageID: nat, attachment: Option<nat>, recipient: string, tokenHash: nat, expiresAt: int,
              maxDownloads: int, hold: bool)

  /** The rows of other messages. */
  function Without(rows: seq<Row>, messageID: nat): seq<Row> {
    if rows == [] then []
    else Without(rows[..|rows| - 1], messageID)
         + if rows[|rows| - 1].messageID == messageID then [] else [rows[|rows| - 1]]
  }

  ghost predicate Belong(rows: seq<Row>, messageID: nat) {
    forall i :: 0 <= i < |rows| ==> rows[i].messageID == messageID
  }

  predicate Held(row: Row, messageID: nat) {
    row.LinkRow? && row.messageID == messageID && row.hold
  }

  /** Rows of one message, its own row first, and no link held. */
  ghost predicate Headed(rows: seq<Row>, messageID: nat) {
    && Belong(rows, messageID) && (rows != [] ==> rows[0].MessageRow?)
    && forall i :: 0 <= i < |rows| ==> !Held(rows[i], messageID)
  }

  ghost predicate Foreign(rows: seq<Row>, messageID: nat) {
    forall i :: 0 <= i < |rows| ==> rows[i].messageID != messageID
  }

  lemma {:induction false} WithoutForeign(rows: seq<Row>, messageID: nat)
    requires Foreign(rows, messageID)
    ensures Without(rows, messageID) == rows
  {
    if rows != [] {
      WithoutForeign(rows[..|rows| - 1], messageID);
    }
  }

  /** Purging undoes what was added for a message. */
  lemma {:induction false} WithoutAdded(rows: seq<Row>, added: seq<Row>, messageID: nat)
    requires Foreign(rows, messageID) && Belong(added, messageID)
    ensures Without(rows + added, messageID) == rows
  {
    if added == [] {
      assert rows + added == rows;
      WithoutForeign(rows, messageID);
    } else {
      var all := rows + added;
      assert all[..|all| - 1] == rows + added[..|added| - 1];
      WithoutAdded(rows, added[..|added| - 1], messageID);
    }
  }

  predicate HasMessage(rows: seq<Row>, messageID: nat) {
    exists i :: 0 <= i < |rows| && rows[i].MessageRow? && rows[i].messageID == messageID
  }

  predicate HasHeld(rows: seq<Row>, messageID: nat) {
    exists i :: 0 <= i < |rows| && Held(rows[i], messageID)
  }

  /** How deleting a message ends. */
  datatype Deletion =
    | Deleted
    | Missing
    | HeldBack
    | Faulted

  /** The metadata store. Which insertions and which deletions fail is up to the world; a failed
      call changes nothing. */
  class Metadata {
    const insertFails: nat -> bool
    const deleteFails: nat -> bool
    var rows: seq<Row>
    var inserts: nat
    var deletes: nat

    constructor (insertFails: nat -> bool, deleteFails: nat -> bool)
      ensures this.insertFails == insertFails && this.deleteFails == deleteFails
      ensures rows == [] && inserts == 0 && deletes == 0
    {
      this.insertFails, this.deleteFails := insertFails, deleteFails;
      rows, inserts, deletes := [], 0, 0;
    }

    /** How many calls have failed so far. */
    function Faults(): nat
      reads this
    {
      FailCount(insertFails, inserts) + FailCount(deleteFails, deletes)
    }

    method Insert(row: Row) returns (ok: bool)
      modifies this
      ensures ok <==> !insertFails(old(inserts))
      ensures rows == if ok then old(rows) + [row] else old(rows)
      ensures inserts == old(inserts) + 1 && deletes == old(deletes)
      ensures Faults() == old(Faults()) + if ok then 0 else 1
    {
      ok := !insertFails(inserts);
      inserts := inserts + 1;
      if ok {
        rows := rows + [row];
      }
    }

    /** Deletes a message with all its rows, unless one of its links is held; refuses if the
        message is not there. */
    method DeleteMessage(messageID: nat) returns (r: Deletion)
      modifies this
      ensures r == if deleteFails(old(deletes)) then Faulted
                   else if HasHeld(old(rows), messageID) then HeldBack
                   else if HasMessage(old(rows), messageID) then Deleted
                   else Missing
      ensures rows == if r == Deleted then Without(old(rows), messageID) else old(rows)
      ensures deletes == old(deletes) + 1 && inserts == old(inserts)
      ensures Faults() == old(Faults()) + if r == Faulted then 1 else 0
    {
      deletes := deletes + 1;
      if deleteFails(deletes - 1) {
        return Faulted;
      }
      if HasHeld(rows, messageID) {
        return HeldBack;
      }
      if !HasMessage(rows, messageID) {
        return Missing;
      }
      rows := Without(rows, messageID);
      r := Deleted;
    }
  }

  datatype AuditEvent =
    | PolicyDecided
    | AttachmentStored(key: nat)
    | LinksCreated(recipient: string)
    | Compensated(messageID: nat, ok: bool)
    | MessageProcessed(action: string, reason: string)
    | ProcessingFailed

  /** The audit events handed to the sink, which may drop them. */
  class Trail {
    var events: seq<AuditEvent>

    constructor ()
      ensures events == []
    {
      events := [];
    }

    method Record(e: AuditEvent)
      modifies this
      ensures events == old(events) + [e]
    {
      events := events + [e];
    }
  }

  // ------------------------------------------------------------------ parameters

  datatype Defaults = Defaults(ttl: int, maxDownloads: int, retention: int)

  datatype Resolved = Resolved(ttl: int, maxDownloads: int, retention: int, clamped: bool, requested: int)

  /** What applies to the links: the policy's values where it sets them, the defaults elsewhere;
      nothing is retained for less than its links live. */
  function ResolveParams(p: Params, d: Defaults): (r: Resolved)
    ensures if p.ttl.Some? then r.ttl == p.ttl.value else r.ttl == d.ttl
    ensures if p.maxDownloads.Some? then r.maxDownloads == p.maxDownloads.value else r.maxDownloads == d.maxDownloads
    ensures if p.retention.Some? then r.requested == p.retention.value else r.requested == d.retention
    ensures r.retention >= r.ttl && r.retention >= r.requested
    ensures r.retention in {r.ttl, r.requested}
    ensures r.clamped <==> r.requested != 0 && r.retention != r.requested
  {
    var ttl := if p.ttl.Some? then p.ttl.value else d.ttl;
    var maxDownloads := if p.maxDownloads.Some? then p.maxDownloads.value else d.maxDownloads;
    var retention := if p.retention.Some? then p.retention.value else d.retention;
    if retention < ttl then Resolved(ttl, maxDownloads, ttl, retention != 0, retention)
    else Resolved(ttl, maxDownloads, retention, false, retention)
  }

  // -------------------------------------------------------------------- creation

  datatype AttachmentInput = AttachmentInput(id: nat, path: string, storageKey: nat)

  datatype CreatedLink = CreatedLink(attachment: Option<nat>, recipient: string, token: nat, expiresAt: int,
                                     maxDownloads: int)

  type TokenHash = nat -> nat

  function RowOf(hash: TokenHash, messageID: nat, c: CreatedLink): Row {
    LinkRow(messageID, c.attachment, c.recipient, hash(c.token), c.expiresAt, c.maxDownloads, false)
  }

  function LinkRows(hash: TokenHash, messageID: nat, cs: seq<CreatedLink>): (r: seq<Row>)
    ensures |r| == |cs|
  {
    seq(|cs|, i requires 0 <= i < |cs| => RowOf(hash, messageID, cs[i]))
  }

  function AttachmentRows(messageID: nat, inputs: seq<AttachmentInput>, retainUntil: int, k: nat): seq<Row>
    requires k <= |inputs|
  {
    if k == 0 then []
    else AttachmentRows(messageID, inputs, retainUntil, k - 1)
         + [AttachmentRow(messageID, inputs[k - 1].id, inputs[k - 1].path, inputs[k - 1].storageKey, retainUntil)]
  }

  /** What a link is for. */
  datatype Purpose = Purpose(attachment: Option<nat>, recipient: string)

  function PurposeOf(c: CreatedLink): Purpose {
    Purpose(c.attachment, c.recipient)
  }

  function Purposes(cs: seq<CreatedLink>): (r: seq<Purpose>)
    ensures |r| == |cs|
  {
    seq(|cs|, i requires 0 <= i < |cs| => PurposeOf(cs[i]))
  }

  /** One link per attachment for a recipient. */
  function PerAttachment(recipient: string, inputs: seq<AttachmentInput>, k: nat): seq<Purpose>
    requires k <= |inputs|
  {
    if k == 0 then [] else PerAttachment(recipient, inputs, k - 1) + [Purpose(Some(inputs[k - 1].id), recipient)]
  }

  /** For each recipient: one link per attachment, then the one to the package page. */
  function AllPurposes(recipients: seq<string>, inputs: seq<AttachmentInput>, k: nat): seq<Purpose>
    requires k <= |recipients|
  {
    if k == 0 then []
    else
      AllPurposes(recipients, inputs, k - 1)
      + (PerAttachment(recipients[k - 1], inputs, |inputs|) + [Purpose(None, recipients[k - 1])])
  }

  lemma {:induction false} PerAttachmentCount(recipient: string, inputs: seq<AttachmentInput>, k: nat)
    requires k <= |inputs|
    ensures |PerAttachment(recipient, inputs, k)| == k
  {
    if k > 0 {
      PerAttachmentCount(recipient, inputs, k - 1);
    }
  }

  /** Every recipient gets a link per attachment and one more. */
  lemma {:induction false} LinkCount(recipients: seq<string>, inputs: seq<AttachmentInput>, k: nat)
    requires k <= |recipients|
    ensures |AllPurposes(recipients, inputs, k)| == k * (|inputs| + 1)
  {
    if k > 0 {
      LinkCount(recipients, inputs, k - 1);
      PerAttachmentCount(recipients[k - 1], inputs, |inputs|);
      TimesNext(k, |inputs| + 1);
    }
  }

  lemma TimesNext(k: nat, m: nat)
    requires k > 0
    ensures k * m == (k - 1) * m + m
  {}

  lemma {:induction false} PackagePurpose(recipients: seq<string>, inputs: seq<AttachmentInput>, k: nat, i: nat)
    requires i < k <= |recipients|
    ensures Purpose(None, recipients[i]) in AllPurposes(recipients, inputs, k)
  {
    if i < k - 1 {
      PackagePurpose(recipients, inputs, k - 1, i);
    } else {
      var block := PerAttachment(recipients[k - 1], inputs, |inputs|) + [Purpose(None, recipients[k - 1])];
      assert block[|block| - 1] == Purpose(None, recipients[i]);
    }
  }

  /** The deadlines count from clock readings between start and end, the expiry's first. */
  predicate Dated(r: Resolved, expiresAt: int, retainUntil: int, start: int, end: int) {
    start <= expiresAt - r.ttl <= retainUntil - r.retention <= end
  }

  /** All links created with one expiry. */
  ghost predicate ExpireAt(cs: seq<CreatedLink>, expiresAt: int) {
    forall i :: 0 <= i < |cs| ==> cs[i].expiresAt == expiresAt
  }

  /** Attachment links allow max downloads; links to the package page are not counted. */
  ghost predicate LimitTo(cs: seq<CreatedLink>, max: int) {
    forall i :: 0 <= i < |cs| ==> cs[i].maxDownloads == if cs[i].attachment.Some? then max else 0
  }

  /** The links' tokens were drawn one after the other, from the first number on and up to the other. */
  ghost predicate Minted(cs: seq<CreatedLink>, from: nat, to: nat) {
    && from <= to && (forall i :: 0 <= i < |cs| ==> from <= cs[i].token < to)
    && forall i, j :: 0 <= i < j < |cs| ==> cs[i].token < cs[j].token
  }

  lemma MintedTogether(a: seq<CreatedLink>, b: seq<CreatedLink>, from: nat, mid: nat, to: nat)
    requires Minted(a, from, mid) && Minted(b, mid, to)
    ensures Minted(a + b, from, to)
  {}

  lemma DatedTogether(cs: seq<CreatedLink>, c: CreatedLink, from: nat, mid: nat, to: nat, expiresAt: int, max: int)
    requires Minted(cs, from, mid) && Minted([c], mid, to)
    requires ExpireAt(cs, expiresAt) && LimitTo(cs, max)
    requires c.expiresAt == expiresAt && c.maxDownloads == if c.attachment.Some? then max else 0
    ensures Minted(cs + [c], from, to) && ExpireAt(cs + [c], expiresAt) && LimitTo(cs + [c], max)
  {
    MintedTogether(cs, [c], from, mid, to);
  }

  class Engine {
    const metadata: Metadata
    const entropy: Entropy
    const clock: Clock
    const trail: Trail
    const defaults: Defaults
    const hash: TokenHash

    constructor (metadata: Metadata, entropy: Entropy, clock: Clock, trail: Trail, defaults: Defaults, hash: TokenHash)
      ensures this.metadata == metadata && this.entropy == entropy && this.clock == clock && this.trail == trail
      ensures this.defaults == defaults && this.hash == hash
    {
      this.metadata, this.entropy, this.clock, this.trail := metadata, entropy, clock, trail;
      this.defaults, this.hash := defaults, hash;
    }

    /** How many calls have failed so far. */
    function Faults(): nat
      reads metadata, entropy
    {
      metadata.Faults() + entropy.Faults()
    }

    /** Mints one link and stores it. */
    method CreateLink(messageID: nat, attachment: Option<nat>, recipient: string, expiresAt: int, maxDownloads: int)
      returns (c: Option<CreatedLink>)
      modifies metadata, entropy
      ensures entropy.next >= old(entropy.next)
      ensures metadata.deletes == old(metadata.deletes) && entropy.Faults() >= old(entropy.Faults())
      ensures c.Some? ==> Faults() == old(Faults())
      ensures c.None? ==> Faults() > old(Faults())
      ensures c.Some? ==>
                && PurposeOf(c.value) == Purpose(attachment, recipient)
                && c.value.expiresAt == expiresAt && c.value.maxDownloads == maxDownloads
      ensures c.Some? ==> Minted([c.value], old(entropy.next), entropy.next)
      ensures metadata.rows == old(metadata.rows) + if c.Some? then [RowOf(hash, messageID, c.value)] else []
    {
      var token := entropy.Draw();
      if token.None? {
        return None;
      }
      if attachment.Some? {
        var linkID := entropy.Draw();
        if linkID.None? {
          return None;
        }
      }
      var link := CreatedLink(attachment, recipient, token.value, expiresAt, maxDownloads);
      var ok := metadata.Insert(RowOf(hash, messageID, link));
      c := if ok then Some(link) else None;
    }

    /** Mints the links of one recipient. */
    method CreateForRecipient(messageID: nat, recipient: string, inputs: seq<AttachmentInput>, expiresAt: int,
                              maxDownloads: int)
      returns (ok: bool, cs: seq<CreatedLink>)
      modifies metadata, entropy
      ensures entropy.next >= old(entropy.next)
      ensures metadata.deletes == old(metadata.deletes) && entropy.Faults() >= old(entropy.Faults())
      ensures metadata.rows == old(metadata.rows) + LinkRows(hash, messageID, cs)
      ensures ExpireAt(cs, expiresAt) && LimitTo(cs, maxDownloads) && Minted(cs, old(entropy.next), entropy.next)
      ensures if ok then Faults() == old(Faults()) else Faults() > old(Faults())
      ensures ok ==> Purposes(cs) == PerAttachment(recipient, inputs, |inputs|) + [Purpose(None, recipient)]
    {
      cs := [];
      var i := 0;
      while i < |inputs|
        invariant i <= |inputs|
        invariant entropy.next >= old(entropy.next)
        invariant metadata.deletes == old(metadata.deletes) && entropy.Faults() >= old(entropy.Faults())
        invariant metadata.rows == old(metadata.rows) + LinkRows(hash, messageID, cs)
        invariant ExpireAt(cs, expiresAt) && LimitTo(cs, maxDownloads) && Minted(cs, old(entropy.next), entropy.next)
        invariant Faults() == old(Faults())
        invariant Purposes(cs) == PerAttachment(recipient, inputs, i)
      {
        ghost var mid := entropy.next;
        var c := CreateLink(messageID, Some(inputs[i].id), recipient, expiresAt, maxDownloads);
        if c.None? {
          return false, cs;
        }
        LinkAdded(hash, messageID, cs, c.value);
        DatedTogether(cs, c.value, old(entropy.next), mid, entropy.next, expiresAt, maxDownloads);
        cs := cs + [c.value];
        i := i + 1;
      }
      ghost var mid := entropy.next;
      var c := CreateLink(messageID, None, recipient, expiresAt, 0);
      if c.None? {
        return false, cs;
      }
      LinkAdded(hash, messageID, cs, c.value);
      DatedTogether(cs, c.value, old(entropy.next), mid, entropy.next, expiresAt, maxDownloads);
      cs := cs + [c.value];
      ok := true;
    }

    /** Stores the message, its attachments, and for every recipient a link per attachment and
        one to the package page. No link outlives the objects it leads to. On a failure some of
        the rows may have been stored, all of them for this message. */
    method CreateLinks(messageID: nat, sender: string, status: Action, inputs: seq<AttachmentInput>,
                       recipients: seq<string>, params: Params)
      returns (created: Option<seq<CreatedLink>>, ghost expiresAt: int, ghost retainUntil: int)
      modifies metadata, entropy, clock
      ensures entropy.next >= old(entropy.next)
      ensures inputs == [] || recipients == [] ==> created.None? && metadata.rows == old(metadata.rows)
      ensures Faults() >= old(Faults())
      ensures inputs != [] && recipients != [] && created.None? ==> Faults() > old(Faults())
      ensures created.None? ==>
                exists added :: Headed(added, messageID) && metadata.rows == old(metadata.rows) + added
      ensures inputs != [] && recipients != [] ==>
                (metadata.rows == old(metadata.rows) <==> metadata.insertFails(old(metadata.inserts)))
      ensures created.Some? ==> Faults() == old(Faults())
      ensures metadata.deletes == old(metadata.deletes) && entropy.Faults() >= old(entropy.Faults())
      ensures expiresAt <= retainUntil
      ensures created.Some? ==>
                var ttl := if params.ttl.Some? then params.ttl.value else defaults.ttl;
                var retention := if params.retention.Some? then params.retention.value else defaults.retention;
                && old(clock.now) + ttl <= expiresAt <= clock.now + ttl
                && old(clock.now) + retention <= retainUntil
                && (retention >= ttl ==> retainUntil <= clock.now + retention)
                && (retention < ttl ==> retainUntil <= clock.now + ttl)
      ensures created.Some? ==>
                && Purposes(created.value) == AllPurposes(recipients, inputs, |recipients|)
                && ExpireAt(created.value, expiresAt)
                && Minted(created.value, old(entropy.next), entropy.next)
                && LimitTo(created.value, ResolveParams(params, defaults).maxDownloads)
                && Dated(ResolveParams(params, defaults), expiresAt, retainUntil, old(clock.now), clock.now)
                && metadata.rows == old(metadata.rows) + Stored(hash, messageID, sender, status, inputs, retainUntil,
                      created.value)
    {
      expiresAt, retainUntil := 0, 0;
      if |inputs| == 0 || |recipients| == 0 {
        assert metadata.rows == old(metadata.rows) + [];
        return None, expiresAt, retainUntil;
      }
      var resolved := ResolveParams(params, defaults);
      var now := clock.Read();
      var expires := now + resolved.ttl;
      now := clock.Read();
      var retain := now + resolved.retention;
      expiresAt, retainUntil := expires, retain;
      created := CreateRows(messageID, sender, status, inputs, recipients, expires, retain, resolved.maxDownloads);
    }

    /** Stores the message, its attachments and the links of all recipients, up to a failure. */
    method CreateRows(messageID: nat, sender: string, status: Action, inputs: seq<AttachmentInput>,
                      recipients: seq<string>, expiresAt: int, retainUntil: int, maxDownloads: int)
      returns (created: Option<seq<CreatedLink>>)
      modifies metadata, entropy
      ensures entropy.next >= old(entropy.next)
      ensures metadata.deletes == old(metadata.deletes) && entropy.Faults() >= old(entropy.Faults())
      ensures if created.Some? then Faults() == old(Faults()) else Faults() > old(Faults())
      ensures created.None? ==>
                exists added :: Headed(added, messageID) && metadata.rows == old(metadata.rows) + added
      ensures metadata.rows == old(metadata.rows) <==> metadata.insertFails(old(metadata.inserts))
      ensures created.Some? ==>
                && Purposes(created.value) == AllPurposes(recipients, inputs, |recipients|)
                && ExpireAt(created.value, expiresAt) && LimitTo(created.value, maxDownloads)
                && Minted(created.value, old(entropy.next), entropy.next)
                && metadata.rows == old(metadata.rows) + Stored(hash, messageID, sender, status, inputs, retainUntil,
                      created.value)
    {
      ghost var before := metadata.rows;
      var ok := metadata.Insert(MessageRow(messageID, sender, status));
      if !ok {
        assert metadata.rows == before + [];
        return None;
      }
      ghost var rest;
      ok, rest := CreateAttachments(messageID, inputs, retainUntil);
      var links := [];
      if ok {
        ok, links := CreateAllLinks(messageID, recipients, inputs, expiresAt, maxDownloads);
      }
      RowsAdded(hash, messageID, sender, status, before, rest, links, metadata.rows);
      created := if ok then Some(links) else None;
    }

    /** Mints the links of all recipients in turn. */
    method CreateAllLinks(messageID: nat, recipients: seq<string>, inputs: seq<AttachmentInput>, expiresAt: int,
                          maxDownloads: int)
      returns (ok: bool, links: seq<CreatedLink>)
      modifies metadata, entropy
      ensures entropy.next >= old(entropy.next)
      ensures metadata.deletes == old(metadata.deletes) && entropy.Faults() >= old(entropy.Faults())
      ensures metadata.rows == old(metadata.rows) + LinkRows(hash, messageID, links)
      ensures ExpireAt(links, expiresAt) && LimitTo(links, maxDownloads)
      ensures Minted(links, old(entropy.next), entropy.next)
      ensures if ok then Faults() == old(Faults()) else Faults() > old(Faults())
      ensures ok ==> Purposes(links) == AllPurposes(recipients, inputs, |recipients|)
    {
      links := [];
      var i := 0;
      while i < |recipients|
        invariant i <= |recipients|
        invariant entropy.next >= old(entropy.next)
        invariant metadata.deletes == old(metadata.deletes) && entropy.Faults() >= old(entropy.Faults())
        invariant metadata.rows == old(metadata.rows) + LinkRows(hash, messageID, links)
        invariant ExpireAt(links, expiresAt) && LimitTo(links, maxDownloads)
        invariant Minted(links, old(entropy.next), entropy.next)
        invariant Faults() == old(Faults())
        invariant Purposes(links) == AllPurposes(recipients, inputs, i)
      {
        var cs;
        ghost var mid := entropy.next;
        ok, cs := CreateForRecipient(messageID, recipients[i], inputs, expiresAt, maxDownloads);
        MintedTogether(links, cs, old(entropy.next), mid, entropy.next);
        LinksAdded(hash, messageID, links, cs);
        Regroup(old(metadata.rows), LinkRows(hash, messageID, links), LinkRows(hash, messageID, cs));
        links := links + cs;
        if !ok {
          return;
        }
        i := i + 1;
      }
      ok := true;
    }

    method CreateAttachments(messageID: nat, inputs: seq<AttachmentInput>, retainUntil: int)
      returns (ok: bool, ghost added: seq<Row>)
      modifies metadata
      ensures metadata.deletes == old(metadata.deletes)
      ensures metadata.Faults() == old(metadata.Faults()) + if ok then 0 else 1
      ensures metadata.rows == old(metadata.rows) + added && Belong(added, messageID)
      ensures forall i :: 0 <= i < |added| ==> !added[i].LinkRow?
      ensures ok ==> added == AttachmentRows(messageID, inputs, retainUntil, |inputs|)
    {
      var i := 0;
      added := [];
      while i < |inputs|
        invariant i <= |inputs| && metadata.rows == old(metadata.rows) + added && Belong(added, messageID)
        invariant forall j :: 0 <= j < |added| ==> !added[j].LinkRow?
        invariant added == AttachmentRows(messageID, inputs, retainUntil, i)
        invariant metadata.Faults() == old(metadata.Faults()) && metadata.deletes == old(metadata.deletes)
      {
        var a := inputs[i];
        var row := AttachmentRow(messageID, a.id, a.path, a.storageKey, retainUntil);
        ok := metadata.Insert(row);
        if !ok {
          return;
        }
        added := added + [row];
        i := i + 1;
      }
      ok := true;
    }

    /** Undoes what was stored for a message, and records whether there was something to undo
        and it could be. */
    method PurgeMessage(messageID: nat) returns (r: Deletion)
      modifies metadata, trail
      ensures r == if metadata.deleteFails(old(metadata.deletes)) then Faulted
                   else if HasHeld(old(metadata.rows), messageID) then HeldBack
                   else if HasMessage(old(metadata.rows), messageID) then Deleted
                   else Missing
      ensures metadata.rows == if r == Deleted then Without(old(metadata.rows), messageID) else old(metadata.rows)
      ensures metadata.deletes == old(metadata.deletes) + 1
      ensures metadata.Faults() >= old(metadata.Faults())
      ensures trail.events == old(trail.events) + [Compensated(messageID, r == Deleted)]
    {
      r := metadata.DeleteMessage(messageID);
      trail.Record(Compensated(messageID, r == Deleted));
    }
  }

  /** Everything that is stored for a message. */
  function Stored(hash: TokenHash, messageID: nat, sender: string, status: Action, inputs: seq<AttachmentInput>,
                  retainUntil: int, created: seq<CreatedLink>): seq<Row>
  {
    [MessageRow(messageID, sender, status)] + AttachmentRows(messageID, inputs, retainUntil, |inputs|)
    + LinkRows(hash, messageID, created)
  }

  lemma LinkAdded(hash: TokenHash, messageID: nat, cs: seq<CreatedLink>, c: CreatedLink)
    ensures LinkRows(hash, messageID, cs + [c]) == LinkRows(hash, messageID, cs) + [RowOf(hash, messageID, c)]
    ensures Purposes(cs + [c]) == Purposes(cs) + [PurposeOf(c)]
  {}

  lemma LinksAdded(hash: TokenHash, messageID: nat, a: seq<CreatedLink>, b: seq<CreatedLink>)
    ensures LinkRows(hash, messageID, a + b) == LinkRows(hash, messageID, a) + LinkRows(hash, messageID, b)
    ensures Purposes(a + b) == Purposes(a) + Purposes(b)
  {}

  lemma HeadedRows(hash: TokenHash, messageID: nat, sender: string, status: Action, rest: seq<Row>,
                   cs: seq<CreatedLink>)
    requires Belong(rest, messageID) && forall i :: 0 <= i < |rest| ==> !rest[i].LinkRow?
    ensures Headed([MessageRow(messageID, sender, status)] + rest + LinkRows(hash, messageID, cs), messageID)
  {}

  lemma RowsAdded(hash: TokenHash, messageID: nat, sender: string, status: Action, before: seq<Row>,
                  rest: seq<Row>, cs: seq<CreatedLink>, after: seq<Row>)
    requires Belong(rest, messageID) && forall i :: 0 <= i < |rest| ==> !rest[i].LinkRow?
    requires after == before + [MessageRow(messageID, sender, status)] + rest + LinkRows(hash, messageID, cs)
    ensures exists added :: Headed(added, messageID) && added != [] && after == before + added
    ensures after == before + ([MessageRow(messageID, sender, status)] + rest + LinkRows(hash, messageID, cs))
  {
    var added := [MessageRow(messageID, sender, status)] + rest + LinkRows(hash, messageID, cs);
    HeadedRows(hash, messageID, sender, status, rest, cs);
    assert after == before + added;
  }

  lemma {:induction false} AttachmentsBelong(messageID: nat, inputs: seq<AttachmentInput>, retainUntil: int, k: nat)
    requires k <= |inputs|
    ensures var rows := AttachmentRows(messageID, inputs, retainUntil, k);
            Belong(rows, messageID) && forall i :: 0 <= i < |rows| ==> !rows[i].LinkRow?
  {
    if k > 0 {
      AttachmentsBelong(messageID, inputs, retainUntil, k - 1);
    }
  }

  lemma Regroup<T>(a: seq<T>, b: seq<T>, c: seq<T>)
    ensures a + b + c == a + (b + c)
  {}

  lemma StoredHeaded(hash: TokenHash, messageID: nat, sender: string, status: Action, inputs: seq<AttachmentInput>,
                     retainUntil: int, created: seq<CreatedLink>)
    ensures Headed(Stored(hash, messageID, sender, status, inputs, retainUntil, created), messageID)
  {
    AttachmentsBelong(messageID, inputs, retainUntil, |inputs|);
    HeadedRows(hash, messageID, sender, status, AttachmentRows(messageID, inputs, retainUntil, |inputs|), created);
  }
}
