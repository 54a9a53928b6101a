/** Processing a message: decide, upload what is replaced, create its links, rewrite the
    message, and undo all of that if a later step fails. */
module PipelineProcess {
  import opened Text
  import opened MimeTree
  import opened MimeWalk
  import opened CidScan
  import opened CidRefs
  import opened PolicyDecision
  import opened PipelineDecision
  import opened LinkEngine
  import opened LinkIntegrity
  import opened PipelineUploads

  /** The object store. Which uploads and which deletions fail is up to the world; a call that
      fails changes nothing. */
  class Storage {
    const putFails: nat -> bool
    const deleteFails: nat -> bool
    var objects: map<nat, string>
    var puts: nat
    var deletes: nat

    constructor (putFails: nat -> bool, deleteFails: nat -> bool)
      ensures this.putFails == putFails && this.deleteFails == deleteFails
      ensures objects == map[] && puts == 0 && deletes == 0
    {
      this.putFails, this.deleteFails := putFails, deleteFails;
      objects, puts, deletes := map[], 0, 0;
    }

    /** How many calls have failed so far, whatever they were to store. */
    function Faults(): nat
      reads this
    {
      FailCount(putFails, puts) + FailCount(deleteFails, deletes)
    }

    method Put(key: nat, content: Body) returns (ok: bool)
      modifies this
      ensures ok <==> !putFails(old(puts)) && content.Content?
      ensures objects == if ok then old(objects)[key := content.text] else old(objects)
      ensures puts == old(puts) + 1 && deletes == old(deletes)
      ensures Faults() == old(Faults()) + if putFails(old(puts)) then 1 else 0
    {
      ok := !putFails(puts) && content.Content?;
      puts := puts + 1;
      if ok {
        objects := objects[key := content.text];
      }
    }

    method Delete(key: nat) returns (ok: bool)
      modifies this
      ensures ok <==> !deleteFails(old(deletes))
      ensures objects == if ok then old(objects) - {key} else old(objects)
      ensures deletes == old(deletes) + 1 && puts == old(puts)
      ensures Faults() == old(Faults()) + if ok then 0 else 1
    {
      ok := !deleteFails(deletes);
      deletes := deletes + 1;
      if ok {
        objects := objects - {key};
      }
    }
  }

  /** A message: whether it could be captured and read, its parts, and its leaves' contents. */
  datatype Message = Message(captured: bool, readable: bool, root: Part, bodies: seq<Body>)

  datatype Verdict =
    | Accepted
    | Rejected(reason: string)
    | Rewritten(body: string)
    | Aborted

  function Terminal(r: Verdict): AuditEvent {
    match r
    case Accepted => MessageProcessed("accept", "")
    case Rejected(reason) => MessageProcessed("reject", reason)
    case Rewritten(_) => MessageProcessed("rewrite", "")
    case Aborted => ProcessingFailed
  }

  predicate IsTerminal(e: AuditEvent) {
    e.MessageProcessed? || e.ProcessingFailed?
  }

  ghost predicate NoTerminal(events: seq<AuditEvent>) {
    forall i :: 0 <= i < |events| ==> !IsTerminal(events[i])
  }

  lemma NoTerminalTogether(a: seq<AuditEvent>, b: seq<AuditEvent>)
    requires NoTerminal(a) && NoTerminal(b)
    ensures NoTerminal(a + b)
  {}

  function StoredEvents(us: seq<Uploaded>, k: nat): seq<AuditEvent>
    requires k <= |us|
  {
    if k == 0 then [] else StoredEvents(us, k - 1) + [AttachmentStored(us[k - 1].key)]
  }

  function LinkEvents(recipients: seq<string>, k: nat): seq<AuditEvent>
    requires k <= |recipients|
  {
    if k == 0 then [] else LinkEvents(recipients, k - 1) + [LinksCreated(recipients[k - 1])]
  }

  /** The events of a delivery: one per upload, then one per recipient. */
  function DeliveryEvents(us: seq<Uploaded>, recipients: seq<string>): seq<AuditEvent> {
    StoredEvents(us, |us|) + LinkEvents(recipients, |recipients|)
  }

  /** The log of a delivery names, in turn, each stored object and each recipient. */
  lemma DeliveryRecords(us: seq<Uploaded>, recipients: seq<string>, what: seq<(Attachment, Body)>,
                        objects: map<nat, string>)
    requires AllStored(us, what, objects)
    ensures var log := DeliveryEvents(us, recipients);
            && |log| == |us| + |recipients|
            && (forall j :: 0 <= j < |us| ==>
                  log[j].AttachmentStored? && log[j].key in objects && what[j].1 == Content(objects[log[j].key]))
            && forall i :: 0 <= i < |recipients| ==> log[|us| + i] == LinksCreated(recipients[i])
  {
    StoredEventsAt(us, |us|);
    LinkEventsAt(recipients, |recipients|);
    var log := DeliveryEvents(us, recipients);
    forall j | 0 <= j < |us|
      ensures log[j] == AttachmentStored(us[j].key)
      ensures us[j].key in objects && what[j].1 == Content(objects[us[j].key])
    {
      assert log[j] == StoredEvents(us, |us|)[j];
      assert StoredAs(us[j], what[j], objects);
    }
    forall i | 0 <= i < |recipients|
      ensures log[|us| + i] == LinksCreated(recipients[i])
    {
      assert log[|us| + i] == LinkEvents(recipients, |recipients|)[i];
    }
  }

  lemma {:induction false} StoredEventsAt(us: seq<Uploaded>, k: nat)
    requires k <= |us|
    ensures |StoredEvents(us, k)| == k
    ensures forall j :: 0 <= j < k ==> StoredEvents(us, k)[j] == AttachmentStored(us[j].key)
  {
    if k > 0 {
      StoredEventsAt(us, k - 1);
    }
  }

  lemma {:induction false} LinkEventsAt(recipients: seq<string>, k: nat)
    requires k <= |recipients|
    ensures |LinkEvents(recipients, k)| == k
    ensures forall i :: 0 <= i < k ==> LinkEvents(recipients, k)[i] == LinksCreated(recipients[i])
  {
    if k > 0 {
      LinkEventsAt(recipients, k - 1);
    }
  }

  /** The parts the rewriter sees: all but the message's own text. */
  function RewriteInput(atts: seq<Attachment>, ds: seq<Decision>, k: nat): seq<(Attachment, Decision)>
    requires k <= |atts| == |ds|
  {
    if k == 0 then []
    else RewriteInput(atts, ds, k - 1) + if IsStructuralBody(atts[k - 1]) then [] else [(atts[k - 1], ds[k - 1])]
  }

  /** Nothing else is left out. */
  lemma {:induction false} RewriterSees(atts: seq<Attachment>, ds: seq<Decision>, k: nat, i: nat)
    requires i < k <= |atts| == |ds|
    requires var info := atts[i].info;
             !info.inline || info.filename != "" || info.mediaType !in {"text/plain", "text/html"}
    ensures (atts[i], ds[i]) in RewriteInput(atts, ds, k)
  {
    if i < k - 1 {
      RewriterSees(atts, ds, k - 1, i);
    }
  }

  /** The attachments the rewriter removes. */
  function Removed(input: seq<(Attachment, Decision)>, k: nat): seq<Attachment>
    requires k <= |input|
  {
    if k == 0 then []
    else Removed(input, k - 1) + if input[k - 1].1.action == Replace then [input[k - 1].0] else []
  }

  lemma {:induction false} RemovedPrefix(a: seq<(Attachment, Decision)>, x: (Attachment, Decision), k: nat)
    requires k <= |a|
    ensures Removed(a + [x], k) == Removed(a, k)
  {
    if k > 0 {
      RemovedPrefix(a, x, k - 1);
    }
  }

  function Attachments(what: seq<(Attachment, Body)>): (r: seq<Attachment>)
    ensures |r| == |what|
  {
    seq(|what|, i requires 0 <= i < |what| => what[i].0)
  }

  /** What the rewriter removes is exactly what is replaced, although it never sees the
      message's own text. */
  lemma {:induction false} RemovedIsReplaced(atts: seq<Attachment>, bodies: seq<Body>, ds: seq<Decision>, k: nat)
    requires k <= |atts| == |bodies| == |ds|
    requires forall i :: 0 <= i < |atts| ==> !(IsStructuralBody(atts[i]) && ds[i].action == Replace)
    ensures var input := RewriteInput(atts, ds, k);
            Removed(input, |input|) == Attachments(Replaced(atts, bodies, ds, k))
  {
    if k > 0 {
      RemovedIsReplaced(atts, bodies, ds, k - 1);
      var before := RewriteInput(atts, ds, k - 1);
      if !IsStructuralBody(atts[k - 1]) {
        RemovedPrefix(before, (atts[k - 1], ds[k - 1]), |before|);
      } else {
        assert before + [] == before;
      }
      if ds[k - 1].action != Replace {
        assert Replaced(atts, bodies, ds, k) == Replaced(atts, bodies, ds, k - 1);
      }
    }
  }

  // ------------------------------------------------------------------ the run

  /** What one run did, for stating what it left behind. */
  datatype Run = Run(uploaded: seq<Uploaded>, created: seq<CreatedLink>, messageID: nat, expiresAt: int,
                     retainUntil: int, token: nat)

  const NOTHING := Run([], [], 0, 0, 0, 0)

  /** The state a run starts from: both stores, the next number to draw, and how many draws, uploads,
      deletions of objects, insertions of rows, purges and failures there have been. */
  datatype Start = Start(objects: map<nat, string>, rows: seq<Row>, next: nat, draw: nat, put: nat, deleted: nat,
                         inserted: nat, purged: nat, faults: nat, drawFaults: nat)

  /** How the processor is configured, and the library functions it relies on. */
  datatype Setup =
    Setup(limits: Limits, callback: Callback, matches: Match, decode: Decoder, maxSize: int, dryRun: bool,
          rewriter: Rewriter)

  /** The rewritten message for what the rewriter sees and the package page's token, if rewriting
      succeeds. */
  type Rewriter = (seq<(Attachment, Decision)>, nat) -> Option<string>

  /** The events of giving up: if links were attempted, those of the uploads, those of the links if
      they were created, and whether the rows were purged. */
  function GiveUpEvents(run: Run, env: Envelope, attempted: bool, purged: bool): seq<AuditEvent> {
    if !attempted then []
    else
      StoredEvents(run.uploaded, |run.uploaded|)
      + (if run.created == [] then [] else LinkEvents(env.recipients, |env.recipients|))
      + [Compensated(run.messageID, purged)]
  }

  /** The message can be read within the limits. */
  predicate Parses(m: Message, setup: Setup) {
    m.captured && m.readable && Fits(Effective(setup.limits), setup.callback, m.root)
  }

  /** Deciding is recorded first, for a message that can be read when there is a policy. */
  function Opening(message: Option<Message>, policy: Option<Policy>, setup: Setup): seq<AuditEvent> {
    if message.Some? && Parses(message.value, setup) && policy.Some? then [PolicyDecided] else []
  }

  /** The body is what the rewriter makes of all parts but the message's own text, with the link that
      the token is for. */
  predicate EmbedsLink(rewriter: Rewriter, atts: seq<Attachment>, ds: seq<Decision>, token: nat, body: string) {
    |atts| == |ds| && rewriter(RewriteInput(atts, ds, |atts|), token) == Some(body)
  }

  class Processor {
    const storage: Storage
    const engine: Engine

    constructor (storage: Storage, engine: Engine)
      ensures this.storage == storage && this.engine == engine
    {
      this.storage, this.engine := storage, engine;
    }

    /** How many calls have failed so far. */
    function Faults(): nat
      reads storage, engine.metadata, engine.entropy
    {
      storage.Faults() + engine.Faults()
    }

    function Now(): Start
      reads storage, engine.metadata, engine.entropy
    {
      Start(storage.objects, engine.metadata.rows, engine.entropy.next, engine.entropy.draws, storage.puts,
            storage.deletes, engine.metadata.inserts, engine.metadata.deletes, Faults(), engine.entropy.Faults())
    }

    /** Uploads one attachment. If it is the attachment's id that cannot be drawn, its object has
        been stored already and belongs to no upload. */
    method UploadOne(att: Attachment, body: Body) returns (u: Option<Uploaded>, ghost orphan: Option<nat>)
      requires forall key :: key in storage.objects ==> key < engine.entropy.next
      modifies storage, engine.entropy
      ensures engine.entropy.next >= old(engine.entropy.next)
      ensures forall key :: key in storage.objects ==> key < engine.entropy.next
      ensures storage.deletes == old(storage.deletes)
      ensures var draw, put, one := old(engine.entropy.draws), old(storage.puts), [(att, body)];
              && (u.Some? <==> Uploads(engine.entropy.fails, storage.putFails, draw, put, one, 0))
              && (orphan.Some? <==> Strands(engine.entropy.fails, storage.putFails, draw, put, one))
              && (u.Some? ==> engine.entropy.draws == draw + 2 && storage.puts == put + 1)
      ensures if u.Some? then Faults() == old(Faults()) else Faults() > old(Faults()) || !body.Content?
      ensures Faults() >= old(Faults())
      ensures engine.entropy.Faults() >= old(engine.entropy.Faults()) + if orphan.Some? then 1 else 0
      ensures match u
              case None => orphan.None? ==> storage.objects == old(storage.objects)
              case Some(up) =>
                && orphan == None && up.att == att && up.key !in old(storage.objects)
                && old(engine.entropy.next) <= up.id < engine.entropy.next
                && body.Content? && storage.objects == old(storage.objects)[up.key := body.text]
      ensures orphan.Some? ==>
                && orphan.value !in old(storage.objects)
                && body.Content? && storage.objects == old(storage.objects)[orphan.value := body.text]
    {
      orphan := None;
      ghost var draw, at, one := engine.entropy.draws, storage.puts, [(att, body)];
      FirstFailure(engine.entropy.fails, storage.putFails, draw, at, one,
                   if Uploads(engine.entropy.fails, storage.putFails, draw, at, one, 0) then 1 else 0);
      var key := engine.entropy.Draw();
      if key.None? || body.OpenFails? {
        return None, None;
      }
      var put := storage.Put(key.value, body);
      if !put {
        return None, None;
      }
      var id := engine.entropy.Draw();
      if id.None? {
        return None, Some(key.value);
      }
      u := Some(Uploaded(att, id.value, key.value));
    }

    /** Uploads what is to be replaced, up to the first failure. */
    method UploadReplaced(atts: seq<Attachment>, bodies: seq<Body>, ds: seq<Decision>)
      returns (ok: bool, us: seq<Uploaded>, ghost orphan: Option<nat>)
      requires |atts| == |bodies| == |ds|
      requires forall key :: key in storage.objects ==> key < engine.entropy.next
      modifies storage, engine.entropy
      ensures engine.entropy.next >= old(engine.entropy.next)
      ensures forall key :: key in storage.objects ==> key < engine.entropy.next
      ensures ok ==> orphan == None && |us| == |Replaced(atts, bodies, ds, |ds|)|
      ensures ok ==> Uploading(us, Replaced(atts, bodies, ds, |ds|), old(Now()), Now())
      ensures !ok ==> Stopped(us, Replaced(atts, bodies, ds, |ds|), orphan, old(Now()), Now())
    {
      us, orphan := [], None;
      ghost var what, was := Replaced(atts, bodies, ds, |ds|), Now();
      ghost var tally := Tally(atts, bodies, ds);
      var i := 0;
      while i < |ds|
        invariant i <= |ds| && orphan == None
        invariant engine.entropy.next >= old(engine.entropy.next)
        invariant forall key :: key in storage.objects ==> key < engine.entropy.next
        invariant |us| == tally[i]
        invariant Uploading(us, what, was, Now())
      {
        ok, us, orphan := UploadAt(atts, bodies, ds, i, us, what, tally[i + 1], was);
        if !ok {
          return;
        }
        i := i + 1;
      }
      ok := true;
    }

    /** The given uploads are those of the first attachments, and all that was done. */
    ghost predicate Uploading(us: seq<Uploaded>, what: seq<(Attachment, Body)>, was: Start, now: Start) {
      && now.deleted == was.deleted && now.faults == was.faults && now.drawFaults >= was.drawFaults
      && Grown(was.objects, us, None, now.objects)
      && AllStored(us, what, now.objects)
      && RisingIDs(us) && (forall i :: 0 <= i < |us| ==> us[i].id < now.next)
      && UploadedFirst(was.draw, was.put, what, |us|)
      && now.draw == was.draw + 2 * |us| && now.put == was.put + |us|
    }

    /** The upload after the given ones failed, and possibly stranded an object. */
    ghost predicate Stopped(us: seq<Uploaded>, what: seq<(Attachment, Body)>, orphan: Option<nat>, was: Start,
                            now: Start)
    {
      && now.deleted == was.deleted && |us| < |what|
      && Grown(was.objects, us, orphan, now.objects)
      && AllStored(us, what, now.objects)
      && UploadsUpTo(engine.entropy.fails, storage.putFails, was.draw, was.put, what, |us|)
      && (orphan.Some? <==> Strands(engine.entropy.fails, storage.putFails, was.draw, was.put, what))
      && now.drawFaults >= was.drawFaults + (if orphan.Some? then 1 else 0)
      && now.faults >= was.faults && (now.faults > was.faults || !AllContent(what))
    }

    /** Uploads an attachment if it is to be replaced. */
    method UploadAt(atts: seq<Attachment>, bodies: seq<Body>, ds: seq<Decision>, i: nat, us: seq<Uploaded>,
                    ghost what: seq<(Attachment, Body)>, ghost next: nat, ghost was: Start)
      returns (ok: bool, more: seq<Uploaded>, ghost orphan: Option<nat>)
      requires i < |atts| == |bodies| == |ds| && Tallies(atts, bodies, ds, what, i, |us|, next)
      requires Uploading(us, what, was, Now())
      requires forall key :: key in storage.objects ==> key < engine.entropy.next
      modifies storage, engine.entropy
      ensures engine.entropy.next >= old(engine.entropy.next)
      ensures forall key :: key in storage.objects ==> key < engine.entropy.next
      ensures ok ==> orphan == None && |more| == next && Uploading(more, what, was, Now())
      ensures !ok ==> Stopped(more, what, orphan, was, Now())
    {
      if ds[i].action != Replace {
        return true, us, None;
      }
      var u;
      u, orphan := UploadNext(atts[i], bodies[i], us, what, was);
      ok := u.Some?;
      more := if ok then us + [u.value] else us;
    }

    /** Uploads the attachment after those uploaded. */
    method UploadNext(att: Attachment, body: Body, us: seq<Uploaded>, ghost what: seq<(Attachment, Body)>,
                      ghost was: Start)
      returns (u: Option<Uploaded>, ghost orphan: Option<nat>)
      requires forall key :: key in storage.objects ==> key < engine.entropy.next
      requires Uploading(us, what, was, Now()) && |us| < |what| && what[|us|] == (att, body)
      modifies storage, engine.entropy
      ensures engine.entropy.next >= old(engine.entropy.next)
      ensures forall key :: key in storage.objects ==> key < engine.entropy.next
      ensures u.Some? ==> orphan == None && Uploading(us + [u.value], what, was, Now())
      ensures u.None? ==> Stopped(us, what, orphan, was, Now())
    {
      ghost var mid := Now();
      u, orphan := UploadOne(att, body);
      if u.None? {
        UploadStops(us, what, orphan, was, mid, Now());
      } else {
        UploadGoesOn(us, what, u.value, was, mid, Now());
      }
    }

    lemma UploadStops(us: seq<Uploaded>, what: seq<(Attachment, Body)>, orphan: Option<nat>, was: Start, mid: Start,
                      now: Start)
      requires Uploading(us, what, was, mid) && |us| < |what| && now.deleted == mid.deleted
      requires !Uploads(engine.entropy.fails, storage.putFails, mid.draw, mid.put, [what[|us|]], 0)
      requires orphan.Some? <==> Strands(engine.entropy.fails, storage.putFails, mid.draw, mid.put, [what[|us|]])
      requires orphan.None? ==> now.objects == mid.objects
      requires orphan.Some? ==>
                 && orphan.value !in mid.objects && orphan.value in now.objects
                 && now.objects == mid.objects[orphan.value := now.objects[orphan.value]]
      requires now.drawFaults >= mid.drawFaults + if orphan.Some? then 1 else 0
      requires now.faults >= mid.faults && (now.faults > mid.faults || !what[|us|].1.Content?)
      ensures Stopped(us, what, orphan, was, now)
    {
      StoredStill(us, what, what, mid.objects, now.objects);
      GrownOrphan(was.objects, us, mid.objects, orphan, now.objects);
      NextUpload(was.draw, was.put, what, |us|, false, orphan.Some?);
    }

    lemma UploadGoesOn(us: seq<Uploaded>, what: seq<(Attachment, Body)>, u: Uploaded, was: Start, mid: Start,
                       now: Start)
      requires Uploading(us, what, was, mid) && |us| < |what|
      requires Uploads(engine.entropy.fails, storage.putFails, mid.draw, mid.put, [what[|us|]], 0)
      requires StoredAs(u, what[|us|], now.objects)
      requires u.key !in mid.objects && now.objects == mid.objects[u.key := now.objects[u.key]]
      requires now.deleted == mid.deleted && now.faults == mid.faults && now.drawFaults >= mid.drawFaults
      requires now.draw == mid.draw + 2 && now.put == mid.put + 1 && mid.next <= u.id < now.next
      ensures Uploading(us + [u], what, was, now)
    {
      StoredStill(us, what, what, mid.objects, now.objects);
      GrownUpload(was.objects, us, mid.objects, u, now.objects);
      FirstFailure(engine.entropy.fails, storage.putFails, mid.draw, mid.put, [what[|us|]], 1);
      NextUpload(was.draw, was.put, what, |us|, true, false);
    }

    /** The first n attachments were uploaded. */
    ghost predicate UploadedFirst(draw: nat, put: nat, what: seq<(Attachment, Body)>, n: nat) {
      && n <= |what|
      && forall i: nat :: i < n ==> Uploads(engine.entropy.fails, storage.putFails, draw, put, what, i)
    }

    /** How the n-th upload ends decides whether uploading strands an object. */
    lemma NextUpload(draw: nat, put: nat, what: seq<(Attachment, Body)>, n: nat, uploaded: bool, stranded: bool)
      requires n < |what| && UploadedFirst(draw, put, what, n)
      requires var one, d, c := [what[n]], draw + 2 * n, put + n;
               && (uploaded <==> Uploads(engine.entropy.fails, storage.putFails, d, c, one, 0))
               && (stranded <==> Strands(engine.entropy.fails, storage.putFails, d, c, one))
      ensures uploaded ==> UploadedFirst(draw, put, what, n + 1)
      ensures !uploaded ==> UploadsUpTo(engine.entropy.fails, storage.putFails, draw, put, what, n)
      ensures !uploaded ==> (stranded <==> Strands(engine.entropy.fails, storage.putFails, draw, put, what))
    {
      var drawFails, putFails := engine.entropy.fails, storage.putFails;
      var one, d, c := [what[n]], draw + 2 * n, put + n;
      assert Stores(drawFails, putFails, d, c, one, 0) == Stores(drawFails, putFails, draw, put, what, n);
      if !uploaded {
        FirstFailure(drawFails, putFails, d, c, one, 0);
        FirstFailure(drawFails, putFails, draw, put, what, n);
      }
    }

    /** Deletes the uploaded objects again: all those whose deletion does not fail. */
    method DeleteUploaded(us: seq<Uploaded>) returns (ok: bool)
      modifies storage
      ensures storage.deletes == old(storage.deletes) + |us| && storage.puts == old(storage.puts)
      ensures storage.Faults() >= old(storage.Faults())
      ensures storage.objects == old(storage.objects) - GoneKeys(storage.deleteFails, old(storage.deletes), us, |us|)
      ensures ok <==> NoneFail(storage.deleteFails, old(storage.deletes), |us|)
    {
      ok := true;
      var i := 0;
      while i < |us|
        invariant i <= |us| && storage.deletes == old(storage.deletes) + i && storage.puts == old(storage.puts)
        invariant storage.Faults() >= old(storage.Faults())
        invariant storage.objects == old(storage.objects) - GoneKeys(storage.deleteFails, old(storage.deletes), us, i)
        invariant ok <==> NoneFail(storage.deleteFails, old(storage.deletes), i)
      {
        OneMoreDeletion(old(storage.objects), storage.deleteFails, old(storage.deletes), us, i);
        var deleted := storage.Delete(us[i].key);
        ok := ok && deleted;
        i := i + 1;
      }
    }

    /** Purging removes the message's rows now. */
    predicate Purges(messageID: nat)
      reads engine.metadata
    {
      && !engine.metadata.deleteFails(engine.metadata.deletes)
      && !HasHeld(engine.metadata.rows, messageID) && HasMessage(engine.metadata.rows, messageID)
    }

    /** Undoes a run that failed: its objects, and its rows if there may be any. */
    method Undo(us: seq<Uploaded>, compensate: bool, messageID: nat) returns (ok: bool, ghost log: seq<AuditEvent>)
      modifies storage, engine.metadata, engine.trail
      ensures Faults() >= old(Faults())
      ensures storage.deletes == old(storage.deletes) + |us|
      ensures engine.metadata.deletes == old(engine.metadata.deletes) + if compensate then 1 else 0
      ensures storage.objects == old(storage.objects) - GoneKeys(storage.deleteFails, old(storage.deletes), us, |us|)
      ensures engine.metadata.rows == if compensate && old(Purges(messageID))
                                      then Without(old(engine.metadata.rows), messageID)
                                      else old(engine.metadata.rows)
      ensures ok <==> && NoneFail(storage.deleteFails, old(storage.deletes), |us|)
                      && (compensate ==> !engine.metadata.deleteFails(old(engine.metadata.deletes))
                                         && !HasHeld(old(engine.metadata.rows), messageID))
      ensures log == if compensate then [Compensated(messageID, old(Purges(messageID)))] else []
      ensures engine.trail.events == old(engine.trail.events) + log && NoTerminal(log)
    {
      log := [];
      ok := DeleteUploaded(us);
      if compensate {
        var purged := engine.PurgeMessage(messageID);
        log := [Compensated(messageID, purged == Deleted)];
        ok := ok && purged in {Deleted, Missing};
      }
    }

    /** The message is what the rewriter makes of the input and of the first recipient's link to
        the package page. */
    ghost predicate RewriteOf(body: string, run: Run, env: Envelope, input: seq<(Attachment, Decision)>,
                              rewriter: Rewriter)
    {
      rewriter(input, run.token) == Some(body) && LinksFirst(run, env)
    }

    predicate PackageLinkOf(c: CreatedLink, recipient: string, token: nat) {
      PurposeOf(c) == Purpose(None, recipient) && c.token == token
    }

    /** The rewriter fails on the input and that link. */
    ghost predicate CannotRewrite(run: Run, env: Envelope, input: seq<(Attachment, Decision)>, rewriter: Rewriter) {
      rewriter(input, run.token) == None && LinksFirst(run, env)
    }

    /** The run's token is that of the first recipient's link to the package page. */
    ghost predicate LinksFirst(run: Run, env: Envelope) {
      && env.recipients != []
      && exists i :: 0 <= i < |run.created| && PackageLinkOf(run.created[i], env.recipients[0], run.token)
    }

    /** The links of a message lead to its uploads, and none outlives them. */
    ghost predicate Linked(run: Run, env: Envelope, d: MessageDecision, before: seq<Row>, rows: seq<Row>) {
      && LimitTo(run.created, ResolveParams(Merged(d.attachments, |d.attachments|), engine.defaults).maxDownloads)
      && Purposes(run.created) == AllPurposes(env.recipients, Inputs(run.uploaded), |env.recipients|)
      && ExpireAt(run.created, run.expiresAt) && run.expiresAt <= run.retainUntil && DistinctTokens(run.created)
      && rows == before + Stored(engine.hash, run.messageID, env.sender, d.action, Inputs(run.uploaded),
                                 run.retainUntil, run.created)
    }

    /** Rows of one message, its own row first, were added to rows that had none of it. */
    ghost predicate AddedTo(before: seq<Row>, rows: seq<Row>, messageID: nat) {
      && Foreign(before, messageID)
      && exists added :: Headed(added, messageID) && rows == before + added
    }

    /** Purging such a message leaves the rows as they were; there is nothing to purge only if
        nothing was added. */
    lemma PurgesAdded(before: seq<Row>, rows: seq<Row>, messageID: nat)
      requires AddedTo(before, rows, messageID)
      ensures Without(rows, messageID) == before
      ensures !HasMessage(rows, messageID) ==> rows == before
      ensures before <= rows && !HasHeld(rows, messageID)
    {
      var added :| Headed(added, messageID) && rows == before + added;
      WithoutAdded(before, added, messageID);
      if added != [] {
        assert rows[|before|] == added[0];
      }
    }

    /** The steps from creating the links to the rewritten message. */
    method LinkAndRewrite(env: Envelope, d: MessageDecision, us: seq<Uploaded>, messageID: nat,
                          input: seq<(Attachment, Decision)>, rewriter: Rewriter)
      returns (body: Option<string>, ghost run: Run, ghost log: seq<AuditEvent>)
      requires us != [] && env.recipients != []
      requires Foreign(engine.metadata.rows, messageID)
      requires KnownRows(engine.metadata.rows, engine.entropy.next) && messageID < engine.entropy.next
      modifies engine.metadata, engine.entropy, engine.clock, engine.trail
      ensures KnownRows(engine.metadata.rows, engine.entropy.next) && engine.entropy.next >= old(engine.entropy.next)
      ensures run.uploaded == us && run.messageID == messageID
      ensures body.Some? ==>
          && Linked(run, env, d, old(engine.metadata.rows), engine.metadata.rows)
          && RewriteOf(body.value, run, env, input, rewriter)
      ensures body.None? ==> engine.Faults() > old(engine.Faults()) || CannotRewrite(run, env, input, rewriter)
      ensures body.Some? ==> engine.Faults() == old(engine.Faults())
      ensures engine.Faults() >= old(engine.Faults()) && engine.metadata.deletes == old(engine.metadata.deletes)
      ensures engine.metadata.rows == old(engine.metadata.rows)
              <==> engine.metadata.insertFails(old(engine.metadata.inserts))
      ensures run.created == [] <==> log == []
      ensures log == [] || log == LinkEvents(env.recipients, |env.recipients|)
      ensures engine.entropy.Faults() >= old(engine.entropy.Faults())
      ensures body.Some? ==> log == LinkEvents(env.recipients, |env.recipients|)
      ensures body.Some? ==> Dated(ResolveParams(Merged(d.attachments, |d.attachments|), engine.defaults),
                                   run.expiresAt, run.retainUntil, old(engine.clock.now), engine.clock.now)
      ensures AddedTo(old(engine.metadata.rows), engine.metadata.rows, messageID)
      ensures engine.trail.events == old(engine.trail.events) + log && NoTerminal(log)
    {
      run := Run(us, [], messageID, 0, 0, 0);
      log := [];
      ghost var before := engine.metadata.rows;
      var params := WorstCaseReplaceParams(d);
      var created;
      ghost var expiresAt, retainUntil;
      created, expiresAt, retainUntil :=
        engine.CreateLinks(messageID, env.sender, d.action, Inputs(us), env.recipients, params);
      if created.None? {
        ghost var added :| Headed(added, messageID) && engine.metadata.rows == before + added;
        KnownAdded(before, added, messageID, old(engine.entropy.next), engine.entropy.next);
        return None, run, log;
      }
      run := Run(us, created.value, messageID, expiresAt, retainUntil, 0);
      ghost var stored := Stored(engine.hash, messageID, env.sender, d.action, Inputs(us), retainUntil, created.value);
      StoredHeaded(engine.hash, messageID, env.sender, d.action, Inputs(us), retainUntil, created.value);
      assert Belong(stored, messageID);
      KnownAdded(before, stored, messageID, old(engine.entropy.next), engine.entropy.next);
      log := RecordLinks(env.recipients);
      var link := PackageLinkFor(created.value, env.recipients[0]);
      PackageLinkExists(created.value, Inputs(us), env.recipients, 0);
      body := None;
      if link.Some? {
        body := rewriter(input, link.value.token);
        run := run.(token := link.value.token);
      }
    }

    method RecordLinks(recipients: seq<string>) returns (ghost log: seq<AuditEvent>)
      modifies engine.trail
      ensures engine.trail.events == old(engine.trail.events) + log && NoTerminal(log)
      ensures log == LinkEvents(recipients, |recipients|)
    {
      log := [];
      var i := 0;
      while i < |recipients|
        invariant i <= |recipients| && log == LinkEvents(recipients, i)
        invariant engine.trail.events == old(engine.trail.events) + log && NoTerminal(log)
      {
        engine.trail.Record(LinksCreated(recipients[i]));
        log := log + [LinksCreated(recipients[i])];
        i := i + 1;
      }
    }

    /** The link to the package page for a recipient, if there is one. */
    method PackageLinkFor(created: seq<CreatedLink>, recipient: string) returns (link: Option<CreatedLink>)
      ensures link.Some? <==> exists j :: 0 <= j < |created| && PurposeOf(created[j]) == Purpose(None, recipient)
      ensures link.Some? ==> exists j :: 0 <= j < |created| && PackageLinkOf(created[j], recipient, link.value.token)
    {
      var i := 0;
      while i < |created|
        invariant i <= |created|
        invariant forall j :: 0 <= j < i ==> PurposeOf(created[j]) != Purpose(None, recipient)
      {
        if created[i].attachment.None? && created[i].recipient == recipient {
          assert PackageLinkOf(created[i], recipient, created[i].token);
          return Some(created[i]);
        }
        i := i + 1;
      }
      return None;
    }

    /** What a run that delivered a rewritten message left behind. */
    ghost predicate Delivered(run: Run, env: Envelope, d: MessageDecision, what: seq<(Attachment, Body)>, was: Start,
                              now: Start)
    {
      && |run.uploaded| == |what| > 0
      && Grown(was.objects, run.uploaded, None, now.objects)
      && AllStored(run.uploaded, what, now.objects)
      && Linked(run, env, d, was.rows, now.rows)
    }

    /** What was delivered serves every recipient. */
    ghost predicate Serving(run: Run, env: Envelope, what: seq<(Attachment, Body)>, now: Start) {
      Serves(now.rows, now.objects, engine.hash, run.messageID, run.created, env.recipients, what)
    }

    /** The message's own row names its sender and what was decided; the links to attachments can be
        used as often as the rulings allow, or by default, and those to the package page without limit;
        all of the message's rows have its deadlines. */
    ghost predicate Limited(run: Run, env: Envelope, d: MessageDecision, now: Start) {
      run.expiresAt <= run.retainUntil && forall l :: 0 <= l < |now.rows| ==> RowLimited(run, env, d, now.rows[l])
    }

    predicate RowLimited(run: Run, env: Envelope, d: MessageDecision, row: Row) {
      row.messageID == run.messageID ==>
        match row
        case MessageRow(_, sender, status) => sender == env.sender && status == d.action
        case AttachmentRow(_, _, _, _, retainUntil) => retainUntil == run.retainUntil
        case LinkRow(_, attachment, _, _, expiresAt, maxDownloads, _) =>
          var bound := Merged(d.attachments, |d.attachments|).maxDownloads;
          && expiresAt == run.expiresAt
          && maxDownloads == if attachment.None? then 0
                             else if bound.Some? then bound.value else engine.defaults.maxDownloads
    }

    lemma DeliveredLimited(run: Run, env: Envelope, d: MessageDecision, what: seq<(Attachment, Body)>, was: Start,
                           now: Start)
      requires Delivered(run, env, d, what, was, now) && Foreign(was.rows, run.messageID)
      ensures Limited(run, env, d, now)
    {
      LaidOut(was.rows, engine.hash, run.messageID, env.sender, d.action, run.uploaded, run.retainUntil, run.created);
      forall l: nat | l < |now.rows|
        ensures RowLimited(run, env, d, now.rows[l])
      {
        RowAt(now.rows, |was.rows|, engine.hash, run.messageID, run.uploaded, run.retainUntil, run.created, l);
      }
    }

    lemma DeliveredServes(run: Run, env: Envelope, d: MessageDecision, what: seq<(Attachment, Body)>, was: Start,
                          now: Start)
      requires Delivered(run, env, d, what, was, now) && RisingIDs(run.uploaded) && Foreign(was.rows, run.messageID)
      ensures Serving(run, env, what, now) && Limited(run, env, d, now)
    {
      DeliveredLimited(run, env, d, what, was, now);
      StoredServes(was.rows, now.objects, engine.hash, run.messageID, env.sender, d.action, run.uploaded,
                   run.retainUntil, run.created, env.recipients, what, run.expiresAt);
    }

    /** What a run that did not deliver left behind: objects as their deletions went; and rows only
        if links were attempted and the purge failed. */
    ghost predicate Cleared(run: Run, what: seq<(Attachment, Body)>, stranded: bool, attempted: bool, was: Start,
                            now: Start)
    {
      && Remains(was.objects, run.uploaded, what, storage.deleteFails, was.deleted, stranded, now.objects)
      && now.deleted == was.deleted + |run.uploaded|
      && now.purged == was.purged + (if attempted then 1 else 0)
      && if attempted && engine.metadata.deleteFails(was.purged)
         then AddedTo(was.rows, now.rows, run.messageID)
         else now.rows == was.rows
    }

    /** Purging after the links were attempted removes something. */
    ghost predicate Purged(was: Start) {
      !engine.metadata.deleteFails(was.purged) && !engine.metadata.insertFails(was.inserted)
    }

    /** All attachments are uploaded, for draws from the given one on. */
    ghost predicate AllUploaded(draw: nat, put: nat, what: seq<(Attachment, Body)>) {
      UploadsUpTo(engine.entropy.fails, storage.putFails, draw, put, what, |what|)
    }

    /** Whatever failed, nothing that was there before has been touched. */
    ghost predicate Untouched(was: Start, now: Start) {
      Kept(was.objects, now.objects) && was.rows <= now.rows
    }

    /** Carries out the replacements, or undoes them. */
    method Deliver(env: Envelope, atts: seq<Attachment>, bodies: seq<Body>, d: MessageDecision, rewriter: Rewriter)
      returns (body: Option<string>, ghost run: Run, ghost log: seq<AuditEvent>)
      requires |atts| == |bodies| == |d.attachments| && env.recipients != []
      requires Replaced(atts, bodies, d.attachments, |atts|) != []
      requires Known(storage.objects, engine.metadata.rows, engine.entropy.next)
      modifies storage, engine.metadata, engine.entropy, engine.clock, engine.trail
      ensures Known(storage.objects, engine.metadata.rows, engine.entropy.next)
      ensures engine.trail.events == old(engine.trail.events) + log && NoTerminal(log)
      ensures body.Some? ==> Delivered(run, env, d, Replaced(atts, bodies, d.attachments, |atts|), old(Now()), Now())
      ensures body.Some? ==> Serving(run, env, Replaced(atts, bodies, d.attachments, |atts|), Now())
      ensures body.Some? ==> Limited(run, env, d, Now())
      ensures var was, what := old(Now()), Replaced(atts, bodies, d.attachments, |atts|);
              Ends(run, env, what, !engine.entropy.fails(was.draw), was.draw + 1, body.Some?, log, was, Now())
      ensures Untouched(old(Now()), Now())
      ensures body.Some? ==> RewriteOf(body.value, run, env, RewriteInput(atts, d.attachments, |atts|), rewriter)
      ensures body.Some? ==> log == DeliveryEvents(run.uploaded, env.recipients)
      ensures body.Some? ==> Faults() == old(Faults())
      ensures body.None? ==>
                || Faults() > old(Faults())
                || !AllContent(Replaced(atts, bodies, d.attachments, |atts|))
                || CannotRewrite(run, env, RewriteInput(atts, d.attachments, |atts|), rewriter)
    {
      run, log := NOTHING, [];
      ghost var was, what := Now(), Replaced(atts, bodies, d.attachments, |atts|);
      var messageID := engine.entropy.Draw();
      ghost var mid := Now();
      if messageID.None? {
        NothingBegun(env, what, was, mid);
        return None, run, log;
      }
      body, run, log := DeliverAs(messageID.value, env, atts, bodies, d, rewriter);
      BegunWith(run, env, what, body.Some?, log, was, mid, Now());
    }

    lemma NothingBegun(env: Envelope, what: seq<(Attachment, Body)>, was: Start, now: Start)
      requires now.objects == was.objects && now.rows == was.rows
      requires now.deleted == was.deleted && now.purged == was.purged
      ensures Ends(NOTHING, env, what, false, was.draw + 1, false, [], was, now)
    {
      assert was.objects - {} == was.objects;
    }

    lemma BegunWith(run: Run, env: Envelope, what: seq<(Attachment, Body)>, delivered: bool, log: seq<AuditEvent>,
                    was: Start, mid: Start, now: Start)
      requires mid == was.(next := mid.next, draw := mid.draw)
      requires Ends(run, env, what, true, mid.draw, delivered, log, mid, now)
      ensures Ends(run, env, what, true, mid.draw, delivered, log, was, now)
    {}

    /** Uploads, links and rewrites under a message id, or undoes that. */
    method DeliverAs(messageID: nat, env: Envelope, atts: seq<Attachment>, bodies: seq<Body>, d: MessageDecision,
                     rewriter: Rewriter)
      returns (body: Option<string>, ghost run: Run, ghost log: seq<AuditEvent>)
      requires |atts| == |bodies| == |d.attachments| && env.recipients != []
      requires Replaced(atts, bodies, d.attachments, |atts|) != []
      requires Known(storage.objects, engine.metadata.rows, engine.entropy.next) && messageID < engine.entropy.next
      requires Foreign(engine.metadata.rows, messageID)
      modifies storage, engine.metadata, engine.entropy, engine.clock, engine.trail
      ensures Known(storage.objects, engine.metadata.rows, engine.entropy.next)
      ensures engine.trail.events == old(engine.trail.events) + log && NoTerminal(log)
      ensures body.Some? ==> Delivered(run, env, d, Replaced(atts, bodies, d.attachments, |atts|), old(Now()), Now())
      ensures body.Some? ==> Serving(run, env, Replaced(atts, bodies, d.attachments, |atts|), Now())
      ensures body.Some? ==> Limited(run, env, d, Now())
      ensures Ends(run, env, Replaced(atts, bodies, d.attachments, |atts|), true, old(engine.entropy.draws), body.Some?,
                   log, old(Now()), Now())
      ensures Untouched(old(Now()), Now())
      ensures body.Some? ==> RewriteOf(body.value, run, env, RewriteInput(atts, d.attachments, |atts|), rewriter)
      ensures body.Some? ==> log == DeliveryEvents(run.uploaded, env.recipients)
      ensures body.Some? ==> Faults() == old(Faults())
      ensures engine.entropy.Faults() >= old(engine.entropy.Faults())
      ensures body.None? ==>
                || Faults() > old(Faults())
                || !AllContent(Replaced(atts, bodies, d.attachments, |atts|))
                || CannotRewrite(run, env, RewriteInput(atts, d.attachments, |atts|), rewriter)
    {
      ghost var was, what := Now(), Replaced(atts, bodies, d.attachments, |atts|);
      var ok, us;
      ghost var orphan;
      ok, us, orphan := UploadReplaced(atts, bodies, d.attachments);
      ghost var mid := Now();
      if !ok {
        run := Run(us, [], messageID, 0, 0, 0);
        RollBackUploads(us, what, orphan, messageID, was.objects);
        StoppedEnds(run, env, what, orphan, was, mid, Now());
        return None, run, [];
      }
      var input := FilterForRewrite(atts, d.attachments);
      body, run, log := Complete(env, d, us, messageID, input, rewriter, what, was.objects);
      CompletedEnds(run, env, what, body.Some?, log, was, mid, Now());
      if body.Some? {
        DeliveredServes(run, env, d, what, was, Now());
      }
    }

    /** How a delivery with its uploads drawing from the given draw on ends, if it has begun: which
        attachments were uploaded, whether one was stranded, and, unless it delivered, what it left
        behind and recorded. */
    ghost predicate Ends(run: Run, env: Envelope, what: seq<(Attachment, Body)>, begun: bool, draw: nat,
                         delivered: bool, log: seq<AuditEvent>, was: Start, now: Start)
    {
      var stranded := begun && Strands(engine.entropy.fails, storage.putFails, draw, was.put, what);
      var attempted := begun && AllUploaded(draw, was.put, what);
      && (begun ==> UploadsUpTo(engine.entropy.fails, storage.putFails, draw, was.put, what, |run.uploaded|))
      && (delivered ==> attempted)
      && (!delivered ==> Cleared(run, what, stranded, attempted, was, now)
                         && log == GiveUpEvents(run, env, attempted, Purged(was)))
      && (stranded ==> !delivered && now.drawFaults > was.drawFaults)
    }

    lemma StoppedEnds(run: Run, env: Envelope, what: seq<(Attachment, Body)>, orphan: Option<nat>, was: Start,
                      mid: Start, now: Start)
      requires Stopped(run.uploaded, what, orphan, was, mid) && now.drawFaults >= mid.drawFaults
      requires Cleared(run, what, orphan.Some?, false, was, now)
      ensures Ends(run, env, what, true, was.draw, false, [], was, now)
    {}

    lemma CompletedEnds(run: Run, env: Envelope, what: seq<(Attachment, Body)>, delivered: bool,
                        log: seq<AuditEvent>, was: Start, mid: Start, now: Start)
      requires Uploading(run.uploaded, what, was, mid) && |run.uploaded| == |what|
      requires !delivered ==> Cleared(run, what, false, true, was, now)
      requires !delivered ==> log == GiveUpEvents(run, env, true, Purged(was))
      ensures Ends(run, env, what, true, was.draw, delivered, log, was, now)
    {
      FirstFailure(engine.entropy.fails, storage.putFails, was.draw, was.put, what, |what|);
    }

    /** Leaves out the message's own text, which the rewriter must see without a decision. */
    method FilterForRewrite(atts: seq<Attachment>, ds: seq<Decision>) returns (input: seq<(Attachment, Decision)>)
      requires |atts| == |ds|
      ensures input == RewriteInput(atts, ds, |atts|)
    {
      input := [];
      var i := 0;
      while i < |atts|
        invariant i <= |atts| && input == RewriteInput(atts, ds, i)
      {
        if !IsStructuralBody(atts[i]) {
          input := input + [(atts[i], ds[i])];
        }
        i := i + 1;
      }
    }

    /** Links the uploads and rewrites the message, or undoes the uploads and the links. */
    method Complete(env: Envelope, d: MessageDecision, us: seq<Uploaded>, messageID: nat,
                    input: seq<(Attachment, Decision)>, rewriter: Rewriter,
                    ghost what: seq<(Attachment, Body)>, ghost objects: map<nat, string>)
      returns (body: Option<string>, ghost run: Run, ghost log: seq<AuditEvent>)
      requires env.recipients != [] && |us| == |what| > 0
      requires Grown(objects, us, None, storage.objects) && AllStored(us, what, storage.objects)
      requires Known(storage.objects, engine.metadata.rows, engine.entropy.next) && messageID < engine.entropy.next
      requires Foreign(engine.metadata.rows, messageID)
      modifies storage, engine.metadata, engine.entropy, engine.clock, engine.trail
      ensures Known(storage.objects, engine.metadata.rows, engine.entropy.next)
      ensures engine.trail.events == old(engine.trail.events) + log && NoTerminal(log)
      ensures body.Some? ==> Delivered(run, env, d, what, old(Now()).(objects := objects), Now())
      ensures body.Some? ==> RewriteOf(body.value, run, env, input, rewriter)
      ensures body.Some? ==> log == DeliveryEvents(run.uploaded, env.recipients)
      ensures body.None? ==> Faults() > old(Faults()) || CannotRewrite(run, env, input, rewriter)
      ensures body.Some? ==> Faults() == old(Faults())
      ensures run.uploaded == us && run.messageID == messageID
      ensures body.None? ==> Cleared(run, what, false, true, old(Now()).(objects := objects), Now())
      ensures body.None? ==> log == GiveUpEvents(run, env, true, Purged(old(Now())))
      ensures Kept(objects, storage.objects) && old(engine.metadata.rows) <= engine.metadata.rows
      ensures engine.entropy.Faults() >= old(engine.entropy.Faults())
    {
      ghost var before := engine.trail.events;
      log := RecordStored(us);
      ghost var more;
      body, run, more := LinkAndRewrite(env, d, us, messageID, input, rewriter);
      NoTerminalTogether(log, more);
      Regroup(before, log, more);
      log := log + more;
      if body.None? {
        var undone;
        undone, more := RollBack(us, what, messageID, objects, old(engine.metadata.rows));
        NoTerminalTogether(log, more);
        Regroup(before, log, more);
        log := log + more;
      }
    }

    /** Undoes the uploads of a run that added nothing else, except possibly for an orphan. */
    method RollBackUploads(us: seq<Uploaded>, ghost what: seq<(Attachment, Body)>, ghost orphan: Option<nat>,
                           messageID: nat, ghost objects: map<nat, string>)
      requires Grown(objects, us, orphan, storage.objects) && AllStored(us, what, storage.objects)
      requires Known(storage.objects, engine.metadata.rows, engine.entropy.next)
      modifies storage, engine.metadata, engine.trail
      ensures Known(storage.objects, engine.metadata.rows, engine.entropy.next) && Faults() >= old(Faults())
      ensures engine.trail.events == old(engine.trail.events)
      ensures Remains(objects, us, what, storage.deleteFails, old(storage.deletes), orphan.Some?, storage.objects)
      ensures storage.deletes == old(storage.deletes) + |us|
      ensures engine.metadata.deletes == old(engine.metadata.deletes)
      ensures engine.metadata.rows == old(engine.metadata.rows)
      ensures Kept(objects, storage.objects) && old(engine.metadata.rows) <= engine.metadata.rows
    {
      ghost var grown := storage.objects;
      var undone;
      ghost var log;
      undone, log := Undo(us, false, messageID);
      UndoneObjects(objects, us, what, orphan, grown, storage.deleteFails, old(storage.deletes), storage.objects);
      assert engine.trail.events == old(engine.trail.events) + [];
    }

    /** Undoes the uploads and the rows of a run that added nothing else. */
    method RollBack(us: seq<Uploaded>, ghost what: seq<(Attachment, Body)>, messageID: nat,
                    ghost objects: map<nat, string>, ghost rows: seq<Row>)
      returns (undone: bool, ghost log: seq<AuditEvent>)
      requires Grown(objects, us, None, storage.objects) && AllStored(us, what, storage.objects)
      requires AddedTo(rows, engine.metadata.rows, messageID)
      requires Known(storage.objects, engine.metadata.rows, engine.entropy.next)
      modifies storage, engine.metadata, engine.trail
      ensures Known(storage.objects, engine.metadata.rows, engine.entropy.next) && Faults() >= old(Faults())
      ensures engine.trail.events == old(engine.trail.events) + log && NoTerminal(log)
      ensures undone <==> NoneFail(storage.deleteFails, old(storage.deletes), |us|)
                          && !engine.metadata.deleteFails(old(engine.metadata.deletes))
      ensures undone ==> storage.objects == objects && engine.metadata.rows == rows
      ensures Remains(objects, us, what, storage.deleteFails, old(storage.deletes), false, storage.objects)
      ensures storage.deletes == old(storage.deletes) + |us|
      ensures engine.metadata.deletes == old(engine.metadata.deletes) + 1
      ensures engine.metadata.rows == if engine.metadata.deleteFails(old(engine.metadata.deletes))
                                      then old(engine.metadata.rows) else rows
      ensures log == [Compensated(messageID, !engine.metadata.deleteFails(old(engine.metadata.deletes))
                                             && old(engine.metadata.rows) != rows)]
      ensures Kept(objects, storage.objects) && rows <= engine.metadata.rows
    {
      ghost var grown := storage.objects;
      PurgesAdded(rows, engine.metadata.rows, messageID);
      KnownWithout(engine.metadata.rows, messageID, engine.entropy.next);
      undone, log := Undo(us, true, messageID);
      UndoneObjects(objects, us, what, None, grown, storage.deleteFails, old(storage.deletes), storage.objects);
      if undone {
        NothingLeft(storage.deleteFails, old(storage.deletes), us, |us|);
      }
    }

    method RecordStored(us: seq<Uploaded>) returns (ghost log: seq<AuditEvent>)
      modifies engine.trail
      ensures engine.trail.events == old(engine.trail.events) + log && NoTerminal(log)
      ensures log == StoredEvents(us, |us|)
    {
      log := [];
      var i := 0;
      while i < |us|
        invariant i <= |us| && log == StoredEvents(us, i)
        invariant engine.trail.events == old(engine.trail.events) + log && NoTerminal(log)
      {
        engine.trail.Record(AttachmentStored(us[i].key));
        log := log + [AttachmentStored(us[i].key)];
        i := i + 1;
      }
    }

    /** The leaves of a message, if it can be read within the limits. */
    method ParseMessage(m: Message, setup: Setup) returns (atts: Option<seq<Attachment>>)
      ensures atts.Some? <==> Parses(m, setup)
      ensures atts.Some? ==> atts.value == Leaves(m.root, "0", "")
    {
      if !m.captured {
        return None;
      }
      var parsed, walk := Parse(m.readable, m.root, setup.limits, setup.callback);
      if parsed != Fine {
        return None;
      }
      assert walk.Now().visited == Leaves(m.root, "0", "");
      atts := Some(walk.visited);
    }

    /** Decides on the leaves of a message and carries the decision out. */
    method Act(env: Envelope, atts: seq<Attachment>, bodies: seq<Body>, policy: Policy, setup: Setup)
      returns (r: Verdict, ghost run: Run, ghost log: seq<AuditEvent>, ghost d: MessageDecision,
               ghost ruled: seq<Decision>, ghost records: seq<HtmlRefs>)
      requires Assigned(policy) && |bodies| == |atts|
      requires Known(storage.objects, engine.metadata.rows, engine.entropy.next)
      modifies storage, engine.metadata, engine.entropy, engine.clock, engine.trail
      ensures Known(storage.objects, engine.metadata.rows, engine.entropy.next)
      ensures engine.trail.events == old(engine.trail.events) + ([PolicyDecided] + log) && NoTerminal(log)
      ensures AllRuled(policy, setup.matches, env, atts, ruled)
      ensures DecidedBy(setup.decode, atts, bodies, ruled, setup.maxSize, setup.dryRun, d, records)
      ensures Ended(env, atts, bodies, r, run, d, log, old(Now()), Now())
      ensures Rewrites(env, atts, bodies, r, run, d, setup.rewriter, Faults() > old(Faults()))
    {
      var decision, inlinePaths, bodyPaths;
      decision, inlinePaths, bodyPaths, ruled, records :=
        Decide(policy, setup.matches, env, setup.decode, atts, bodies, setup.maxSize, setup.dryRun);
      d := decision;
      r, run, log := Follow(env, atts, bodies, decision, setup.rewriter);
    }

    method RecordDecision()
      modifies engine.trail
      ensures Now() == old(Now())
      ensures engine.trail.events == old(engine.trail.events) + [PolicyDecided]
    {
      engine.trail.Record(PolicyDecided);
    }

    /** Records a decision and carries it out. */
    method Follow(env: Envelope, atts: seq<Attachment>, bodies: seq<Body>, d: MessageDecision, rewriter: Rewriter)
      returns (r: Verdict, ghost run: Run, ghost log: seq<AuditEvent>)
      requires |atts| == |bodies| == |d.attachments|
      requires Known(storage.objects, engine.metadata.rows, engine.entropy.next)
      modifies storage, engine.metadata, engine.entropy, engine.clock, engine.trail
      ensures Known(storage.objects, engine.metadata.rows, engine.entropy.next)
      ensures engine.trail.events == old(engine.trail.events) + ([PolicyDecided] + log) && NoTerminal(log)
      ensures Ended(env, atts, bodies, r, run, d, log, old(Now()), Now())
      ensures Rewrites(env, atts, bodies, r, run, d, rewriter, Faults() > old(Faults()))
    {
      RecordDecision();
      r, run, log := CarryOut(env, atts, bodies, d, rewriter);
      Regroup(old(engine.trail.events), [PolicyDecided], log);
    }

    /** How a message ends for which nothing is to be delivered, or to nobody. */
    lemma NothingDone(env: Envelope, atts: seq<Attachment>, bodies: seq<Body>, r: Verdict, d: MessageDecision,
                      was: Start)
      requires |atts| == |bodies| == |d.attachments|
      requires var what := Replaced(atts, bodies, d.attachments, |atts|);
               if d.action == Block then r == Rejected(d.reason)
               else if what == [] then r == Accepted
               else env.recipients == [] && r == Aborted
      ensures Ended(env, atts, bodies, r, NOTHING, d, [], was, was)
    {
      assert was.objects - {} == was.objects;
    }

    /** Carries out a decision. */
    method CarryOut(env: Envelope, atts: seq<Attachment>, bodies: seq<Body>, d: MessageDecision, rewriter: Rewriter)
      returns (r: Verdict, ghost run: Run, ghost log: seq<AuditEvent>)
      requires |atts| == |bodies| == |d.attachments|
      requires Known(storage.objects, engine.metadata.rows, engine.entropy.next)
      modifies storage, engine.metadata, engine.entropy, engine.clock, engine.trail
      ensures Known(storage.objects, engine.metadata.rows, engine.entropy.next)
      ensures engine.trail.events == old(engine.trail.events) + log && NoTerminal(log)
      ensures Ended(env, atts, bodies, r, run, d, log, old(Now()), Now())
      ensures Rewrites(env, atts, bodies, r, run, d, rewriter, Faults() > old(Faults()))
    {
      run, log := NOTHING, [];
      if d.action == Block {
        NothingDone(env, atts, bodies, Rejected(d.reason), d, Now());
        return Rejected(d.reason), run, log;
      }
      var some := HasReplace(d.attachments);
      ReplacedIff(atts, bodies, d.attachments, |atts|);
      if !some {
        NothingDone(env, atts, bodies, Accepted, d, Now());
        return Accepted, run, log;
      }
      if |env.recipients| == 0 {
        NothingDone(env, atts, bodies, Aborted, d, Now());
        return Aborted, run, log;
      }
      r, run, log := Attempt(env, atts, bodies, d, rewriter);
    }

    /** Delivers a message, or gives it up. */
    method Attempt(env: Envelope, atts: seq<Attachment>, bodies: seq<Body>, d: MessageDecision, rewriter: Rewriter)
      returns (r: Verdict, ghost run: Run, ghost log: seq<AuditEvent>)
      requires |atts| == |bodies| == |d.attachments| && env.recipients != [] && d.action != Block
      requires Replaced(atts, bodies, d.attachments, |atts|) != []
      requires Known(storage.objects, engine.metadata.rows, engine.entropy.next)
      modifies storage, engine.metadata, engine.entropy, engine.clock, engine.trail
      ensures Known(storage.objects, engine.metadata.rows, engine.entropy.next)
      ensures engine.trail.events == old(engine.trail.events) + log && NoTerminal(log)
      ensures Ended(env, atts, bodies, r, run, d, log, old(Now()), Now())
      ensures Rewrites(env, atts, bodies, r, run, d, rewriter, Faults() > old(Faults()))
    {
      var body;
      body, run, log := Deliver(env, atts, bodies, d, rewriter);
      r := if body.Some? then Rewritten(body.value) else Aborted;
    }

    /** The whole processing up to, but without, its terminal audit event. */
    method Handle(env: Envelope, message: Option<Message>, policy: Option<Policy>, setup: Setup)
      returns (r: Verdict, ghost run: Run, ghost log: seq<AuditEvent>, ghost d: MessageDecision,
               ghost ruled: seq<Decision>, ghost records: seq<HtmlRefs>)
      requires policy.Some? ==> Assigned(policy.value)
      requires message.Some? ==> |message.value.bodies| == |Leaves(message.value.root, "0", "")|
      requires Known(storage.objects, engine.metadata.rows, engine.entropy.next)
      modifies storage, engine.metadata, engine.entropy, engine.clock, engine.trail
      ensures Known(storage.objects, engine.metadata.rows, engine.entropy.next)
      ensures engine.trail.events == old(engine.trail.events) + (Opening(message, policy, setup) + log)
      ensures NoTerminal(log)
      ensures Outcome(env, message, policy, setup, r, run, d, ruled, records, log, old(Now()), Now())
    {
      run, log, d, ruled, records := NOTHING, [], MessageDecision(NoAction, [], ""), [], [];
      if message.None? {
        return Accepted, run, log, d, ruled, records;
      }
      var atts := ParseMessage(message.value, setup);
      if atts.None? {
        return Aborted, run, log, d, ruled, records;
      }
      if policy.None? {
        return Accepted, run, log, d, ruled, records;
      }
      r, run, log, d, ruled, records := Act(env, atts.value, message.value.bodies, policy.value, setup);
    }

    method HasReplace(ds: seq<Decision>) returns (r: bool)
      ensures r <==> exists i :: 0 <= i < |ds| && ds[i].action == Replace
    {
      var i := 0;
      while i < |ds|
        invariant i <= |ds| && forall j :: 0 <= j < i ==> ds[j].action != Replace
      {
        if ds[i].action == Replace {
          return true;
        }
        i := i + 1;
      }
      return false;
    }

    /** How a decided message ends: rejected exactly if blocked; otherwise left alone exactly if
        nothing is replaced; otherwise delivered with everything replaced stored and linked, or
        given up. What was there before stays as it was; and unless it is delivered, nothing is
        added but the uploads whose deletion fails, the rows if purging them fails, and one object
        exactly if uploading strands one. */
    ghost predicate Ended(env: Envelope, atts: seq<Attachment>, bodies: seq<Body>, r: Verdict, run: Run,
                          d: MessageDecision, log: seq<AuditEvent>, was: Start, now: Start)
      requires |atts| == |bodies|
    {
      && |d.attachments| == |atts|
      && var what := Replaced(atts, bodies, d.attachments, |atts|);
         var begun := d.action != Block && what != [] && env.recipients != [] && !engine.entropy.fails(was.draw);
         && (r.Rejected? <==> d.action == Block) && (r.Rejected? ==> r.reason == d.reason)
         && (r.Accepted? <==> d.action != Block && what == [])
         && (r.Accepted? || r.Rejected? ==> run == NOTHING)
         && (r.Rewritten? ==> env.recipients != [] && Delivered(run, env, d, what, was, now)
                              && Serving(run, env, what, now) && Limited(run, env, d, now)
                              && log == DeliveryEvents(run.uploaded, env.recipients))
         && Ends(run, env, what, begun, was.draw + 1, r.Rewritten?, log, was, now)
         && Untouched(was, now)
    }

    /** A decided message that is delivered rewritten is what the rewriter makes of it, and no call
        failed; it is given up only if a call failed, the message has no recipients, a replaced
        part's content cannot be read or the rewriter fails. */
    ghost predicate Rewrites(env: Envelope, atts: seq<Attachment>, bodies: seq<Body>, r: Verdict, run: Run,
                             d: MessageDecision, rewriter: Rewriter, faulty: bool)
    {
      && |atts| == |bodies| == |d.attachments|
      && var input, what := RewriteInput(atts, d.attachments, |atts|), Replaced(atts, bodies, d.attachments, |atts|);
         && (r.Rewritten? ==> !faulty && AllContent(what) && RewriteOf(r.body, run, env, input, rewriter))
         && (r.Aborted? ==>
               faulty || env.recipients == [] || !AllContent(what) || CannotRewrite(run, env, input, rewriter))
    }

    /** What processing a message comes to. Without a message or a policy it passes; what cannot
        be read within the limits is given up; and a decided message ends as decided. */
    ghost predicate Outcome(env: Envelope, message: Option<Message>, policy: Option<Policy>, setup: Setup, r: Verdict,
                            run: Run, d: MessageDecision, ruled: seq<Decision>, records: seq<HtmlRefs>,
                            log: seq<AuditEvent>, was: Start, now: Start)
      requires message.Some? ==> |message.value.bodies| == |Leaves(message.value.root, "0", "")|
    {
      && (message.None? ==> r == Accepted)
      && (message.Some? && !Parses(message.value, setup) ==> r == Aborted)
      && (message.Some? && Parses(message.value, setup) && policy.None? ==> r == Accepted)
      && if message.Some? && Parses(message.value, setup) && policy.Some? then
           var atts := Leaves(message.value.root, "0", "");
           && AllRuled(policy.value, setup.matches, env, atts, ruled)
           && DecidedBy(setup.decode, atts, message.value.bodies, ruled, setup.maxSize, setup.dryRun, d, records)
           && Ended(env, atts, message.value.bodies, r, run, d, log, was, now)
           && Rewrites(env, atts, message.value.bodies, r, run, d, setup.rewriter, now.faults > was.faults)
         else
           now == was && log == []
    }

    /** Processes a message. Exactly one terminal audit event is recorded, as the last one, on
        every way out. */
    method Process(env: Envelope, message: Option<Message>, policy: Option<Policy>, setup: Setup)
      returns (r: Verdict, ghost run: Run, ghost log: seq<AuditEvent>, ghost d: MessageDecision,
               ghost ruled: seq<Decision>, ghost records: seq<HtmlRefs>)
      requires policy.Some? ==> Assigned(policy.value)
      requires message.Some? ==> |message.value.bodies| == |Leaves(message.value.root, "0", "")|
      requires Known(storage.objects, engine.metadata.rows, engine.entropy.next)
      modifies storage, engine.metadata, engine.entropy, engine.clock, engine.trail
      ensures Known(storage.objects, engine.metadata.rows, engine.entropy.next)
      ensures engine.trail.events
              == old(engine.trail.events) + (Opening(message, policy, setup) + log) + [Terminal(r)]
      ensures NoTerminal(log)
      ensures engine.trail.events[|engine.trail.events| - 1]
              == match r
                 case Accepted => MessageProcessed("accept", "")
                 case Rejected(reason) => MessageProcessed("reject", reason)
                 case Rewritten(_) => MessageProcessed("rewrite", "")
                 case Aborted => ProcessingFailed
      ensures r.Rewritten? ==>
                && message.Some? && env.recipients != []
                && exists c :: 0 <= c < |run.created| && run.created[c].recipient == env.recipients[0]
                               && run.created[c].attachment == None
                               && EmbedsLink(setup.rewriter, Leaves(message.value.root, "0", ""), d.attachments,
                                             run.created[c].token, r.body)
      ensures message.None? ==> r == Accepted
      ensures message.Some? && !(message.value.captured && message.value.readable) ==> r == Aborted
      ensures Opening(message, policy, setup) == [PolicyDecided] <==>
                && message.Some? && message.value.captured && message.value.readable && policy.Some?
                && Fits(Effective(setup.limits), setup.callback, message.value.root)
      ensures Outcome(env, message, policy, setup, r, run, d, ruled, records, log, old(Now()), Now())
    {
      r, run, log, d, ruled, records := Handle(env, message, policy, setup);
      engine.trail.Record(Terminal(r));
    }
  }

  /** Once the links of a message were created, every recipient has a link to the package page, so
      looking it up cannot fail. */
  lemma PackageLinkExists(created: seq<CreatedLink>, inputs: seq<AttachmentInput>, recipients: seq<string>, i: nat)
    requires Purposes(created) == AllPurposes(recipients, inputs, |recipients|) && i < |recipients|
    ensures exists j :: 0 <= j < |created| && PurposeOf(created[j]) == Purpose(None, recipients[i])
  {
    PackagePurpose(recipients, inputs, |recipients|, i);
    var j :| 0 <= j < |created| && Purposes(created)[j] == Purpose(None, recipients[i]);
    assert PurposeOf(created[j]) == Purpose(None, recipients[i]);
  }

  function Attached(us: seq<Uploaded>): (r: seq<Attachment>)
    ensures |r| == |us|
  {
    seq(|us|, i requires 0 <= i < |us| => us[i].att)
  }

  /** What a rewritten message means: the rewriter removed exactly the attachments that were
      uploaded, and every recipient got a link for each of them and one to the package page. */
  lemma RewrittenMeans(env: Envelope, atts: seq<Attachment>, bodies: seq<Body>, ruled: seq<Decision>, maxSize: int,
                       hs: seq<HtmlRefs>, global: bool, d: MessageDecision, us: seq<Uploaded>,
                       objects: map<nat, string>, created: seq<CreatedLink>)
    requires |atts| == |bodies| == |d.attachments| && Concluded(atts, ruled, maxSize, hs, global, d)
    requires AllStored(us, Replaced(atts, bodies, d.attachments, |atts|), objects)
    requires |us| == |Replaced(atts, bodies, d.attachments, |atts|)|
    requires Purposes(created) == AllPurposes(env.recipients, Inputs(us), |env.recipients|)
    ensures var input := RewriteInput(atts, d.attachments, |atts|);
            Removed(input, |input|) == Attached(us)
    ensures |created| == |env.recipients| * (|us| + 1)
  {
    var what := Replaced(atts, bodies, d.attachments, |atts|);
    forall i | 0 <= i < |atts|
      ensures !(IsStructuralBody(atts[i]) && d.attachments[i].action == Replace)
    {
      assert ConcludedAt(atts[i], ruled[i], maxSize, hs, global, d.attachments[i]);
    }
    RemovedIsReplaced(atts, bodies, d.attachments, |atts|);
    forall j | 0 <= j < |us|
      ensures Attachments(what)[j] == Attached(us)[j]
    {
      assert StoredAs(us[j], what[j], objects);
    }
    LinkCount(env.recipients, Inputs(us), |env.recipients|);
  }
}
