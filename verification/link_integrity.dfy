/** Where the links of a delivered message lead, said of the rows and objects that are stored. */
module LinkIntegrity {
  import opened Text
  import opened MimeTree
  import opened CidRefs
  import opened PolicyDecision
  import opened LinkEngine
  import opened PipelineUploads

  // ------------------------------------------------------------- what is promised

  /** Row l is the link: the message's, for the link's recipient and attachment, found by its token,
      and not held. */
  predicate LinkAt(rows: seq<Row>, l: nat, hash: TokenHash, messageID: nat, c: CreatedLink) {
    && l < |rows| && rows[l].LinkRow? && rows[l].messageID == messageID
    && rows[l].recipient == c.recipient && rows[l].attachment == c.attachment && rows[l].tokenHash == hash(c.token)
    && rows[l].expiresAt == c.expiresAt && rows[l].maxDownloads == c.maxDownloads && !rows[l].hold
  }

  predicate AttachmentAt(rows: seq<Row>, a: nat, messageID: nat, id: nat) {
    a < |rows| && rows[a].AttachmentRow? && rows[a].messageID == messageID && rows[a].id == id
  }

  /** The row is of the given attachment, and its object has the attachment's content. */
  predicate Holds(row: Row, what: (Attachment, Body), objects: map<nat, string>) {
    && row.AttachmentRow? && row.path == what.0.path
    && row.storageKey in objects && what.1 == Content(objects[row.storageKey])
  }

  /** The link is stored and leads to the attachment, whose object is retained as long as the link
      lives. */
  ghost predicate LeadsTo(rows: seq<Row>, objects: map<nat, string>, hash: TokenHash, messageID: nat, c: CreatedLink,
                          what: (Attachment, Body))
  {
    && c.attachment.Some?
    && (exists l: nat :: LinkAt(rows, l, hash, messageID, c))
    && exists a: nat :: AttachmentAt(rows, a, messageID, c.attachment.value) && Holds(rows[a], what, objects)
                   && c.expiresAt <= rows[a].retainUntil
  }

  /** The recipient has a link to the attachment. */
  ghost predicate Served(rows: seq<Row>, objects: map<nat, string>, hash: TokenHash, messageID: nat,
                         created: seq<CreatedLink>, recipient: string, what: (Attachment, Body))
  {
    exists c :: 0 <= c < |created| && created[c].recipient == recipient
                && LeadsTo(rows, objects, hash, messageID, created[c], what)
  }

  /** The recipient has a link to the package page. */
  ghost predicate PageServed(rows: seq<Row>, hash: TokenHash, messageID: nat, created: seq<CreatedLink>,
                             recipient: string)
  {
    exists c, l: nat :: 0 <= c < |created| && created[c].recipient == recipient && created[c].attachment == None
                        && LinkAt(rows, l, hash, messageID, created[c])
  }

  /** No attachment id stands for two attachments of the message. */
  ghost predicate OneRowPerID(rows: seq<Row>, messageID: nat) {
    forall a: nat, b: nat, id ::
      AttachmentAt(rows, a, messageID, id) && AttachmentAt(rows, b, messageID, id) ==> a == b
  }

  /** A link row of the message is one of the links created, for one of the recipients, and leads to
      one of the attachments or to the package page. */
  ghost predicate Accounted(rows: seq<Row>, objects: map<nat, string>, hash: TokenHash, messageID: nat,
                            created: seq<CreatedLink>, recipients: seq<string>, what: seq<(Attachment, Body)>, l: nat)
  {
    exists c :: 0 <= c < |created| && LinkAt(rows, l, hash, messageID, created[c]) && created[c].recipient in recipients
                && (created[c].attachment.Some? ==>
                      exists j :: 0 <= j < |what| && LeadsTo(rows, objects, hash, messageID, created[c], what[j]))
  }

  ghost predicate DistinctTokens(created: seq<CreatedLink>) {
    forall i, j :: 0 <= i < j < |created| ==> created[i].token != created[j].token
  }

  /** Every recipient can fetch every replaced attachment by a link of their own, whose token no
      other link has, and open the package page; each link leads to one attachment, and there are no
      further links. */
  ghost predicate Serves(rows: seq<Row>, objects: map<nat, string>, hash: TokenHash, messageID: nat,
                         created: seq<CreatedLink>, recipients: seq<string>, what: seq<(Attachment, Body)>)
  {
    && (forall i, j :: 0 <= i < |recipients| && 0 <= j < |what| ==>
          Served(rows, objects, hash, messageID, created, recipients[i], what[j]))
    && (forall i :: 0 <= i < |recipients| ==> PageServed(rows, hash, messageID, created, recipients[i]))
    && OneRowPerID(rows, messageID) && DistinctTokens(created)
    && forall l: nat :: l < |rows| && rows[l].LinkRow? && rows[l].messageID == messageID ==>
         Accounted(rows, objects, hash, messageID, created, recipients, what, l)
  }

  // ------------------------------------------------------------------ purposes

  lemma {:induction false} PerAttachmentAt(recipient: string, inputs: seq<AttachmentInput>, k: nat)
    requires k <= |inputs|
    ensures var ps := PerAttachment(recipient, inputs, k);
            |ps| == k && forall j :: 0 <= j < k ==> ps[j] == Purpose(Some(inputs[j].id), recipient)
  {
    if k > 0 {
      PerAttachmentAt(recipient, inputs, k - 1);
    }
  }

  lemma {:induction false} PurposesGrow(recipients: seq<string>, inputs: seq<AttachmentInput>, i: nat, k: nat)
    requires i <= k <= |recipients|
    ensures AllPurposes(recipients, inputs, i) <= AllPurposes(recipients, inputs, k)
  {
    if i < k {
      PurposesGrow(recipients, inputs, i, k - 1);
    }
  }

  lemma HasPurpose(recipients: seq<string>, inputs: seq<AttachmentInput>, i: nat, j: nat)
    requires i < |recipients| && j < |inputs|
    ensures Purpose(Some(inputs[j].id), recipients[i]) in AllPurposes(recipients, inputs, |recipients|)
  {
    PurposeAdded(recipients, inputs, i + 1, j);
    PurposesGrow(recipients, inputs, i + 1, |recipients|);
    StillIn(AllPurposes(recipients, inputs, i + 1), AllPurposes(recipients, inputs, |recipients|),
            Purpose(Some(inputs[j].id), recipients[i]));
  }

  lemma StillIn<T>(a: seq<T>, b: seq<T>, x: T)
    requires a <= b && x in a
    ensures x in b
  {
    var m :| 0 <= m < |a| && a[m] == x;
    assert b[m] == x;
  }

  lemma PurposeAdded(recipients: seq<string>, inputs: seq<AttachmentInput>, k: nat, j: nat)
    requires 0 < k <= |recipients| && j < |inputs|
    ensures Purpose(Some(inputs[j].id), recipients[k - 1]) in AllPurposes(recipients, inputs, k)
  {
    var before, own := AllPurposes(recipients, inputs, k - 1), PerAttachment(recipients[k - 1], inputs, |inputs|);
    PerAttachmentAt(recipients[k - 1], inputs, |inputs|);
    InMiddle(before, own, [Purpose(None, recipients[k - 1])], j);
  }

  lemma InMiddle<T>(a: seq<T>, b: seq<T>, c: seq<T>, j: nat)
    requires j < |b|
    ensures b[j] in a + (b + c)
  {
    assert (a + (b + c))[|a| + j] == b[j];
  }

  /** What a purpose of a message may be. */
  predicate Foreseen(recipients: seq<string>, inputs: seq<AttachmentInput>, p: Purpose) {
    && p.recipient in recipients
    && (p.attachment.Some? ==> exists j :: 0 <= j < |inputs| && p.attachment == Some(inputs[j].id))
  }

  lemma {:induction false} AllForeseen(recipients: seq<string>, inputs: seq<AttachmentInput>, k: nat)
    requires k <= |recipients|
    ensures forall p :: p in AllPurposes(recipients, inputs, k) ==> Foreseen(recipients, inputs, p)
  {
    if k > 0 {
      AllForeseen(recipients, inputs, k - 1);
      PerAttachmentAt(recipients[k - 1], inputs, |inputs|);
      forall p | p in PerAttachment(recipients[k - 1], inputs, |inputs|)
        ensures Foreseen(recipients, inputs, p)
      {
        var j :| 0 <= j < |inputs| && PerAttachment(recipients[k - 1], inputs, |inputs|)[j] == p;
      }
    }
  }

  // ----------------------------------------------------------------------- rows

  lemma {:induction false} AttachmentRowsAt(messageID: nat, inputs: seq<AttachmentInput>, retainUntil: int, k: nat)
    requires k <= |inputs|
    ensures var rows := AttachmentRows(messageID, inputs, retainUntil, k);
            && |rows| == k
            && forall j :: 0 <= j < k ==>
                 rows[j] == AttachmentRow(messageID, inputs[j].id, inputs[j].path, inputs[j].storageKey, retainUntil)
  {
    if k > 0 {
      AttachmentRowsAt(messageID, inputs, retainUntil, k - 1);
    }
  }

  /** How the rows of a message are laid out behind the b rows that were there. */
  ghost predicate Laid(rows: seq<Row>, b: nat, hash: TokenHash, messageID: nat, us: seq<Uploaded>, retainUntil: int,
                       created: seq<CreatedLink>)
  {
    && |rows| == b + 1 + |us| + |created|
    && (forall k :: 0 <= k < b ==> rows[k].messageID != messageID)
    && rows[b].MessageRow?
    && (forall j :: 0 <= j < |us| ==>
          rows[b + 1 + j] == AttachmentRow(messageID, us[j].id, us[j].att.path, us[j].key, retainUntil))
    && forall c :: 0 <= c < |created| ==> rows[b + 1 + |us| + c] == RowOf(hash, messageID, created[c])
  }

  lemma LaidOut(before: seq<Row>, hash: TokenHash, messageID: nat, sender: string, status: Action, us: seq<Uploaded>,
                retainUntil: int, created: seq<CreatedLink>)
    requires Foreign(before, messageID)
    ensures Laid(before + Stored(hash, messageID, sender, status, Inputs(us), retainUntil, created), |before|, hash,
                 messageID, us, retainUntil, created)
    ensures (before + Stored(hash, messageID, sender, status, Inputs(us), retainUntil, created))[|before|]
            == MessageRow(messageID, sender, status)
  {
    AttachmentRowsAt(messageID, Inputs(us), retainUntil, |us|);
    LaidInTurn(before, MessageRow(messageID, sender, status),
               AttachmentRows(messageID, Inputs(us), retainUntil, |us|), LinkRows(hash, messageID, created), hash,
               messageID, us, retainUntil, created);
  }

  lemma LaidInTurn(before: seq<Row>, head: Row, own: seq<Row>, links: seq<Row>, hash: TokenHash, messageID: nat,
                   us: seq<Uploaded>, retainUntil: int, created: seq<CreatedLink>)
    requires Foreign(before, messageID) && head.MessageRow? && |own| == |us| && |links| == |created|
    requires forall j :: 0 <= j < |us| ==>
               own[j] == AttachmentRow(messageID, us[j].id, us[j].att.path, us[j].key, retainUntil)
    requires forall c :: 0 <= c < |created| ==> links[c] == RowOf(hash, messageID, created[c])
    ensures Laid(before + ([head] + own + links), |before|, hash, messageID, us, retainUntil, created)
  {
    InTurn(before, head, own, links);
  }

  lemma InTurn<T>(a: seq<T>, x: T, b: seq<T>, c: seq<T>)
    ensures var all := a + ([x] + b + c);
            && (forall k :: 0 <= k < |a| ==> all[k] == a[k])
            && all[|a|] == x
            && (forall k :: 0 <= k < |b| ==> all[|a| + 1 + k] == b[k])
            && forall k :: 0 <= k < |c| ==> all[|a| + 1 + |b| + k] == c[k]
  {}

  /** Which of the rows each one is. */
  lemma RowAt(rows: seq<Row>, b: nat, hash: TokenHash, messageID: nat, us: seq<Uploaded>, retainUntil: int,
              created: seq<CreatedLink>, k: nat)
    requires Laid(rows, b, hash, messageID, us, retainUntil, created) && k < |rows|
    ensures var j, c := k - (b + 1), k - (b + 1 + |us|);
            if k < b then rows[k].messageID != messageID
            else if k == b then rows[k].MessageRow?
            else if k < b + 1 + |us| then
              rows[k] == AttachmentRow(messageID, us[j].id, us[j].att.path, us[j].key, retainUntil)
            else rows[k] == RowOf(hash, messageID, created[c])
  {
    if b < k < b + 1 + |us| {
      assert rows[k] == rows[b + 1 + (k - (b + 1))];
    } else if k >= b + 1 + |us| {
      assert rows[k] == rows[b + 1 + |us| + (k - (b + 1 + |us|))];
    }
  }

  lemma LinkStored(rows: seq<Row>, b: nat, hash: TokenHash, messageID: nat, us: seq<Uploaded>, retainUntil: int,
                   created: seq<CreatedLink>, c: nat)
    requires Laid(rows, b, hash, messageID, us, retainUntil, created) && c < |created|
    ensures LinkAt(rows, b + 1 + |us| + c, hash, messageID, created[c])
  {}

  lemma UploadServed(rows: seq<Row>, b: nat, objects: map<nat, string>, hash: TokenHash, messageID: nat,
                     us: seq<Uploaded>, retainUntil: int, created: seq<CreatedLink>, what: seq<(Attachment, Body)>,
                     c: nat, j: nat)
    requires Laid(rows, b, hash, messageID, us, retainUntil, created) && AllStored(us, what, objects)
    requires c < |created| && j < |us| && created[c].attachment == Some(us[j].id)
    requires created[c].expiresAt <= retainUntil
    ensures LeadsTo(rows, objects, hash, messageID, created[c], what[j])
  {
    LinkStored(rows, b, hash, messageID, us, retainUntil, created, c);
    assert StoredAs(us[j], what[j], objects);
    assert AttachmentAt(rows, b + 1 + j, messageID, us[j].id);
  }

  lemma OwnIDs(rows: seq<Row>, b: nat, hash: TokenHash, messageID: nat, us: seq<Uploaded>, retainUntil: int,
               created: seq<CreatedLink>)
    requires Laid(rows, b, hash, messageID, us, retainUntil, created) && RisingIDs(us)
    ensures OneRowPerID(rows, messageID)
  {
    forall a: nat, id | AttachmentAt(rows, a, messageID, id)
      ensures b + 1 <= a < b + 1 + |us| && id == us[a - b - 1].id
    {
      RowAt(rows, b, hash, messageID, us, retainUntil, created, a);
    }
  }

  /** A message that was stored so serves its recipients. */
  lemma StoredServes(before: seq<Row>, objects: map<nat, string>, hash: TokenHash, messageID: nat, sender: string,
                     status: Action, us: seq<Uploaded>, retainUntil: int, created: seq<CreatedLink>,
                     recipients: seq<string>, what: seq<(Attachment, Body)>, expiresAt: int)
    requires Foreign(before, messageID) && RisingIDs(us) && |us| == |what| && AllStored(us, what, objects)
    requires Purposes(created) == AllPurposes(recipients, Inputs(us), |recipients|)
    requires ExpireAt(created, expiresAt) && expiresAt <= retainUntil && DistinctTokens(created)
    ensures Serves(before + Stored(hash, messageID, sender, status, Inputs(us), retainUntil, created), objects, hash,
                   messageID, created, recipients, what)
  {
    var rows := before + Stored(hash, messageID, sender, status, Inputs(us), retainUntil, created);
    LaidOut(before, hash, messageID, sender, status, us, retainUntil, created);
    OwnIDs(rows, |before|, hash, messageID, us, retainUntil, created);
    forall i, j | 0 <= i < |recipients| && 0 <= j < |what|
      ensures Served(rows, objects, hash, messageID, created, recipients[i], what[j])
    {
      RecipientServed(rows, |before|, objects, hash, messageID, us, retainUntil, created, recipients, what, i, j);
    }
    forall i | 0 <= i < |recipients|
      ensures PageServed(rows, hash, messageID, created, recipients[i])
    {
      RecipientPageServed(rows, |before|, hash, messageID, us, retainUntil, created, recipients, i);
    }
    forall l: nat | l < |rows| && rows[l].LinkRow? && rows[l].messageID == messageID
      ensures Accounted(rows, objects, hash, messageID, created, recipients, what, l)
    {
      RowAccounted(rows, |before|, objects, hash, messageID, us, retainUntil, created, recipients, what, l);
    }
  }

  lemma RecipientServed(rows: seq<Row>, b: nat, objects: map<nat, string>, hash: TokenHash, messageID: nat,
                        us: seq<Uploaded>, retainUntil: int, created: seq<CreatedLink>, recipients: seq<string>,
                        what: seq<(Attachment, Body)>, i: nat, j: nat)
    requires Laid(rows, b, hash, messageID, us, retainUntil, created) && |us| == |what| && AllStored(us, what, objects)
    requires Purposes(created) == AllPurposes(recipients, Inputs(us), |recipients|)
    requires forall c :: 0 <= c < |created| ==> created[c].expiresAt <= retainUntil
    requires i < |recipients| && j < |what|
    ensures Served(rows, objects, hash, messageID, created, recipients[i], what[j])
  {
    HasPurpose(recipients, Inputs(us), i, j);
    var c :| 0 <= c < |created| && Purposes(created)[c] == Purpose(Some(Inputs(us)[j].id), recipients[i]);
    assert PurposeOf(created[c]) == Purpose(Some(us[j].id), recipients[i]);
    UploadServed(rows, b, objects, hash, messageID, us, retainUntil, created, what, c, j);
  }

  lemma RecipientPageServed(rows: seq<Row>, b: nat, hash: TokenHash, messageID: nat, us: seq<Uploaded>,
                            retainUntil: int, created: seq<CreatedLink>, recipients: seq<string>, i: nat)
    requires Laid(rows, b, hash, messageID, us, retainUntil, created) && i < |recipients|
    requires Purposes(created) == AllPurposes(recipients, Inputs(us), |recipients|)
    ensures PageServed(rows, hash, messageID, created, recipients[i])
  {
    PackagePurpose(recipients, Inputs(us), |recipients|, i);
    var c :| 0 <= c < |created| && Purposes(created)[c] == Purpose(None, recipients[i]);
    assert PurposeOf(created[c]) == Purpose(None, recipients[i]);
    LinkStored(rows, b, hash, messageID, us, retainUntil, created, c);
  }

  lemma RowAccounted(rows: seq<Row>, b: nat, objects: map<nat, string>, hash: TokenHash, messageID: nat,
                     us: seq<Uploaded>, retainUntil: int, created: seq<CreatedLink>, recipients: seq<string>,
                     what: seq<(Attachment, Body)>, l: nat)
    requires Laid(rows, b, hash, messageID, us, retainUntil, created) && |us| == |what| && AllStored(us, what, objects)
    requires Purposes(created) == AllPurposes(recipients, Inputs(us), |recipients|)
    requires forall c :: 0 <= c < |created| ==> created[c].expiresAt <= retainUntil
    requires l < |rows| && rows[l].LinkRow? && rows[l].messageID == messageID
    ensures Accounted(rows, objects, hash, messageID, created, recipients, what, l)
  {
    RowAt(rows, b, hash, messageID, us, retainUntil, created, l);
    var c := l - (b + 1 + |us|);
    LinkStored(rows, b, hash, messageID, us, retainUntil, created, c);
    LinkForeseen(created, recipients, Inputs(us), c);
    if created[c].attachment.Some? {
      var j :| 0 <= j < |Inputs(us)| && created[c].attachment == Some(Inputs(us)[j].id);
      UploadServed(rows, b, objects, hash, messageID, us, retainUntil, created, what, c, j);
    }
  }

  lemma LinkForeseen(created: seq<CreatedLink>, recipients: seq<string>, inputs: seq<AttachmentInput>, c: nat)
    requires Purposes(created) == AllPurposes(recipients, inputs, |recipients|) && c < |created|
    ensures Foreseen(recipients, inputs, PurposeOf(created[c]))
  {
    AllForeseen(recipients, inputs, |recipients|);
    assert Purposes(created)[c] == PurposeOf(created[c]);
  }
}
