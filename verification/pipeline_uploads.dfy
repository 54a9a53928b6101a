/** The uploads of one message: which attachments are replaced, what becomes of the object store when
    they are uploaded and deleted again, and where uploading can strand an object. */
module PipelineUploads {
  import opened Text
  import opened MimeTree
  import opened CidRefs
  import opened PolicyDecision
  import opened LinkEngine

  /** The contents of all of the given attachments can be read. */
  predicate AllContent(what: seq<(Attachment, Body)>) {
    forall i :: 0 <= i < |what| ==> what[i].1.Content?
  }

  datatype Uploaded = Uploaded(att: Attachment, id: nat, key: nat)

  /** The attachments to replace among the first k, with their contents. */
  function Replaced(atts: seq<Attachment>, bodies: seq<Body>, ds: seq<Decision>, k: nat): seq<(Attachment, Body)>
    requires k <= |atts| == |bodies| == |ds|
  {
    if k == 0 then []
    else Replaced(atts, bodies, ds, k - 1) + if ds[k - 1].action == Replace then [(atts[k - 1], bodies[k - 1])] else []
  }

  lemma {:induction false} ReplacedPrefix(atts: seq<Attachment>, bodies: seq<Body>, ds: seq<Decision>, i: nat, k: nat)
    requires i <= k <= |atts| == |bodies| == |ds|
    ensures Replaced(atts, bodies, ds, i) <= Replaced(atts, bodies, ds, k)
  {
    if i < k {
      ReplacedPrefix(atts, bodies, ds, i, k - 1);
    }
  }

  /** The k-th attachment is left alone, or is the n-th to be replaced; next are before the one after
      it. */
  predicate Tallies(atts: seq<Attachment>, bodies: seq<Body>, ds: seq<Decision>, what: seq<(Attachment, Body)>,
                    k: nat, n: nat, next: nat)
    requires k < |atts| == |bodies| == |ds|
  {
    if ds[k].action == Replace then n < |what| && what[n] == (atts[k], bodies[k]) && next == n + 1
    else next == n
  }

  /** How many attachments are to be replaced before each of them. */
  ghost predicate Tallied(atts: seq<Attachment>, bodies: seq<Body>, ds: seq<Decision>, what: seq<(Attachment, Body)>,
                          tally: seq<nat>)
    requires |atts| == |bodies| == |ds|
  {
    && |tally| == |ds| + 1 && tally[0] == 0 && tally[|ds|] == |what|
    && forall k :: 0 <= k < |ds| ==> Tallies(atts, bodies, ds, what, k, tally[k], tally[k + 1])
  }

  lemma Tally(atts: seq<Attachment>, bodies: seq<Body>, ds: seq<Decision>) returns (tally: seq<nat>)
    requires |atts| == |bodies| == |ds|
    ensures Tallied(atts, bodies, ds, Replaced(atts, bodies, ds, |ds|), tally)
  {
    tally := seq(|ds| + 1, k requires 0 <= k <= |ds| => |Replaced(atts, bodies, ds, k)|);
    forall k | 0 <= k < |ds|
      ensures Tallies(atts, bodies, ds, Replaced(atts, bodies, ds, |ds|), k, tally[k], tally[k + 1])
    {
      ReplacedPrefix(atts, bodies, ds, k + 1, |ds|);
    }
  }

  lemma {:induction false} ReplacedSome(atts: seq<Attachment>, bodies: seq<Body>, ds: seq<Decision>, i: nat, k: nat)
    requires i < k <= |atts| == |bodies| == |ds| && ds[i].action == Replace
    ensures Replaced(atts, bodies, ds, k) != []
  {
    if i < k - 1 {
      ReplacedSome(atts, bodies, ds, i, k - 1);
    }
  }

  lemma ReplacedIff(atts: seq<Attachment>, bodies: seq<Body>, ds: seq<Decision>, k: nat)
    requires k == |atts| == |bodies| == |ds|
    ensures (exists i :: 0 <= i < |ds| && ds[i].action == Replace) <==> Replaced(atts, bodies, ds, k) != []
  {
    if i :| 0 <= i < |ds| && ds[i].action == Replace {
      ReplacedSome(atts, bodies, ds, i, k);
    } else {
      ReplacedNone(atts, bodies, ds, k);
    }
  }

  lemma {:induction false} ReplacedNone(atts: seq<Attachment>, bodies: seq<Body>, ds: seq<Decision>, k: nat)
    requires k <= |atts| == |bodies| == |ds| && forall i :: 0 <= i < k ==> ds[i].action != Replace
    ensures Replaced(atts, bodies, ds, k) == []
  {
    if k > 0 {
      ReplacedNone(atts, bodies, ds, k - 1);
    }
  }

  function Keys(us: seq<Uploaded>, k: nat): set<nat>
    requires k <= |us|
  {
    if k == 0 then {} else Keys(us, k - 1) + {us[k - 1].key}
  }

  function KeysOf(us: seq<Uploaded>): set<nat> {
    Keys(us, |us|)
  }

  lemma {:induction false} KeysPrefix(us: seq<Uploaded>, u: Uploaded, k: nat)
    requires k <= |us|
    ensures Keys(us + [u], k) == Keys(us, k)
  {
    if k > 0 {
      KeysPrefix(us, u, k - 1);
    }
  }

  /** The upload is of the given attachment, and its content is stored. */
  predicate StoredAs(u: Uploaded, what: (Attachment, Body), objects: map<nat, string>) {
    u.att == what.0 && u.key in objects && what.1 == Content(objects[u.key])
  }

  /** The uploads are of the given attachments, from the first on, and all of them are stored. */
  ghost predicate AllStored(us: seq<Uploaded>, what: seq<(Attachment, Body)>, objects: map<nat, string>) {
    |us| <= |what| && forall j :: 0 <= j < |us| ==> StoredAs(us[j], what[j], objects)
  }

  /** Every object of the one is an object of the other, with the same content. */
  ghost predicate Kept(before: map<nat, string>, after: map<nat, string>) {
    forall key :: key in before ==> key in after && after[key] == before[key]
  }

  /** No two uploads have one id. */
  ghost predicate RisingIDs(us: seq<Uploaded>) {
    forall i, j :: 0 <= i < j < |us| ==> us[i].id < us[j].id
  }

  ghost predicate DistinctKeys(us: seq<Uploaded>) {
    forall i, j :: 0 <= i < j < |us| ==> us[i].key != us[j].key
  }

  lemma {:induction false} KeysHave(us: seq<Uploaded>, k: nat, i: nat)
    requires i < k <= |us|
    ensures us[i].key in Keys(us, k)
  {
    if i < k - 1 {
      KeysHave(us, k - 1, i);
    }
  }

  /** The objects that a run has added: the uploads, and possibly one left without an upload. */
  ghost predicate Grown(before: map<nat, string>, us: seq<Uploaded>, orphan: Option<nat>, after: map<nat, string>) {
    && after.Keys == before.Keys + KeysOf(us) + (if orphan.Some? then {orphan.value} else {})
    && KeysOf(us) !! before.Keys && DistinctKeys(us)
    && (orphan.Some? ==> orphan.value !in before && orphan.value !in KeysOf(us))
    && Kept(before, after)
  }

  /** The i-th of the given attachments gets as far as being stored, for draws and uploads from the
      given ones on. */
  predicate Stores(drawFails: nat -> bool, putFails: nat -> bool, draw: nat, put: nat,
                   what: seq<(Attachment, Body)>, i: nat)
    requires i < |what|
  {
    !drawFails(draw + 2 * i) && what[i].1.Content? && !putFails(put + i)
  }

  /** The i-th attachment is uploaded: it is stored, and its id can be drawn. */
  predicate Uploads(drawFails: nat -> bool, putFails: nat -> bool, draw: nat, put: nat,
                    what: seq<(Attachment, Body)>, i: nat)
    requires i < |what|
  {
    Stores(drawFails, putFails, draw, put, what, i) && !drawFails(draw + 2 * i + 1)
  }

  /** Uploading strands an object: all attachments before some j-th are uploaded, the j-th is
      stored, and then its id cannot be drawn. */
  ghost predicate Strands(drawFails: nat -> bool, putFails: nat -> bool, draw: nat, put: nat,
                          what: seq<(Attachment, Body)>)
  {
    exists j: nat :: j < |what| && StrandsAt(drawFails, putFails, draw, put, what, j)
  }

  ghost predicate StrandsAt(drawFails: nat -> bool, putFails: nat -> bool, draw: nat, put: nat,
                            what: seq<(Attachment, Body)>, j: nat)
    requires j < |what|
  {
    && (forall i: nat :: i < j ==> Uploads(drawFails, putFails, draw, put, what, i))
    && Stores(drawFails, putFails, draw, put, what, j) && drawFails(draw + 2 * j + 1)
  }

  /** Exactly the first n attachments are uploaded before one fails. */
  ghost predicate UploadsUpTo(drawFails: nat -> bool, putFails: nat -> bool, draw: nat, put: nat,
                              what: seq<(Attachment, Body)>, n: nat)
  {
    && n <= |what|
    && (forall i: nat :: i < n ==> Uploads(drawFails, putFails, draw, put, what, i))
    && (n < |what| ==> !Uploads(drawFails, putFails, draw, put, what, n))
  }

  /** Only the first attachment that is not uploaded can be stranded. */
  lemma FirstFailure(drawFails: nat -> bool, putFails: nat -> bool, draw: nat, put: nat,
                     what: seq<(Attachment, Body)>, k: nat)
    requires k <= |what| && forall i: nat :: i < k ==> Uploads(drawFails, putFails, draw, put, what, i)
    requires k == |what| || !Uploads(drawFails, putFails, draw, put, what, k)
    ensures Strands(drawFails, putFails, draw, put, what)
            <==> k < |what| && Stores(drawFails, putFails, draw, put, what, k)
  {
    if Strands(drawFails, putFails, draw, put, what) {
      var j: nat :| j < |what| && StrandsAt(drawFails, putFails, draw, put, what, j);
      assert !Uploads(drawFails, putFails, draw, put, what, j);
    }
    if k < |what| && Stores(drawFails, putFails, draw, put, what, k) {
      assert StrandsAt(drawFails, putFails, draw, put, what, k);
    }
  }

  /** Any of the attachments can be stranded: let only the draw of its id fail. */
  lemma StrandingArises(draw: nat, put: nat, what: seq<(Attachment, Body)>, j: nat)
    requires j < |what| && AllContent(what)
    ensures Strands(n => n == draw + 2 * j + 1, n => false, draw, put, what)
  {
    assert StrandsAt(n => n == draw + 2 * j + 1, n => false, draw, put, what, j);
  }

  ghost predicate OneMore(before: map<nat, string>, after: map<nat, string>) {
    exists key: nat :: key !in before && key in after && after - {key} == before
  }

  /** None of the n calls from the given one on fails. */
  ghost predicate NoneFail(fails: nat -> bool, call: nat, n: nat) {
    forall c: nat :: call <= c < call + n ==> !fails(c)
  }

  /** The keys of the first k uploads whose deletion does not fail, when they are deleted one after
      the other from the given call on. */
  function GoneKeys(fails: nat -> bool, call: nat, us: seq<Uploaded>, k: nat): set<nat>
    requires k <= |us|
  {
    if k == 0 then {}
    else GoneKeys(fails, call, us, k - 1) + if fails(call + k - 1) then {} else {us[k - 1].key}
  }

  lemma OneMoreDeletion(objects: map<nat, string>, fails: nat -> bool, call: nat, us: seq<Uploaded>, k: nat)
    requires k < |us|
    ensures objects - GoneKeys(fails, call, us, k + 1)
            == objects - GoneKeys(fails, call, us, k) - if fails(call + k) then {} else {us[k].key}
    ensures NoneFail(fails, call, k + 1) <==> NoneFail(fails, call, k) && !fails(call + k)
  {
    assert NoneFail(fails, call, k + 1) ==> !fails(call + k);
  }

  /** The keys of those whose deletion fails. */
  function LeftKeys(fails: nat -> bool, call: nat, us: seq<Uploaded>, k: nat): set<nat>
    requires k <= |us|
  {
    if k == 0 then {}
    else LeftKeys(fails, call, us, k - 1) + if fails(call + k - 1) then {us[k - 1].key} else {}
  }

  lemma {:induction false} GoneOrLeft(fails: nat -> bool, call: nat, us: seq<Uploaded>, k: nat)
    requires k <= |us| && DistinctKeys(us)
    ensures GoneKeys(fails, call, us, k) + LeftKeys(fails, call, us, k) == Keys(us, k)
    ensures GoneKeys(fails, call, us, k) !! LeftKeys(fails, call, us, k)
    ensures forall i :: k <= i < |us| ==> us[i].key !in Keys(us, k)
  {
    if k > 0 {
      GoneOrLeft(fails, call, us, k - 1);
    }
  }

  lemma {:induction false} LeftHave(fails: nat -> bool, call: nat, us: seq<Uploaded>, k: nat, i: nat)
    requires i < k <= |us| && fails(call + i)
    ensures us[i].key in LeftKeys(fails, call, us, k)
  {
    if i < k - 1 {
      LeftHave(fails, call, us, k - 1, i);
    }
  }

  /** Without failing deletions nothing of the uploads is left. */
  lemma {:induction false} NothingLeft(fails: nat -> bool, call: nat, us: seq<Uploaded>, k: nat)
    requires k <= |us| && NoneFail(fails, call, |us|)
    ensures LeftKeys(fails, call, us, k) == {}
  {
    if k > 0 {
      NothingLeft(fails, call, us, k - 1);
      assert !fails(call + (k - 1));
    }
  }

  /** What is in the object store after a run that did not deliver: what was there before, the
      uploads whose deletion fails, and one more object exactly if one was stranded. */
  ghost predicate Remains(before: map<nat, string>, us: seq<Uploaded>, what: seq<(Attachment, Body)>,
                          fails: nat -> bool, call: nat, stranded: bool, after: map<nat, string>)
  {
    && |us| <= |what|
    && (forall i: nat :: i < |us| && fails(call + i) ==> StoredAs(us[i], what[i], after))
    && var left := LeftKeys(fails, call, us, |us|);
       && left !! before.Keys
       && if stranded then OneMore(before, after - left) else after - left == before
  }

  lemma GrownOrphan(before: map<nat, string>, us: seq<Uploaded>, mid: map<nat, string>, orphan: Option<nat>,
                    after: map<nat, string>)
    requires Grown(before, us, None, mid)
    requires orphan.None? ==> after == mid
    requires orphan.Some? ==>
        orphan.value !in mid && orphan.value in after && after == mid[orphan.value := after[orphan.value]]
    ensures Grown(before, us, orphan, after)
  {}

  lemma GrownUpload(before: map<nat, string>, us: seq<Uploaded>, mid: map<nat, string>, u: Uploaded,
                    after: map<nat, string>)
    requires Grown(before, us, None, mid)
    requires u.key !in mid && u.key in after && after == mid[u.key := after[u.key]]
    ensures Grown(before, us + [u], None, after)
  {
    KeysPrefix(us, u, |us|);
    forall i | 0 <= i < |us|
      ensures us[i].key != u.key
    {
      KeysHave(us, |us|, i);
    }
  }

  /** What is stored stays stored when the object store grows. */
  lemma StoredStill(us: seq<Uploaded>, what: seq<(Attachment, Body)>, more: seq<(Attachment, Body)>,
                    mid: map<nat, string>, after: map<nat, string>)
    requires AllStored(us, what, mid) && what <= more
    requires Kept(mid, after)
    ensures AllStored(us, more, after)
  {
    forall j | 0 <= j < |us|
      ensures StoredAs(us[j], more[j], after)
    {
      assert StoredAs(us[j], what[j], mid);
    }
  }

  /** Everything in the stores was named before now. */
  ghost predicate Known(objects: map<nat, string>, rows: seq<Row>, next: nat) {
    (forall key :: key in objects ==> key < next) && KnownRows(rows, next)
  }

  ghost predicate KnownRows(rows: seq<Row>, next: nat) {
    forall i :: 0 <= i < |rows| ==> rows[i].messageID < next
  }

  lemma {:induction false} KnownWithout(rows: seq<Row>, messageID: nat, next: nat)
    requires KnownRows(rows, next)
    ensures KnownRows(Without(rows, messageID), next)
  {
    if rows != [] {
      KnownWithout(rows[..|rows| - 1], messageID, next);
    }
  }

  lemma KnownAdded(rows: seq<Row>, added: seq<Row>, messageID: nat, next: nat, later: nat)
    requires KnownRows(rows, next) && Belong(added, messageID) && messageID < later && next <= later
    ensures KnownRows(rows + added, later)
  {}

  function Inputs(us: seq<Uploaded>): (r: seq<AttachmentInput>)
    ensures |r| == |us|
  {
    seq(|us|, i requires 0 <= i < |us| => AttachmentInput(us[i].id, us[i].att.path, us[i].key))
  }

  /** Deleting the uploads of a failed run leaves what was there before, those whose deletion fails,
      and the orphan. */
  lemma UndoneObjects(before: map<nat, string>, us: seq<Uploaded>, what: seq<(Attachment, Body)>, orphan: Option<nat>,
                      grown: map<nat, string>, fails: nat -> bool, call: nat, after: map<nat, string>)
    requires Grown(before, us, orphan, grown) && AllStored(us, what, grown)
    requires after == grown - GoneKeys(fails, call, us, |us|)
    ensures Remains(before, us, what, fails, call, orphan.Some?, after)
    ensures Kept(before, after) && Kept(after, grown)
  {
    var gone, left := GoneKeys(fails, call, us, |us|), LeftKeys(fails, call, us, |us|);
    GoneOrLeft(fails, call, us, |us|);
    forall i: nat | i < |us| && fails(call + i)
      ensures StoredAs(us[i], what[i], after)
    {
      LeftHave(fails, call, us, |us|, i);
      assert StoredAs(us[i], what[i], grown);
    }
    var rest := after - left;
    assert Kept(before, rest);
    match orphan
    case None => assert rest.Keys == before.Keys;
    case Some(key) =>
      assert (rest - {key}).Keys == before.Keys;
      assert rest - {key} == before;
  }
}
