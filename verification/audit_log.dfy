/** The append-only audit table and its one controlled exception, truncation of an old
    prefix behind an anchoring checkpoint. */
module AuditLog {
  import opened Text
  import opened AuditRecord
  import opened AuditVerify

  /** Sequence numbers start at 1 or later and leave no gap. */
  ghost predicate Contiguous(rows: seq<Recorded>) {
    && (rows != [] ==> rows[0].seqNo >= 1)
    && forall i :: 0 <= i < |rows| ==> rows[i].seqNo == rows[0].seqNo + i
  }

  ghost predicate Hashable(hash: RowHash, rows: seq<Recorded>) {
    forall i :: 0 <= i < |rows| ==> hash(rows[i]).Some?
  }

  // ------------------------------------------------------------------ records

  function LastSeq(rows: seq<Recorded>): int {
    if rows == [] then 0 else rows[|rows| - 1].seqNo
  }

  function LastHash(hash: RowHash, rows: seq<Recorded>): string
    requires rows != [] ==> hash(rows[|rows| - 1]).Some?
  {
    if rows == [] then "" else hash(rows[|rows| - 1]).value
  }

  /** The row an event becomes at the end of the table. */
  function NextRow(hash: RowHash, rows: seq<Recorded>, ev: Event, id: string): Recorded
    requires rows != [] ==> hash(rows[|rows| - 1]).Some?
  {
    Recorded(ev, id, LastSeq(rows) + 1, LastHash(hash, rows))
  }

  /** The table after one Record: an event whose details cannot be serialized is refused. */
  function Recording(hash: RowHash, rows: seq<Recorded>, ev: Event, id: string): seq<Recorded>
    requires rows != [] ==> hash(rows[|rows| - 1]).Some?
  {
    var row := NextRow(hash, rows, ev, id);
    if hash(row).None? then rows else rows + [row]
  }

  // --------------------------------------------------------------- truncation

  datatype TruncateRequest = TruncateRequest(cutoff: Timestamp, actor: string)

  datatype TruncateResult = TruncateResult(
    truncated: bool,
    anchorSeq: int,
    anchorHash: string,
    truncatedCount: nat,
    heldClamped: bool,
    checkpoint: Option<Recorded>)

  const NOTHING := TruncateResult(false, 0, "", 0, false, None)

  predicate Recent(r: Recorded, cutoff: Timestamp) {
    !TextBefore(r.event.timestamp, cutoff)
  }

  predicate Held(r: Recorded, held: set<string>) {
    r.event.messageId != "" && r.event.messageId in held
  }

  /** The index of the first row with property p, or the number of rows. */
  function FirstIndex(rows: seq<Recorded>, p: Recorded -> bool): (n: nat)
    ensures n <= |rows|
    ensures forall i :: 0 <= i < n ==> !p(rows[i])
    ensures n < |rows| ==> p(rows[n])
  {
    if rows == [] || p(rows[0]) then 0 else 1 + FirstIndex(rows[1..], p)
  }

  /** How many leading rows are neither recent nor tied to a held message. */
  function Removable(rows: seq<Recorded>, cutoff: Timestamp, held: set<string>): (n: nat)
    ensures n <= |rows|
    ensures forall i :: 0 <= i < n ==> !Recent(rows[i], cutoff) && !Held(rows[i], held)
    ensures n < |rows| ==> Recent(rows[n], cutoff) || Held(rows[n], held)
  {
    FirstIndex(rows, (r: Recorded) => Recent(r, cutoff) || Held(r, held))
  }

  /** Truncation stops at a row exactly if the row is recent or tied to a held message; a row that is
      tied to no message never holds anything back. */
  lemma StopsAtHeld(rows: seq<Recorded>, cutoff: Timestamp, held: set<string>, n: nat)
    requires n <= |rows| && n == Removable(rows, cutoff, held)
    ensures forall i :: 0 <= i < n ==> rows[i].event.messageId == "" || rows[i].event.messageId !in held
    ensures Clamped(rows, cutoff, held) <==>
              n < |rows| && TextBefore(rows[n].event.timestamp, cutoff)
              && rows[n].event.messageId != "" && rows[n].event.messageId in held
    ensures n < |rows| && !Clamped(rows, cutoff, held) ==> !TextBefore(rows[n].event.timestamp, cutoff)
  {}

  /** A held row cut the prefix of old rows short. */
  predicate Clamped(rows: seq<Recorded>, cutoff: Timestamp, held: set<string>) {
    var n := Removable(rows, cutoff, held);
    n < |rows| && !Recent(rows[n], cutoff)
  }

  /** The checkpoint that replaces the first n rows. */
  function CheckpointRow(hash: RowHash, stamp: Timestamp -> string, rows: seq<Recorded>, n: nat,
                         req: TruncateRequest, clamped: bool, now: Timestamp, id: string): Recorded
    requires 0 < n <= |rows|
    requires hash(rows[n - 1]).Some? && hash(rows[|rows| - 1]).Some?
  {
    var details := map[
      ANCHOR_SEQ := Num(rows[n - 1].seqNo),
      ANCHOR_HASH := Str(hash(rows[n - 1]).value),
      TRUNCATED_COUNT := Num(n),
      CUTOFF := Str(stamp(req.cutoff)),
      HELD_CLAMPED := Bool(clamped)];
    NextRow(hash, rows, Event(now, RETENTION_CHECKPOINT, req.actor, "", "", details), id)
  }

  /** The table and result when the first n rows go: their checkpoint comes last. None is an
      error that leaves the table as it was. */
  function Cutting(hash: RowHash, stamp: Timestamp -> string, rows: seq<Recorded>, n: nat,
                   req: TruncateRequest, clamped: bool, now: Timestamp, id: string)
    : (seq<Recorded>, Option<TruncateResult>)
    requires n <= |rows|
    requires forall i :: 0 <= i < |rows| ==> hash(rows[i]).Some?
  {
    if n == 0 then (rows, Some(NOTHING.(heldClamped := clamped)))
    else
      var cp := CheckpointRow(hash, stamp, rows, n, req, clamped, now, id);
      if hash(cp).None? then (rows, None)
      else
        (rows[n..] + [cp],
         Some(TruncateResult(true, rows[n - 1].seqNo, hash(rows[n - 1]).value, n, clamped, Some(cp))))
  }

  /** One truncation pass takes the longest removable prefix. */
  function Truncating(hash: RowHash, stamp: Timestamp -> string, rows: seq<Recorded>,
                      req: TruncateRequest, held: set<string>, now: Timestamp, id: string)
    : (seq<Recorded>, Option<TruncateResult>)
    requires forall i :: 0 <= i < |rows| ==> hash(rows[i]).Some?
  {
    Cutting(hash, stamp, rows, Removable(rows, req.cutoff, held), req,
            Clamped(rows, req.cutoff, held), now, id)
  }

  // ------------------------------------------------------------------ queries

  /** SELECT MIN(seq) ... WHERE p. */
  function MinSeq(rows: seq<Recorded>, p: Recorded -> bool): Option<int> {
    if rows == [] then None
    else
      var rest := MinSeq(rows[1..], p);
      if !p(rows[0]) || (rest.Some? && rest.value < rows[0].seqNo) then rest
      else Some(rows[0].seqNo)
  }

  /** SELECT ... WHERE seq = ?. */
  function RowAt(rows: seq<Recorded>, s: int): Option<Recorded> {
    if rows == [] then None
    else if rows[0].seqNo == s then Some(rows[0])
    else RowAt(rows[1..], s)
  }

  /** The rows left by DELETE ... WHERE seq <= s. */
  function After(rows: seq<Recorded>, s: int): seq<Recorded> {
    if rows == [] then []
    else if rows[0].seqNo <= s then After(rows[1..], s)
    else [rows[0]] + After(rows[1..], s)
  }

  lemma {:induction false} MinSeqIsFirst(rows: seq<Recorded>, p: Recorded -> bool)
    requires Contiguous(rows)
    ensures var n := FirstIndex(rows, p);
            MinSeq(rows, p) == if n < |rows| then Some(rows[0].seqNo + n) else None
  {
    if rows != [] {
      MinSeqIsFirst(rows[1..], p);
    }
  }

  lemma {:induction false} RowAtIndex(rows: seq<Recorded>, s: int)
    requires Contiguous(rows)
    ensures RowAt(rows, s)
            == if rows != [] && rows[0].seqNo <= s < rows[0].seqNo + |rows|
               then Some(rows[s - rows[0].seqNo]) else None
  {
    if rows != [] {
      RowAtIndex(rows[1..], s);
    }
  }

  lemma {:induction false} AfterIsDrop(rows: seq<Recorded>, n: nat)
    requires Contiguous(rows) && rows != [] && n <= |rows|
    ensures After(rows, rows[0].seqNo + n - 1) == rows[n..]
  {
    if n == 0 {
      if |rows| > 1 {
        AfterKeepsAll(rows[1..], rows[0].seqNo - 1);
      }
      assert rows == [rows[0]] + rows[1..];
    } else if |rows| > 1 {
      AfterIsDrop(rows[1..], n - 1);
      assert rows[1..][n - 1..] == rows[n..];
    }
  }

  lemma {:induction false} AfterKeepsAll(rows: seq<Recorded>, s: int)
    requires forall i :: 0 <= i < |rows| ==> rows[i].seqNo > s
    ensures After(rows, s) == rows
  {
    if rows != [] {
      AfterKeepsAll(rows[1..], s);
      assert rows == [rows[0]] + rows[1..];
    }
  }

  /** The first rows are gone and a checkpoint stands at the end: a retention event of the actor, tied
      to no message, that names the last row that went with its hash, how many went, the cutoff, and
      whether a held row cut the truncation short. */
  ghost predicate Checkpointed(hash: RowHash, cutoff: string, before: seq<Recorded>, after: seq<Recorded>,
                               actor: string, now: Timestamp, id: string, res: TruncateResult)
  {
    var n := res.truncatedCount;
    && 0 < n <= |before| && after != []
    && var cp := after[|after| - 1];
       && after == before[n..] + [cp] && res.checkpoint == Some(cp) && cp.id == id
       && cp.event.timestamp == now && cp.event.kind == "retention_checkpoint" && cp.event.actor == actor
       && cp.event.messageId == "" && cp.event.recipient == ""
       && hash(before[n - 1]) == Some(res.anchorHash) && res.anchorSeq == before[n - 1].seqNo
       && cp.event.details == map[
                                "anchor_seq" := Num(res.anchorSeq),
                                "anchor_hash" := Str(res.anchorHash),
                                "truncated_count" := Num(n),
                                "cutoff" := Str(cutoff),
                                "held_clamped" := Bool(res.heldClamped)]
  }

  lemma CuttingCheckpoints(hash: RowHash, stamp: Timestamp -> string, rows: seq<Recorded>, n: nat,
                           req: TruncateRequest, clamped: bool, now: Timestamp, id: string)
    requires n <= |rows| && Hashable(hash, rows)
    ensures var (after, res) := Cutting(hash, stamp, rows, n, req, clamped, now, id);
            res.Some? && res.value.truncated ==>
              Checkpointed(hash, stamp(req.cutoff), rows, after, req.actor, now, id, res.value)
  {}

  // -------------------------------------------------------------------- table

  class AuditStore {
    const hash: RowHash
    const stamp: Timestamp -> string
    var rows: seq<Recorded>

    ghost predicate Valid()
      reads this
    {
      Contiguous(rows) && Hashable(hash, rows)
    }

    constructor (hash: RowHash, stamp: Timestamp -> string)
      ensures Valid() && this.hash == hash && this.stamp == stamp && rows == []
    {
      this.hash, this.stamp, rows := hash, stamp, [];
    }

    method Record(ev: Event, id: string) returns (r: Option<Recorded>)
      requires Valid()
      modifies this
      ensures Valid()
      ensures rows == Recording(hash, old(rows), ev, id)
      ensures r == if rows == old(rows) then None else Some(NextRow(hash, old(rows), ev, id))
      ensures r.Some? ==> rows == old(rows) + [r.value] && r.value.event == ev && r.value.id == id
      ensures r.Some? ==>
                if old(rows) == [] then r.value.seqNo == 1 && r.value.prevHash == ""
                else
                  var last := old(rows)[|old(rows)| - 1];
                  r.value.seqNo == last.seqNo + 1 && Some(r.value.prevHash) == hash(last)
    {
      var prevSeq, prevHash := 0, "";
      if rows != [] {
        prevSeq, prevHash := rows[|rows| - 1].seqNo, hash(rows[|rows| - 1]).value;
      }
      var row := Recorded(ev, id, prevSeq + 1, prevHash);
      if hash(row).None? {
        return None;
      }
      rows := rows + [row];
      return Some(row);
    }

    /** The last number before the first recent row, if some row lies at or below it. */
    method TruncationBoundary(cutoff: Timestamp) returns (boundary: Option<int>)
      requires Valid()
      ensures boundary == OldBoundary(rows, cutoff)
    {
      var recent := (r: Recorded) => Recent(r, cutoff);
      var firstRecent := MinSeq(rows, recent);
      MinSeqIsFirst(rows, recent);
      if firstRecent.Some? {
        return if firstRecent.value - 1 < 1 then None else Some(firstRecent.value - 1);
      }
      return if rows == [] then None else Some(rows[|rows| - 1].seqNo);
    }

    method OldestHeld(upTo: int, held: set<string>) returns (oldest: Option<int>)
      requires Valid()
      ensures oldest == OldestHeldSeq(rows, upTo, held)
    {
      var pinned := (r: Recorded) => r.seqNo <= upTo && Held(r, held);
      oldest := MinSeq(rows, pinned);
      MinSeqIsFirst(rows, pinned);
    }

    /** One truncation pass: the boundary by age, the clamp below the oldest held row, the
        anchor at the boundary, then checkpoint and delete. */
    method TruncateAudit(req: TruncateRequest, held: set<string>, now: Timestamp, id: string)
      returns (res: Option<TruncateResult>)
      requires Valid()
      modifies this
      ensures Valid()
      ensures (rows, res) == Truncating(hash, stamp, old(rows), req, held, now, id)
      ensures res.Some? && res.value.truncated ==>
                Checkpointed(hash, stamp(req.cutoff), old(rows), rows, req.actor, now, id, res.value)
    {
      CuttingCheckpoints(hash, stamp, rows, Removable(rows, req.cutoff, held), req, Clamped(rows, req.cutoff, held),
                         now, id);
      var found := TruncationBoundary(req.cutoff);
      BoundaryIsRemovable(rows, req.cutoff, held);
      if found.None? {
        return Some(NOTHING);
      }
      var boundary := found.value;
      var oldestHeld := OldestHeld(boundary, held);
      var clamped := oldestHeld.Some?;
      if clamped {
        boundary := oldestHeld.value - 1;
      }
      res := DeleteBehindCheckpoint(boundary, Removable(rows, req.cutoff, held), req, clamped, now, id);
    }

    /** The rows up to the boundary, n of them, go behind a checkpoint that anchors them. */
    method DeleteBehindCheckpoint(boundary: int, ghost n: nat, req: TruncateRequest, clamped: bool,
                                  now: Timestamp, id: string)
      returns (res: Option<TruncateResult>)
      requires Valid() && rows != [] && n <= |rows|
      requires boundary == rows[0].seqNo + n - 1
      modifies this
      ensures Valid()
      ensures (rows, res) == Cutting(hash, stamp, old(rows), n, req, clamped, now, id)
    {
      var anchor := RowAt(rows, boundary);
      RowAtIndex(rows, boundary);
      if boundary <= 0 || anchor.None? {
        return Some(NOTHING.(heldClamped := clamped));
      }
      AfterIsDrop(rows, n);
      var count := |rows| - |After(rows, boundary)|;
      var anchorHash := hash(anchor.value).value;
      var details := map[
        ANCHOR_SEQ := Num(boundary),
        ANCHOR_HASH := Str(anchorHash),
        TRUNCATED_COUNT := Num(count),
        CUTOFF := Str(stamp(req.cutoff)),
        HELD_CLAMPED := Bool(clamped)];
      var cp := Recorded(Event(now, RETENTION_CHECKPOINT, req.actor, "", "", details), id,
                         rows[|rows| - 1].seqNo + 1, hash(rows[|rows| - 1]).value);
      if hash(cp).None? {
        return None;
      }
      AfterConcat(rows, [cp], boundary);
      AfterKeepsAll([cp], boundary);
      SurvivorsContiguous(hash, rows, n, cp);
      rows := After(rows + [cp], boundary);
      return Some(TruncateResult(true, boundary, anchorHash, count, clamped, Some(cp)));
    }
  }

  lemma SurvivorsContiguous(hash: RowHash, rows: seq<Recorded>, n: nat, cp: Recorded)
    requires Contiguous(rows) && Hashable(hash, rows) && n <= |rows| && rows != []
    requires cp.seqNo == rows[|rows| - 1].seqNo + 1 && hash(cp).Some?
    ensures Contiguous(rows[n..] + [cp]) && Hashable(hash, rows[n..] + [cp])
  {}

  /** auditTruncationBoundary over a contiguous table. */
  function OldBoundary(rows: seq<Recorded>, cutoff: Timestamp): Option<int> {
    if rows == [] then None
    else
      var o := FirstIndex(rows, (r: Recorded) => Recent(r, cutoff));
      if o < |rows| && rows[0].seqNo + o - 1 < 1 then None else Some(rows[0].seqNo + o - 1)
  }

  /** oldestHeldAuditSeq over a contiguous table. */
  function OldestHeldSeq(rows: seq<Recorded>, upTo: int, held: set<string>): Option<int> {
    var p := FirstIndex(rows, (r: Recorded) => r.seqNo <= upTo && Held(r, held));
    if p < |rows| then Some(rows[0].seqNo + p) else None
  }

  /** The two queries together leave exactly the removable prefix at or below the boundary,
      and the clamp fires exactly when a held row ended that prefix. */
  lemma BoundaryIsRemovable(rows: seq<Recorded>, cutoff: Timestamp, held: set<string>)
    requires Contiguous(rows)
    ensures var n := Removable(rows, cutoff, held);
            match OldBoundary(rows, cutoff)
            case None => n == 0 && !Clamped(rows, cutoff, held)
            case Some(b) =>
              match OldestHeldSeq(rows, b, held)
              case None => b == rows[0].seqNo + n - 1 && !Clamped(rows, cutoff, held)
              case Some(s) => s == rows[0].seqNo + n && Clamped(rows, cutoff, held)
  {
    if rows != [] {
      var n := Removable(rows, cutoff, held);
      var o := FirstIndex(rows, (r: Recorded) => Recent(r, cutoff));
      assert n <= o;
      if o == 0 {
        assert Recent(rows[0], cutoff);
      }
      var b := rows[0].seqNo + o - 1;
      var p := FirstIndex(rows, (r: Recorded) => r.seqNo <= b && Held(r, held));
      assert p < |rows| ==> p < o;
      assert n == if p < |rows| then p else o;
    }
  }

  lemma {:induction false} AfterConcat(a: seq<Recorded>, b: seq<Recorded>, s: int)
    ensures After(a + b, s) == After(a, s) + After(b, s)
  {
    if a == [] {
      assert a + b == b;
    } else {
      assert (a + b)[1..] == a[1..] + b;
      AfterConcat(a[1..], b, s);
    }
  }

  // -------------------------------------------------- what truncation may remove

  /** Truncation is stated to remove only rows strictly older than the cutoff. It does so
      exactly when no removed row shares the cutoff's second with the cutoff's digits a
      proper prefix of its own. */
  lemma RemovedRowsOlderExactly(rows: seq<Recorded>, cutoff: Timestamp, held: set<string>)
    ensures var n := Removable(rows, cutoff, held);
            (forall i :: 0 <= i < n ==> Earlier(rows[i].event.timestamp, cutoff))
            <==> (forall i :: 0 <= i < n ==>
                    var t := rows[i].event.timestamp;
                    !(t.sec == cutoff.sec && cutoff.frac < t.frac))
  {
    var n := Removable(rows, cutoff, held);
    forall i | 0 <= i < n
      ensures var t := rows[i].event.timestamp;
              Earlier(t, cutoff) <==> !(t.sec == cutoff.sec && cutoff.frac < t.frac)
    {
      var t := rows[i].event.timestamp;
      assert !Recent(rows[i], cutoff);
      TextOrderExact(t, cutoff);
      TextOrderExact(cutoff, t);
    }
  }

  /** A row of the cutoff's second that continues the cutoff's digits is removed although it is
      newer. */
  lemma TruncationRemovesNewerRow(r: Recorded, cutoff: Timestamp)
    requires r.event.timestamp.sec == cutoff.sec && cutoff.frac < r.event.timestamp.frac
    ensures Earlier(cutoff, r.event.timestamp)
    ensures Removable([r], cutoff, {}) == 1
  {
    TextOrderExact(r.event.timestamp, cutoff);
    TextOrderExact(cutoff, r.event.timestamp);
  }

  /** Every row that truncation removes is older than the cutoff. */
  ghost predicate RemovesOnlyOlder(rows: seq<Recorded>, cutoff: Timestamp, held: set<string>) {
    forall i :: 0 <= i < Removable(rows, cutoff, held) ==> Earlier(rows[i].event.timestamp, cutoff)
  }

  /** The promise to remove only rows strictly older than the cutoff holds for every table exactly
      when the cutoff is written with all nine digits. */
  lemma OnlyOlderRemovedExactly(cutoff: Timestamp)
    ensures (forall rows, held :: RemovesOnlyOlder(rows, cutoff, held)) <==> |cutoff.frac| == 9
  {
    if |cutoff.frac| == 9 {
      forall rows, held
        ensures RemovesOnlyOlder(rows, cutoff, held)
      {
        RemovedRowsOlderExactly(rows, cutoff, held);
      }
    } else {
      var t: Timestamp := Instant(cutoff.sec, cutoff.frac + [5]);
      var r := Recorded(Event(t, "", "", "", "", map[]), "", 1, "");
      TruncationRemovesNewerRow(r, cutoff);
      TextOrderExact(cutoff, t);
      assert [r][0] == r && !RemovesOnlyOlder([r], cutoff, {});
    }
  }

  // ----------------------------------------------- what truncation should remove

  /** How many leading rows are older than the cutoff and not tied to a held message. */
  function OlderUnheld(rows: seq<Recorded>, cutoff: Timestamp, held: set<string>): (n: nat)
    ensures n <= |rows|
    ensures forall i :: 0 <= i < n ==> Earlier(rows[i].event.timestamp, cutoff) && !Held(rows[i], held)
    ensures n < |rows| ==> !Earlier(rows[n].event.timestamp, cutoff) || Held(rows[n], held)
  {
    FirstIndex(rows, (r: Recorded) => !Earlier(r.event.timestamp, cutoff) || Held(r, held))
  }

  /** The row's age is misjudged: it is of the cutoff's second, and the digits of one of the two
      continue those of the other. */
  predicate Misjudged(r: Recorded, cutoff: Timestamp) {
    var t := r.event.timestamp;
    t.sec == cutoff.sec && (t.frac < cutoff.frac || cutoff.frac < t.frac)
  }

  lemma MisjudgedExactly(r: Recorded, cutoff: Timestamp)
    ensures Misjudged(r, cutoff) <==> (Recent(r, cutoff) <==> Earlier(r.event.timestamp, cutoff))
  {
    TextOrderExact(r.event.timestamp, cutoff);
    TextOrderExact(cutoff, r.event.timestamp);
  }

  /** The row rightly ends what is removed. */
  predicate RightlyKept(r: Recorded, cutoff: Timestamp, held: set<string>) {
    Held(r, held) || (!Earlier(r.event.timestamp, cutoff) && !Misjudged(r, cutoff))
  }

  ghost predicate KeptBefore(rows: seq<Recorded>, cutoff: Timestamp, held: set<string>, i: nat) {
    exists j :: 0 <= j < i && j < |rows| && RightlyKept(rows[j], cutoff, held)
  }

  ghost predicate MisjudgedBehind(rows: seq<Recorded>, cutoff: Timestamp, held: set<string>, i: nat)
    requires i < |rows|
  {
    !Held(rows[i], held) && Misjudged(rows[i], cutoff) ==> KeptBefore(rows, cutoff, held, i)
  }

  /** The leading rows that are removed are exactly the older, unheld ones if and only if every
      unheld row whose age is misjudged stands behind one that rightly ends what is removed. */
  lemma RemovesOlderExactly(rows: seq<Recorded>, cutoff: Timestamp, held: set<string>)
    ensures Removable(rows, cutoff, held) == OlderUnheld(rows, cutoff, held)
            <==> forall i: nat :: i < |rows| ==> MisjudgedBehind(rows, cutoff, held, i)
  {
    var n, m := Removable(rows, cutoff, held), OlderUnheld(rows, cutoff, held);
    forall i | 0 <= i < |rows|
      ensures Misjudged(rows[i], cutoff) <==> (Recent(rows[i], cutoff) <==> Earlier(rows[i].event.timestamp, cutoff))
    {
      MisjudgedExactly(rows[i], cutoff);
    }
    if n == m {
      forall i: nat | i < |rows|
        ensures MisjudgedBehind(rows, cutoff, held, i)
      {
        if !Held(rows[i], held) && Misjudged(rows[i], cutoff) {
          assert n < i;
          assert RightlyKept(rows[n], cutoff, held);
        }
      }
    } else {
      var k := if n < m then n else m;
      assert !MisjudgedBehind(rows, cutoff, held, k);
    }
  }
}
