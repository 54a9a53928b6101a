/** What the audit chain guarantees: every honest run verifies with the start mode of its
    history, and tampering is rejected or exhibits a hash collision. */
module AuditTheorems {
  import opened Sorting
  import opened Text
  import opened AuditRecord
  import opened AuditVerify
  import opened AuditLog

  // -------------------------------------------------------------- honest runs

  datatype Op =
    | RecordOp(ev: Event, id: string)
    | TruncateOp(req: TruncateRequest, held: set<string>, now: Timestamp, id: string)

  /** Only truncation writes checkpoints. */
  predicate Ordinary(op: Op) {
    op.RecordOp? ==> op.ev.kind != RETENTION_CHECKPOINT
  }

  /** A log together with what its history says of it: the mode it should verify in and how
      many rows truncations have removed so far. */
  datatype History = History(rows: seq<Recorded>, mode: StartMode, removed: nat)

  const BEGINNING := History([], StartEmpty, 0)

  /** The start mode once another row follows. */
  function Grown(mode: StartMode): StartMode {
    match mode
    case StartEmpty => StartGenesis
    case StartSelfAnchoringCheckpoint => StartAnchoredResume
    case other => other
  }

  function AfterRecording(hash: RowHash, s: History, ev: Event, id: string): (t: History)
    requires forall i :: 0 <= i < |s.rows| ==> hash(s.rows[i]).Some?
    ensures forall i :: 0 <= i < |t.rows| ==> hash(t.rows[i]).Some?
  {
    var rows := Recording(hash, s.rows, ev, id);
    if |rows| == |s.rows| then s else s.(rows := rows, mode := Grown(s.mode))
  }

  function AfterTruncating(hash: RowHash, stamp: Timestamp -> string, s: History, req: TruncateRequest,
                           held: set<string>, now: Timestamp, id: string): (t: History)
    requires forall i :: 0 <= i < |s.rows| ==> hash(s.rows[i]).Some?
    ensures forall i :: 0 <= i < |t.rows| ==> hash(t.rows[i]).Some?
  {
    var (rows, res) := Truncating(hash, stamp, s.rows, req, held, now, id);
    if res.None? || !res.value.truncated then s
    else
      History(rows,
              if res.value.truncatedCount == |s.rows| then StartSelfAnchoringCheckpoint
              else StartAnchoredResume,
              s.removed + res.value.truncatedCount)
  }

  function Advance(hash: RowHash, stamp: Timestamp -> string, s: History, op: Op): (t: History)
    requires forall i :: 0 <= i < |s.rows| ==> hash(s.rows[i]).Some?
    ensures forall i :: 0 <= i < |t.rows| ==> hash(t.rows[i]).Some?
  {
    match op
    case RecordOp(ev, id) => AfterRecording(hash, s, ev, id)
    case TruncateOp(req, held, now, id) => AfterTruncating(hash, stamp, s, req, held, now, id)
  }

  function Run(hash: RowHash, stamp: Timestamp -> string, ops: seq<Op>): (s: History)
    ensures forall i :: 0 <= i < |s.rows| ==> hash(s.rows[i]).Some?
  {
    if ops == [] then BEGINNING
    else Advance(hash, stamp, Run(hash, stamp, ops[..|ops| - 1]), ops[|ops| - 1])
  }

  ghost predicate NeverEmpty(hash: RowHash) {
    forall r :: hash(r) != Some("")
  }

  /** Row k is the newest checkpoint. */
  ghost predicate NewestCheckpoint(rows: seq<Recorded>, k: int) {
    0 <= k < |rows| && IsCheckpoint(rows[k]) && forall j :: k < j < |rows| ==> !IsCheckpoint(rows[j])
  }

  /** Every checkpoint anchors at or below the number before the first row, and only the
      newest one reaches it. */
  ghost predicate CheckpointsBelow(rows: seq<Recorded>) {
    forall k :: 0 <= k < |rows| && IsCheckpoint(rows[k]) ==>
                  && AnchorSeq(rows[k]) <= rows[0].seqNo - 1
                  && (AnchorSeq(rows[k]) == rows[0].seqNo - 1 <==> NewestCheckpoint(rows, k))
  }

  /** The newest checkpoint anchors the first row. */
  ghost predicate AnchoredStart(rows: seq<Recorded>) {
    && rows != []
    && rows[0].prevHash != ""
    && exists k :: NewestCheckpoint(rows, k)
                   && AnchorHash(rows[k]) == rows[0].prevHash
                   && AnchorSeq(rows[k]) == rows[0].seqNo - 1
  }

  /** What holds of every log an honest run reaches. */
  ghost predicate Intact(hash: RowHash, s: History) {
    && Contiguous(s.rows)
    && Chained(hash, s.rows)
    && CheckpointsBelow(s.rows)
    && (s.rows != [] ==> s.rows[0].seqNo == s.removed + 1)
    && match s.mode
       case StartEmpty => s.rows == [] && s.removed == 0
       case StartGenesis =>
         && s.rows != [] && s.rows[0].prevHash == "" && s.removed == 0
         && (forall k :: 0 <= k < |s.rows| ==> !IsCheckpoint(s.rows[k]))
       case StartAnchoredResume => |s.rows| > 1 && AnchoredStart(s.rows)
       case StartSelfAnchoringCheckpoint => |s.rows| == 1 && AnchoredStart(s.rows)
  }

  lemma NextRowFollows(hash: RowHash, rows: seq<Recorded>, ev: Event, id: string)
    requires Chained(hash, rows)
    ensures rows != [] ==> Sits(hash, rows, |rows| - 1)
    ensures rows != [] ==> Follows(hash, rows[|rows| - 1], NextRow(hash, rows, ev, id))
  {
    if rows != [] {
      assert Sits(hash, rows, |rows| - 1);
    }
  }

  /** A row that is no checkpoint leaves the checkpoints as they are. */
  lemma AppendedNewest(rows: seq<Recorded>, row: Recorded, k: int)
    requires !IsCheckpoint(row)
    ensures NewestCheckpoint(rows + [row], k) <==> NewestCheckpoint(rows, k)
  {
    var all := rows + [row];
    if NewestCheckpoint(all, k) {
      assert forall j :: k < j < |rows| ==> all[j] == rows[j];
    }
  }

  lemma AppendedCheckpoints(rows: seq<Recorded>, row: Recorded)
    requires !IsCheckpoint(row) && CheckpointsBelow(rows)
    ensures CheckpointsBelow(rows + [row])
    ensures AnchoredStart(rows) ==> AnchoredStart(rows + [row])
  {
    var all := rows + [row];
    forall k | 0 <= k < |all| && IsCheckpoint(all[k])
      ensures AnchorSeq(all[k]) <= all[0].seqNo - 1
      ensures AnchorSeq(all[k]) == all[0].seqNo - 1 <==> NewestCheckpoint(all, k)
    {
      assert all[k] == rows[k];
      AppendedNewest(rows, row, k);
    }
    if AnchoredStart(rows) {
      var k :| NewestCheckpoint(rows, k)
        && AnchorHash(rows[k]) == rows[0].prevHash && AnchorSeq(rows[k]) == rows[0].seqNo - 1;
      AppendedNewest(rows, row, k);
      assert all[k] == rows[k];
    }
  }

  lemma AppendKeepsIntact(hash: RowHash, s: History, row: Recorded)
    requires Intact(hash, s) && !IsCheckpoint(row)
    requires Chained(hash, s.rows + [row]) && Contiguous(s.rows + [row])
    requires s.rows == [] ==> row.seqNo == 1 && row.prevHash == ""
    ensures Intact(hash, s.(rows := s.rows + [row], mode := Grown(s.mode)))
  {
    AppendedCheckpoints(s.rows, row);
  }

  lemma RecordKeepsIntact(hash: RowHash, stamp: Timestamp -> string, s: History, op: Op)
    requires Intact(hash, s) && Hashable(hash, s.rows)
    requires op.RecordOp? && Ordinary(op)
    ensures Intact(hash, Advance(hash, stamp, s, op))
  {
    var row := NextRow(hash, s.rows, op.ev, op.id);
    if hash(row).Some? {
      NextRowFollows(hash, s.rows, op.ev, op.id);
      ExtendChain(hash, s.rows, row);
      AppendKeepsIntact(hash, s, row);
    }
  }

  lemma SuffixChained(hash: RowHash, rows: seq<Recorded>, n: nat)
    requires Chained(hash, rows) && n <= |rows|
    ensures Chained(hash, rows[n..])
  {
    forall k | 0 <= k < |rows| - n
      ensures Sits(hash, rows[n..], k)
    {
      assert Sits(hash, rows, n + k);
    }
  }

  /** What the checkpoint of a truncation says. */
  lemma CheckpointAnchors(hash: RowHash, stamp: Timestamp -> string, rows: seq<Recorded>, n: nat,
                          req: TruncateRequest, clamped: bool, now: Timestamp, id: string)
    requires 0 < n <= |rows| && hash(rows[n - 1]).Some? && hash(rows[|rows| - 1]).Some?
    ensures var cp := CheckpointRow(hash, stamp, rows, n, req, clamped, now, id);
            && IsCheckpoint(cp) && Follows(hash, rows[|rows| - 1], cp)
            && AnchorSeq(cp) == rows[n - 1].seqNo && Some(AnchorHash(cp)) == hash(rows[n - 1])
  {}

  lemma AdvanceCuts(hash: RowHash, stamp: Timestamp -> string, s: History, op: Op)
    requires Hashable(hash, s.rows) && op.TruncateOp?
    ensures var n := Removable(s.rows, op.req.cutoff, op.held);
            var clamped := Clamped(s.rows, op.req.cutoff, op.held);
            Advance(hash, stamp, s, op)
            == if n == 0 then s
               else
                 var cp := CheckpointRow(hash, stamp, s.rows, n, op.req, clamped, op.now, op.id);
                 if hash(cp).None? then s else AfterCut(s, n, cp)
  {}

  lemma TruncateKeepsIntact(hash: RowHash, stamp: Timestamp -> string, s: History, op: Op)
    requires NeverEmpty(hash)
    requires Intact(hash, s) && Hashable(hash, s.rows)
    requires op.TruncateOp?
    ensures Intact(hash, Advance(hash, stamp, s, op))
  {
    var n := Removable(s.rows, op.req.cutoff, op.held);
    var clamped := Clamped(s.rows, op.req.cutoff, op.held);
    AdvanceCuts(hash, stamp, s, op);
    if n > 0 {
      var cp := CheckpointRow(hash, stamp, s.rows, n, op.req, clamped, op.now, op.id);
      if hash(cp).Some? {
        CheckpointAnchors(hash, stamp, s.rows, n, op.req, clamped, op.now, op.id);
        CutKeepsIntact(hash, s, n, cp);
      }
    }
  }

  /** Behind a checkpoint that anchors the first survivor, the checkpoints are in order. */
  lemma CutCheckpoints(hash: RowHash, rows: seq<Recorded>, n: nat, cp: Recorded)
    requires NeverEmpty(hash) && Chained(hash, rows) && Contiguous(rows) && CheckpointsBelow(rows)
    requires 0 < n <= |rows| && hash(rows[n - 1]).Some? && IsCheckpoint(cp)
    requires Follows(hash, rows[|rows| - 1], cp)
    requires AnchorSeq(cp) == rows[n - 1].seqNo && Some(AnchorHash(cp)) == hash(rows[n - 1])
    ensures CheckpointsBelow(rows[n..] + [cp]) && AnchoredStart(rows[n..] + [cp])
  {
    var all := rows[n..] + [cp];
    if n < |rows| {
      assert Sits(hash, rows, n);
      assert all[0] == rows[n];
    }
    assert all[0].prevHash == AnchorHash(cp) && AnchorSeq(cp) == all[0].seqNo - 1;
    assert NewestCheckpoint(all, |rows| - n);
    forall k | 0 <= k < |rows| - n && IsCheckpoint(all[k])
      ensures AnchorSeq(all[k]) < all[0].seqNo - 1 && !NewestCheckpoint(all, k)
    {
      assert all[k] == rows[n + k];
    }
  }

  lemma CutKeepsIntact(hash: RowHash, s: History, n: nat, cp: Recorded)
    requires NeverEmpty(hash)
    requires Intact(hash, s) && Hashable(hash, s.rows)
    requires 0 < n <= |s.rows|
    requires hash(cp).Some? && Follows(hash, s.rows[|s.rows| - 1], cp)
    requires IsCheckpoint(cp)
    requires AnchorSeq(cp) == s.rows[n - 1].seqNo && Some(AnchorHash(cp)) == hash(s.rows[n - 1])
    ensures Intact(hash, AfterCut(s, n, cp))
  {
    SuffixChained(hash, s.rows, n);
    ExtendChain(hash, s.rows[n..], cp);
    SurvivorsContiguous(hash, s.rows, n, cp);
    CutCheckpoints(hash, s.rows, n, cp);
  }

  /** The history once the first n rows are gone behind checkpoint cp. */
  function AfterCut(s: History, n: nat, cp: Recorded): History
    requires n <= |s.rows|
  {
    History(s.rows[n..] + [cp],
            if n == |s.rows| then StartSelfAnchoringCheckpoint else StartAnchoredResume,
            s.removed + n)
  }

  lemma {:induction false} RunIsIntact(hash: RowHash, stamp: Timestamp -> string, ops: seq<Op>)
    requires NeverEmpty(hash)
    requires forall i :: 0 <= i < |ops| ==> Ordinary(ops[i])
    ensures Intact(hash, Run(hash, stamp, ops))
  {
    if ops != [] {
      var before, op := ops[..|ops| - 1], ops[|ops| - 1];
      RunIsIntact(hash, stamp, before);
      if op.RecordOp? {
        RecordKeepsIntact(hash, stamp, Run(hash, stamp, before), op);
      } else {
        TruncateKeepsIntact(hash, stamp, Run(hash, stamp, before), op);
      }
    }
  }

  /** Every run of recordings and truncations from the empty log is accepted, in the start
      mode of its history, over all its rows, starting after the rows truncated so far. It
      needs nothing of the hash but that it is never empty. */
  lemma EveryRunVerifies(hash: RowHash, stamp: Timestamp -> string, ops: seq<Op>)
    requires NeverEmpty(hash)
    requires forall i :: 0 <= i < |ops| ==> Ordinary(ops[i])
    ensures var s := Run(hash, stamp, ops);
            var out := Assess(hash, s.rows);
            && out.Reported?
            && out.report.ok && out.report.brk.None?
            && out.report.startMode == s.mode
            && out.report.eventsChecked == |s.rows|
            && out.report.firstSeq == if s.rows == [] then 0 else s.removed + 1
  {
    var s := Run(hash, stamp, ops);
    RunIsIntact(hash, stamp, ops);
    GoodLengthIs(hash, s.rows, |s.rows|);
    if s.mode.StartAnchoredResume? || s.mode.StartSelfAnchoringCheckpoint? {
      CheckpointIsLast(s.rows, s.rows[0].prevHash);
      var k :| NewestCheckpoint(s.rows, k)
        && AnchorHash(s.rows[k]) == s.rows[0].prevHash
        && AnchorSeq(s.rows[k]) == s.rows[0].seqNo - 1;
      assert LastAnchor(s.rows, k, s.rows[0].prevHash);
    }
  }

  /** In every reachable log, deleting a non-empty proper prefix without a checkpoint of its
      own is rejected: no surviving checkpoint reaches the new first row. */
  lemma PrefixDeletionRejected(hash: RowHash, stamp: Timestamp -> string, ops: seq<Op>, n: nat)
    requires NeverEmpty(hash)
    requires forall i :: 0 <= i < |ops| ==> Ordinary(ops[i])
    requires 0 < n < |Run(hash, stamp, ops).rows|
    ensures !Accepted(hash, Run(hash, stamp, ops).rows[n..])
  {
    var rows := Run(hash, stamp, ops).rows;
    RunIsIntact(hash, stamp, ops);
    var rest := rows[n..];
    AcceptedExactly(hash, rest);
    assert Sits(hash, rows, n);
    assert forall k :: 0 <= k < |rest| ==> rest[k] == rows[n + k];
  }

  lemma PrefixChained(hash: RowHash, rows: seq<Recorded>, n: nat)
    requires Chained(hash, rows) && n <= |rows|
    ensures Chained(hash, rows[..n])
  {
    forall k | 0 <= k < n
      ensures Sits(hash, rows[..n], k)
    {
      assert Sits(hash, rows, k);
    }
  }

  /** Removing the newest rows of a reachable log goes unnoticed exactly when the log starts
      at genesis or its newest checkpoint is among the rows kept. */
  lemma TailRemovalAcceptedExactly(hash: RowHash, stamp: Timestamp -> string, ops: seq<Op>, n: nat)
    requires NeverEmpty(hash)
    requires forall i :: 0 <= i < |ops| ==> Ordinary(ops[i])
    requires 0 < n <= |Run(hash, stamp, ops).rows|
    ensures var s := Run(hash, stamp, ops);
            Accepted(hash, s.rows[..n]) <==>
              || s.mode == StartGenesis
              || forall j :: n <= j < |s.rows| ==> !IsCheckpoint(s.rows[j])
  {
    var s := Run(hash, stamp, ops);
    var rows := s.rows;
    RunIsIntact(hash, stamp, ops);
    var kept := rows[..n];
    PrefixChained(hash, rows, n);
    AcceptedExactly(hash, kept);
    if s.mode != StartGenesis {
      var k :| NewestCheckpoint(rows, k)
        && AnchorHash(rows[k]) == rows[0].prevHash && AnchorSeq(rows[k]) == rows[0].seqNo - 1;
      if k < n {
        assert kept[k] == rows[k];
        assert LastAnchor(kept, k, kept[0].prevHash);
        assert Vouched(kept);
      } else {
        forall j | LastAnchor(kept, j, kept[0].prevHash)
          ensures AnchorSeq(kept[j]) != kept[0].seqNo - 1
        {
          assert kept[j] == rows[j];
          assert !NewestCheckpoint(rows, j);
        }
        assert IsCheckpoint(rows[k]);
      }
    }
  }

  // ---------------------------------------------------------- tamper evidence

  /** The row hash computed with the functions h. */
  function HashOf(h: Hashing): RowHash {
    r => HashRecord(h, r)
  }

  /** The j-th row counted from the last one. */
  function FromEnd(rows: seq<Recorded>, j: nat): Recorded
    requires j < |rows|
  {
    rows[|rows| - 1 - j]
  }

  /** Two rows at the same distance from the end of a and b collide. */
  ghost predicate Collide(h: Hashing, a: seq<Recorded>, b: seq<Recorded>) {
    exists j: nat :: j < |a| && j < |b| && Colliding(h, FromEnd(a, j), FromEnd(b, j))
  }

  /** The j-th rows from the end agree in hash and preimage, unless rows collide. */
  ghost predicate AgreeAt(h: Hashing, a: seq<Recorded>, b: seq<Recorded>, j: nat)
    requires j < |a| && j < |b|
  {
    || Collide(h, a, b)
    || (HashRecord(h, FromEnd(a, j)) == HashRecord(h, FromEnd(b, j)) && SamePreimage(h, FromEnd(a, j), FromEnd(b, j)))
  }

  lemma SameHashAgrees(h: Hashing, a: seq<Recorded>, b: seq<Recorded>, j: nat)
    requires j < |a| && j < |b|
    requires HashRecord(h, FromEnd(a, j)).Some? && HashRecord(h, FromEnd(a, j)) == HashRecord(h, FromEnd(b, j))
    ensures AgreeAt(h, a, b, j)
  {
    if !SamePreimage(h, FromEnd(a, j), FromEnd(b, j)) {
      assert Colliding(h, FromEnd(a, j), FromEnd(b, j));
    }
  }

  lemma AgreeAtLast(h: Hashing, a: seq<Recorded>, b: seq<Recorded>)
    requires Chained(HashOf(h), a) && a != [] && b != []
    requires HashRecord(h, FromEnd(a, 0)) == HashRecord(h, FromEnd(b, 0))
    ensures AgreeAt(h, a, b, 0)
  {
    assert Sits(HashOf(h), a, |a| - 1);
    SameHashAgrees(h, a, b, 0);
  }

  /** Rows that agree have predecessors with one hash. */
  lemma AgreeBefore(h: Hashing, a: seq<Recorded>, b: seq<Recorded>, j: nat)
    requires Sound(h) && Chained(HashOf(h), a) && Chained(HashOf(h), b)
    requires 0 < j < |a| && j < |b| && SamePreimage(h, FromEnd(a, j - 1), FromEnd(b, j - 1))
    ensures HashRecord(h, FromEnd(a, j)).Some? && HashRecord(h, FromEnd(a, j)) == HashRecord(h, FromEnd(b, j))
  {
    assert Sits(HashOf(h), a, |a| - j) && Sits(HashOf(h), b, |b| - j);
    assert Sits(HashOf(h), a, |a| - 1 - j) && Sits(HashOf(h), b, |b| - 1 - j);
    DigestFree(h, FromEnd(a, j));
    DigestFree(h, FromEnd(b, j));
    PreimageDeterminesPrevHash(h, FromEnd(a, j - 1), FromEnd(b, j - 1));
  }

  lemma {:induction false} AgreeFromEnd(h: Hashing, a: seq<Recorded>, b: seq<Recorded>, j: nat)
    requires Sound(h)
    requires Chained(HashOf(h), a) && Chained(HashOf(h), b)
    requires j < |a| && j < |b|
    requires HashRecord(h, FromEnd(a, 0)) == HashRecord(h, FromEnd(b, 0))
    ensures AgreeAt(h, a, b, j)
  {
    if j > 0 {
      AgreeFromEnd(h, a, b, j - 1);
      if !Collide(h, a, b) {
        AgreeBefore(h, a, b, j);
        SameHashAgrees(h, a, b, j);
      }
    } else {
      AgreeAtLast(h, a, b);
    }
  }

  lemma DigestFree(h: Hashing, r: Recorded)
    requires Sound(h) && HashRecord(h, r).Some?
    ensures Free(HashRecord(h, r).value, '|') && HashRecord(h, r).value != ""
  {}

  lemma GenesisSameLength(h: Hashing, a: seq<Recorded>, b: seq<Recorded>)
    requires Sound(h)
    requires a != [] && |a| < |b| && a[0].prevHash == ""
    requires Chained(HashOf(h), b)
    ensures !SamePreimage(h, FromEnd(a, |a| - 1), FromEnd(b, |a| - 1))
  {
    var k := |b| - |a|;
    assert Sits(HashOf(h), b, k);
    DigestFree(h, b[k - 1]);
    if SamePreimage(h, a[0], b[k]) {
      PreimageDeterminesPrevHash(h, a[0], b[k]);
    }
  }

  /** Tamper evidence. Of two accepted logs whose last rows have the same hash, the shorter is
      a suffix of the longer up to hash preimage, or two aligned rows collide. If the shorter
      starts at genesis they have the same length. */
  lemma SameHeadSameLog(h: Hashing, a: seq<Recorded>, b: seq<Recorded>)
    requires Sound(h)
    requires a != [] && b != [] && |a| <= |b|
    requires Accepted(HashOf(h), a) && Accepted(HashOf(h), b)
    requires HashRecord(h, FromEnd(a, 0)) == HashRecord(h, FromEnd(b, 0))
    ensures Collide(h, a, b)
            || forall j: nat :: j < |a| ==> SamePreimage(h, FromEnd(a, j), FromEnd(b, j))
    ensures a[0].prevHash == "" ==> |a| == |b| || Collide(h, a, b)
  {
    var intact := Chained(HashOf(h), a) && Chained(HashOf(h), b);
    assert intact by {
      AcceptedExactly(HashOf(h), a);
      AcceptedExactly(HashOf(h), b);
    }
    forall j: nat | j < |a|
      ensures SamePreimage(h, FromEnd(a, j), FromEnd(b, j)) || Collide(h, a, b)
    {
      AgreeFromEnd(h, a, b, j);
    }
    if a[0].prevHash == "" && |a| < |b| {
      GenesisSameLength(h, a, b);
      AgreeFromEnd(h, a, b, |a| - 1);
    }
  }

  /** Replacing a row that is not the last keeps the chain exactly when the number, the
      stored predecessor hash (if the row has a predecessor) and the row's own hash stay the
      same. Otherwise the break is at the row itself, or at the next one. */
  lemma EditDetectedExactly(hash: RowHash, rows: seq<Recorded>, i: nat, r: Recorded)
    requires Chained(hash, rows) && i < |rows| - 1
    requires hash(r).Some?
    ensures var edited := rows[i := r];
            var kept := r.seqNo == rows[i].seqNo && (i > 0 ==> r.prevHash == rows[i].prevHash);
            && GoodLength(hash, edited)
               == (if kept && hash(r) == hash(rows[i]) then |rows|
                   else if i > 0 && !kept then i
                   else i + 1)
            && (GoodLength(hash, edited) < |rows| ==>
                  && Assess(hash, edited).Reported?
                  && !Assess(hash, edited).report.ok
                  && Assess(hash, edited).report.eventsChecked == GoodLength(hash, edited)
                  && Assess(hash, edited).report.brk.Some?
                  && Assess(hash, edited).report.brk.value.seqNo
                     == edited[GoodLength(hash, edited)].seqNo)
    ensures GoodLength(hash, rows[i := r]) < |rows| ==>
              Assess(hash, rows[i := r]).report.brk == Some(EditBreak(hash, rows, i, r))
  {
    var edited := rows[i := r];
    var kept := r.seqNo == rows[i].seqNo && (i > 0 ==> r.prevHash == rows[i].prevHash);
    var n := if kept && hash(r) == hash(rows[i]) then |rows| else if i > 0 && !kept then i else i + 1;
    assert Sits(hash, rows, i) && Sits(hash, rows, i + 1);
    forall k | 0 <= k < n
      ensures Sits(hash, edited, k)
    {
      assert Sits(hash, rows, k);
    }
    GoodLengthIs(hash, edited, n);
    if n < |rows| {
      assert edited[..n][n - 1] == edited[n - 1];
    }
  }

  /** How such an edit is reported: a number that does not follow on is a gap, and anything else is a
      hash mismatch, with the hash that the row in front really has and the one that is stored. */
  function EditBreak(hash: RowHash, rows: seq<Recorded>, i: nat, r: Recorded): Break
    requires i < |rows| - 1 && Chained(hash, rows) && hash(r).Some?
  {
    assert i > 0 ==> Sits(hash, rows, i - 1);
    if i > 0 && r.seqNo != rows[i].seqNo then
      Break(r.seqNo, hash(rows[i - 1]).value, r.prevHash, SequenceGap)
    else if i > 0 && r.prevHash != rows[i].prevHash then
      Break(r.seqNo, hash(rows[i - 1]).value, r.prevHash, HashMismatch)
    else
      Break(rows[i + 1].seqNo, hash(r).value, rows[i + 1].prevHash,
            if r.seqNo != rows[i].seqNo then SequenceGap else HashMismatch)
  }

  /** An edit that the chain does not reveal has the old row's hash: the same preimage, or a
      collision of the two rows. */
  lemma UndetectedEdit(h: Hashing, rows: seq<Recorded>, i: nat, r: Recorded)
    requires Accepted(HashOf(h), rows) && i < |rows| - 1
    requires Accepted(HashOf(h), rows[i := r])
    ensures SamePreimage(h, r, rows[i]) || Colliding(h, r, rows[i])
  {
    AcceptedExactly(HashOf(h), rows);
    AcceptedExactly(HashOf(h), rows[i := r]);
    assert Sits(HashOf(h), rows, i);
    assert rows[i := r][i] == r && Sits(HashOf(h), rows[i := r], i);
    EditDetectedExactly(HashOf(h), rows, i, r);
  }

  /** The walk stops after n intact rows at a gap before row number seqNo. */
  ghost predicate GapAt(hash: RowHash, rows: seq<Recorded>, n: nat, seqNo: int) {
    && GoodLength(hash, rows) == n
    && var out := Assess(hash, rows);
       && out.Reported? && !out.report.ok && out.report.eventsChecked == n
       && out.report.brk.Some?
       && out.report.brk.value.seqNo == seqNo && out.report.brk.value.reason == SequenceGap
  }

  /** A row whose number does not follow on ends the intact rows with a gap. */
  lemma GapFound(hash: RowHash, rows: seq<Recorded>, i: nat)
    requires 0 < i < |rows| && hash(rows[i]).Some? && rows[i].seqNo != rows[i - 1].seqNo + 1
    requires forall k :: 0 <= k < i ==> Sits(hash, rows, k)
    ensures GapAt(hash, rows, i, rows[i].seqNo)
  {
    assert Sits(hash, rows, i - 1);
    GoodLengthIs(hash, rows, i);
    assert rows[..i][i - 1] == rows[i - 1];
  }

  /** Removing any block of rows that leaves the first and the last leaves a gap right where it
      was, whatever the hash. */
  lemma InteriorRemovalDetected(hash: RowHash, rows: seq<Recorded>, i: nat, j: nat)
    requires Chained(hash, rows) && 0 < i < j < |rows|
    ensures GapAt(hash, rows[..i] + rows[j..], i, rows[j].seqNo)
  {
    var cut := rows[..i] + rows[j..];
    forall k | 0 <= k < i
      ensures Sits(hash, cut, k)
    {
      assert Sits(hash, rows, k);
    }
    assert Sits(hash, rows, j);
    assert cut[i] == rows[j] && cut[i - 1] == rows[i - 1];
    ChainedNumbers(hash, rows, j);
    ChainedNumbers(hash, rows, i - 1);
    GapFound(hash, cut, i);
  }

  lemma {:induction false} ChainedNumbers(hash: RowHash, rows: seq<Recorded>, i: nat)
    requires Chained(hash, rows) && i < |rows|
    ensures rows[i].seqNo == rows[0].seqNo + i
  {
    if i > 0 {
      ChainedNumbers(hash, rows, i - 1);
      assert Sits(hash, rows, i);
    }
  }

  lemma NotBefore(hash: RowHash, a: seq<Recorded>, b: seq<Recorded>)
    requires Chained(hash, b) && a != []
    requires multiset(a) == multiset(b)
    ensures b != [] && b[0].seqNo <= a[0].seqNo
  {
    assert a[0] in multiset(a);
    assert a[0] in b;
    var j :| 0 <= j < |b| && b[j] == a[0];
    ChainedNumbers(hash, b, j);
  }

  /** No reordering of a log's rows is accepted but the identity, whatever the hash. */
  lemma ReorderDetected(hash: RowHash, a: seq<Recorded>, b: seq<Recorded>)
    requires Chained(hash, a) && Accepted(hash, b)
    requires multiset(a) == multiset(b)
    ensures a == b
  {
    AcceptedExactly(hash, b);
    assert |a| == |multiset(a)| == |multiset(b)| == |b|;
    if a != [] {
      NotBefore(hash, a, b);
      NotBefore(hash, b, a);
      forall i | 0 <= i < |a|
        ensures a[i] == b[i]
      {
        assert a[i] in multiset(a);
        assert a[i] in b;
        var j :| 0 <= j < |b| && b[j] == a[i];
        ChainedNumbers(hash, a, i);
        ChainedNumbers(hash, b, j);
      }
    }
  }

  lemma ChainedDistinct(hash: RowHash, rows: seq<Recorded>)
    requires Chained(hash, rows)
    ensures NoRepeats(rows)
  {
    forall i, j | 0 <= i < j < |rows|
      ensures rows[i] != rows[j]
    {
      ChainedNumbers(hash, rows, i);
      ChainedNumbers(hash, rows, j);
    }
  }

  /** The row a reordering puts where the log has another one comes from further back. */
  lemma FromBehind(a: seq<Recorded>, b: seq<Recorded>, i: nat) returns (j: nat)
    requires NoRepeats(b) && multiset(a) == multiset(b)
    requires i < |a| && i < |b| && a[..i] == b[..i] && a[i] != b[i]
    ensures i < j < |a| && a[j] == b[i]
  {
    forall m | 0 <= m < i
      ensures a[m] == b[m]
    {
      assert a[..i][m] == b[..i][m];
    }
    assert b[i] in multiset(b);
    assert b[i] in a;
    j :| 0 <= j < |a| && a[j] == b[i];
  }

  lemma CommonPrefixSits(hash: RowHash, a: seq<Recorded>, b: seq<Recorded>, i: nat, k: nat)
    requires Chained(hash, a) && k < i <= |a| && i <= |b| && a[..i] == b[..i]
    ensures Sits(hash, b, k) && b[k] == a[k]
  {
    assert a[..i][k] == b[..i][k];
    assert k > 0 ==> a[..i][k - 1] == b[..i][k - 1];
    assert Sits(hash, a, k);
  }

  /** Where a reordering is found: at the first place, after the first row, where the rows differ
      from the log's, as a gap. */
  lemma ReorderBreak(hash: RowHash, a: seq<Recorded>, b: seq<Recorded>, i: nat)
    requires Chained(hash, a) && multiset(a) == multiset(b)
    requires 0 < i < |a| && i < |b| && a[..i] == b[..i] && a[i] != b[i]
    ensures GapAt(hash, b, i, b[i].seqNo)
  {
    ChainedDistinct(hash, a);
    RearrangedNoRepeats(a, b);
    var j := FromBehind(a, b, i);
    forall k | 0 <= k < i
      ensures Sits(hash, b, k)
    {
      CommonPrefixSits(hash, a, b, i, k);
    }
    CommonPrefixSits(hash, a, b, i, i - 1);
    ChainedNumbers(hash, a, j);
    ChainedNumbers(hash, a, i - 1);
    assert Sits(hash, a, j);
    GapFound(hash, b, i);
  }
}
