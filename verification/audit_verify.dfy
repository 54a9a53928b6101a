/** The one-pass verifier of the audit chain: what an intact chain is, what the report must
    say, and the walker that computes it row by row. */
module AuditVerify {
  import opened Text
  import opened AuditRecord

  /** The hash of a row, or None for a row that cannot be hashed. */
  type RowHash = Recorded -> Option<string>

  datatype StartMode =
    | StartEmpty
    | StartGenesis
    | StartAnchoredResume
    | StartSelfAnchoringCheckpoint

  datatype Reason = SequenceGap | HashMismatch | NoAnchor | AnchorSeqMismatch

  datatype Break = Break(seqNo: int, expectedPrevHash: string, actualPrevHash: string, reason: Reason)

  datatype Report = Report(
    ok: bool,
    eventsChecked: nat,
    checkpointsPresent: nat,
    startMode: StartMode,
    firstSeq: int,
    brk: Option<Break>)

  /** Failed is an error while reading or hashing, which is not a verdict. */
  datatype Outcome = Failed | Reported(report: Report)

  datatype CheckpointInfo = CheckpointInfo(seqNo: int, anchorSeq: int)

  // ------------------------------------------------------------ intact chains

  /** Row r continues the chain after row prev. */
  predicate Follows(hash: RowHash, prev: Recorded, r: Recorded) {
    r.seqNo == prev.seqNo + 1 && hash(prev) == Some(r.prevHash)
  }

  /** Row k can be hashed and continues the chain after its predecessor, if it has one. */
  predicate Sits(hash: RowHash, rows: seq<Recorded>, k: nat)
    requires k < |rows|
  {
    hash(rows[k]).Some? && (k > 0 ==> Follows(hash, rows[k - 1], rows[k]))
  }

  ghost predicate Chained(hash: RowHash, rows: seq<Recorded>) {
    forall k :: 0 <= k < |rows| ==> Sits(hash, rows, k)
  }

  /** The number of rows before the first one that does not sit in the chain. */
  ghost function GoodLength(hash: RowHash, rows: seq<Recorded>): (n: nat)
    ensures n <= |rows|
    ensures forall k :: 0 <= k < n ==> Sits(hash, rows, k)
    ensures n < |rows| ==> !Sits(hash, rows, n)
  {
    if rows == [] then 0
    else
      var front := rows[..|rows| - 1];
      var n := GoodLength(hash, front);
      assert forall k :: 0 <= k < |front| ==> Sits(hash, front, k) == Sits(hash, rows, k);
      if n < |front| || !Sits(hash, rows, |front|) then n else |rows|
  }

  /** Checkpoints by anchor hash; of two with the same anchor hash the later one stands. */
  function Checkpoints(rows: seq<Recorded>): map<string, CheckpointInfo> {
    if rows == [] then map[]
    else
      var front, r := rows[..|rows| - 1], rows[|rows| - 1];
      if IsCheckpoint(r)
      then Checkpoints(front)[AnchorHash(r) := CheckpointInfo(r.seqNo, AnchorSeq(r))]
      else Checkpoints(front)
  }

  // ------------------------------------------------------------------ reports

  /** The break at row r after the intact rows good. */
  function BreakAt(hash: RowHash, good: seq<Recorded>, r: Recorded): Break
    requires |good| > 0 && hash(good[|good| - 1]).Some?
  {
    var prev := good[|good| - 1];
    Break(r.seqNo, hash(prev).value, r.prevHash,
          if r.seqNo != prev.seqNo + 1 then SequenceGap else HashMismatch)
  }

  function BreakReport(hash: RowHash, good: seq<Recorded>, r: Recorded): Report
    requires |good| > 0 && hash(good[|good| - 1]).Some?
  {
    Report(false, |good|, |Checkpoints(good)|, StartEmpty, good[0].seqNo,
           Some(BreakAt(hash, good, r)))
  }

  /** The report on rows whose chain is intact: it depends on what vouches for the start. */
  function StartReport(rows: seq<Recorded>): Report {
    if rows == [] then Report(true, 0, 0, StartEmpty, 0, None)
    else
      var first, cps := rows[0], Checkpoints(rows);
      var rep := Report(true, |rows|, |cps|, StartGenesis, first.seqNo, None);
      if first.prevHash == "" then rep
      else if first.prevHash !in cps then
        rep.(ok := false, startMode := StartEmpty,
             brk := Some(Break(first.seqNo, "", first.prevHash, NoAnchor)))
      else if cps[first.prevHash].anchorSeq != first.seqNo - 1 then
        rep.(ok := false, startMode := StartEmpty,
             brk := Some(Break(first.seqNo, "", first.prevHash, AnchorSeqMismatch)))
      else if |rows| == 1 && IsCheckpoint(first) && AnchorHash(first) == first.prevHash then
        rep.(startMode := StartSelfAnchoringCheckpoint)
      else
        rep.(startMode := StartAnchoredResume)
  }

  /** What Verify must answer on the rows of a log. */
  ghost function Assess(hash: RowHash, rows: seq<Recorded>): Outcome {
    var n := GoodLength(hash, rows);
    if n == |rows| then Reported(StartReport(rows))
    else if hash(rows[n]).None? then Failed
    else
      assert Sits(hash, rows, n - 1);
      Reported(BreakReport(hash, rows[..n], rows[n]))
  }

  ghost predicate Accepted(hash: RowHash, rows: seq<Recorded>) {
    Assess(hash, rows).Reported? && Assess(hash, rows).report.ok
  }

  // ------------------------------------------------------------------- walker

  datatype StepResult = Continue | Stopped | HashError

  class ChainWalker {
    const hash: RowHash
    var n: nat
    var firstSeq: int
    var firstPrevHash: string
    var firstKind: string
    var firstAnchorHash: string
    var prevSeq: int
    var prevHash: string
    var checkpoints: map<string, CheckpointInfo>
    var brk: Option<Break>
    ghost var seen: seq<Recorded>

    ghost predicate Valid()
      reads this
    {
      && n == |seen|
      && Chained(hash, seen)
      && checkpoints == Checkpoints(seen)
      && (n > 0 ==>
            && firstSeq == seen[0].seqNo
            && firstPrevHash == seen[0].prevHash
            && firstKind == seen[0].event.kind
            && (IsCheckpoint(seen[0]) ==> firstAnchorHash == AnchorHash(seen[0]))
            && prevSeq == seen[n - 1].seqNo
            && Some(prevHash) == hash(seen[n - 1]))
    }

    constructor (hash: RowHash)
      ensures Valid() && this.hash == hash && seen == [] && brk.None?
    {
      this.hash := hash;
      n, firstSeq, prevSeq := 0, 0, 0;
      firstPrevHash, firstKind, firstAnchorHash, prevHash := "", "", "", "";
      checkpoints, brk, seen := map[], None, [];
    }

    /** One row, in ascending order: it joins the intact rows, or it is the first break, or
        it cannot be hashed. */
    method Step(rec: Recorded) returns (r: StepResult)
      requires Valid() && brk.None?
      modifies this
      ensures Valid()
      ensures r == if hash(rec).None? then HashError
                   else if old(seen) == [] || Follows(hash, old(seen)[|old(seen)| - 1], rec) then Continue
                   else Stopped
      ensures seen == if r.Continue? then old(seen) + [rec] else old(seen)
      ensures !r.Stopped? ==> brk.None?
      ensures r.Stopped? ==> old(seen) != [] && brk == Some(BreakAt(hash, old(seen), rec))
    {
      var digest := hash(rec);
      if digest.None? {
        return HashError;
      }
      if n > 0 {
        assert Sits(hash, seen, n - 1);
        if rec.seqNo != prevSeq + 1 {
          brk := Some(Break(rec.seqNo, prevHash, rec.prevHash, SequenceGap));
          return Stopped;
        }
        if rec.prevHash != prevHash {
          brk := Some(Break(rec.seqNo, prevHash, rec.prevHash, HashMismatch));
          return Stopped;
        }
      }
      Take(rec, digest.value);
      return Continue;
    }

    /** A row that continues the chain becomes the walker's last one. */
    method Take(rec: Recorded, digest: string)
      requires Valid() && hash(rec) == Some(digest)
      requires seen == [] || Follows(hash, seen[|seen| - 1], rec)
      modifies this
      ensures Valid()
      ensures seen == old(seen) + [rec] && brk == old(brk)
    {
      ExtendChain(hash, seen, rec);
      ghost var all := seen + [rec];
      assert all[n] == rec && (n > 0 ==> all[0] == seen[0]);
      var next := checkpoints;
      if IsCheckpoint(rec) {
        next := next[DetailString(rec.event.details, ANCHOR_HASH)
                     := CheckpointInfo(rec.seqNo, DetailInt(rec.event.details, ANCHOR_SEQ))];
      }
      assert next == Checkpoints(all);
      if n == 0 {
        firstSeq, firstPrevHash, firstKind := rec.seqNo, rec.prevHash, rec.event.kind;
        if IsCheckpoint(rec) {
          firstAnchorHash := DetailString(rec.event.details, ANCHOR_HASH);
        }
      }
      prevSeq, prevHash, checkpoints, n := rec.seqNo, digest, next, n + 1;
      seen := all;
    }

    method MakeReport() returns (rep: Report)
      requires Valid()
      ensures brk.None? ==> rep == StartReport(seen)
      ensures brk.Some? && seen != [] ==>
                rep == Report(false, |seen|, |Checkpoints(seen)|, StartEmpty, seen[0].seqNo, brk)
    {
      if brk.Some? {
        return Report(false, n, |checkpoints|, StartEmpty, firstSeq, brk);
      }
      if n == 0 {
        return Report(true, 0, 0, StartEmpty, 0, None);
      }
      rep := Report(false, n, |checkpoints|, StartEmpty, firstSeq, None);
      if firstPrevHash == "" {
        return rep.(ok := true, startMode := StartGenesis);
      }
      if firstPrevHash !in checkpoints {
        return rep.(brk := Some(Break(firstSeq, "", firstPrevHash, NoAnchor)));
      }
      var cp := checkpoints[firstPrevHash];
      if cp.anchorSeq != firstSeq - 1 {
        return rep.(brk := Some(Break(firstSeq, "", firstPrevHash, AnchorSeqMismatch)));
      }
      if n == 1 && firstKind == RETENTION_CHECKPOINT && firstAnchorHash == firstPrevHash {
        return rep.(ok := true, startMode := StartSelfAnchoringCheckpoint);
      }
      return rep.(ok := true, startMode := StartAnchoredResume);
    }
  }

  lemma ExtendChain(hash: RowHash, rows: seq<Recorded>, r: Recorded)
    requires Chained(hash, rows)
    requires hash(r).Some?
    requires rows == [] || Follows(hash, rows[|rows| - 1], r)
    ensures Chained(hash, rows + [r])
    ensures Checkpoints(rows + [r])
            == if IsCheckpoint(r)
               then Checkpoints(rows)[AnchorHash(r) := CheckpointInfo(r.seqNo, AnchorSeq(r))]
               else Checkpoints(rows)
  {
    assert (rows + [r])[..|rows|] == rows;
    ChainExtended(hash, rows, r);
  }

  lemma ChainExtended(hash: RowHash, rows: seq<Recorded>, r: Recorded)
    requires Chained(hash, rows)
    requires hash(r).Some?
    requires rows == [] || Follows(hash, rows[|rows| - 1], r)
    ensures Chained(hash, rows + [r])
  {
    var all := rows + [r];
    forall k | 0 <= k < |all|
      ensures Sits(hash, all, k)
    {
      if k < |rows| {
        assert Sits(hash, rows, k);
      }
    }
  }

  /** Verification of the rows a reader streams in ascending order. */
  method Verify(hash: RowHash, rows: seq<Recorded>) returns (out: Outcome)
    ensures out == Assess(hash, rows)
  {
    var w := new ChainWalker(hash);
    var i := 0;
    while i < |rows|
      invariant 0 <= i <= |rows|
      invariant w.Valid() && w.hash == hash && w.brk.None?
      invariant w.seen == rows[..i]
      invariant ChainedUpTo(hash, rows, i)
    {
      StopOrGoOn(hash, rows, i);
      assert rows[..i + 1] == rows[..i] + [rows[i]];
      var r := w.Step(rows[i]);
      match r {
        case HashError =>
          return Failed;
        case Stopped =>
          var rep := w.MakeReport();
          return Reported(rep);
        case Continue =>
          i := i + 1;
      }
    }
    assert rows[..i] == rows;
    GoodLengthIs(hash, rows, i);
    var rep := w.MakeReport();
    return Reported(rep);
  }

  /** The first n rows are intact. */
  ghost predicate ChainedUpTo(hash: RowHash, rows: seq<Recorded>, n: nat) {
    n <= |rows| && forall k :: 0 <= k < n ==> Sits(hash, rows, k)
  }

  /** The next row decides whether the intact rows go on. */
  lemma StopOrGoOn(hash: RowHash, rows: seq<Recorded>, n: nat)
    requires n < |rows| && ChainedUpTo(hash, rows, n)
    ensures if Sits(hash, rows, n) then ChainedUpTo(hash, rows, n + 1) else GoodLength(hash, rows) == n
  {
    if !Sits(hash, rows, n) {
      GoodLengthIs(hash, rows, n);
    }
  }

  // -------------------------------------------------------- facts about Assess

  lemma GoodLengthIs(hash: RowHash, rows: seq<Recorded>, n: nat)
    requires n <= |rows|
    requires forall k :: 0 <= k < n ==> Sits(hash, rows, k)
    requires n < |rows| ==> !Sits(hash, rows, n)
    ensures GoodLength(hash, rows) == n
  {}

  predicate Anchors(r: Recorded, a: string) {
    IsCheckpoint(r) && AnchorHash(r) == a
  }

  /** Row k is the last checkpoint with anchor hash a. */
  ghost predicate LastAnchor(rows: seq<Recorded>, k: int, a: string) {
    0 <= k < |rows| && Anchors(rows[k], a) && forall j :: k < j < |rows| ==> !Anchors(rows[j], a)
  }

  /** An intact chain whose first row has a predecessor that is gone is rejected for the missing anchor
      exactly if no checkpoint names the predecessor's hash, and for the number exactly if the last one
      that does names another number than the one before the first row. */
  lemma StartBreak(hash: RowHash, rows: seq<Recorded>)
    requires Chained(hash, rows) && rows != [] && rows[0].prevHash != ""
    ensures var out, anchor := Assess(hash, rows), rows[0].prevHash;
            && out.Reported? && out.report.eventsChecked == |rows|
            && (out.report.brk == Some(Break(rows[0].seqNo, "", anchor, NoAnchor))
                <==> forall k :: 0 <= k < |rows| ==> !Anchors(rows[k], anchor))
            && (out.report.brk == Some(Break(rows[0].seqNo, "", anchor, AnchorSeqMismatch))
                <==> exists k :: LastAnchor(rows, k, anchor) && AnchorSeq(rows[k]) != rows[0].seqNo - 1)
  {
    GoodLengthIs(hash, rows, |rows|);
    CheckpointIsLast(rows, rows[0].prevHash);
  }

  /** The checkpoint that stands for an anchor hash is the last row that carries it. */
  lemma {:induction false} CheckpointIsLast(rows: seq<Recorded>, a: string)
    ensures a !in Checkpoints(rows) ==> forall k :: 0 <= k < |rows| ==> !Anchors(rows[k], a)
    ensures a in Checkpoints(rows) ==>
              exists k :: LastAnchor(rows, k, a)
                          && Checkpoints(rows)[a] == CheckpointInfo(rows[k].seqNo, AnchorSeq(rows[k]))
  {
    if rows != [] {
      var front, last := rows[..|rows| - 1], |rows| - 1;
      CheckpointIsLast(front, a);
      if Anchors(rows[last], a) {
        assert LastAnchor(rows, last, a);
      } else if a in Checkpoints(front) {
        var k :| LastAnchor(front, k, a)
          && Checkpoints(front)[a] == CheckpointInfo(front[k].seqNo, AnchorSeq(front[k]));
        assert forall j :: k < j < last ==> front[j] == rows[j];
        assert LastAnchor(rows, k, a);
      } else {
        assert forall j :: 0 <= j < last ==> front[j] == rows[j];
      }
    }
  }

  /** Some checkpoint among the first n rows names the anchor. */
  predicate Names(rows: seq<Recorded>, n: nat, a: string)
    requires n <= |rows|
  {
    exists k :: 0 <= k < n && Anchors(rows[k], a)
  }

  lemma NamesIsKey(rows: seq<Recorded>, n: nat, a: string)
    requires n <= |rows|
    ensures a in Checkpoints(rows[..n]) <==> Names(rows, n, a)
  {
    CheckpointIsLast(rows[..n], a);
    if a in Checkpoints(rows[..n]) {
      var k :| LastAnchor(rows[..n], k, a);
      assert rows[..n][k] == rows[k];
    }
    if Names(rows, n, a) {
      var k :| 0 <= k < n && Anchors(rows[k], a);
      assert rows[..n][k] == rows[k];
    }
  }

  /** Whatever the verdict, the report counts the rows checked and the different anchors that their
      checkpoints name, and gives the first row's number. */
  lemma ReportCounts(hash: RowHash, rows: seq<Recorded>)
    requires Assess(hash, rows).Reported? && rows != []
    ensures var rep := Assess(hash, rows).report;
            && rep.eventsChecked <= |rows| && rep.firstSeq == rows[0].seqNo
            && (forall k :: 0 <= k < rep.eventsChecked ==> Sits(hash, rows, k))
            && forall anchors: set<string> ::
                 (forall a :: a in anchors <==> Names(rows, rep.eventsChecked, a)) ==>
                   rep.checkpointsPresent == |anchors|
  {
    var n := GoodLength(hash, rows);
    assert rows[..|rows|] == rows;
    KeyCount(Checkpoints(rows[..n]));
    forall anchors: set<string> | forall a :: a in anchors <==> Names(rows, n, a)
      ensures |Checkpoints(rows[..n])| == |anchors|
    {
      forall a
        ensures a in anchors <==> a in Checkpoints(rows[..n])
      {
        NamesIsKey(rows, n, a);
      }
      assert anchors == Checkpoints(rows[..n]).Keys;
    }
  }

  /** How many of the rows are checkpoints. */
  function CheckpointCount(rows: seq<Recorded>): nat {
    if rows == [] then 0
    else CheckpointCount(rows[..|rows| - 1]) + if IsCheckpoint(rows[|rows| - 1]) then 1 else 0
  }

  /** No two checkpoints name the same anchor. */
  ghost predicate DistinctAnchors(rows: seq<Recorded>) {
    forall i, j :: 0 <= i < j < |rows| && IsCheckpoint(rows[i]) && IsCheckpoint(rows[j]) ==>
      AnchorHash(rows[i]) != AnchorHash(rows[j])
  }

  /** What the report gives as the number of checkpoints is that exactly if no two of them name the
      same anchor, and otherwise too low. */
  lemma {:induction false} CheckpointsCountedExactly(rows: seq<Recorded>)
    ensures |Checkpoints(rows)| <= CheckpointCount(rows)
    ensures |Checkpoints(rows)| == CheckpointCount(rows) <==> DistinctAnchors(rows)
  {
    if rows != [] {
      var front, last := rows[..|rows| - 1], rows[|rows| - 1];
      CheckpointsCountedExactly(front);
      if IsCheckpoint(last) {
        CheckpointIsLast(front, AnchorHash(last));
        OneMoreAnchor(rows);
      }
      assert DistinctAnchors(rows) ==> DistinctAnchors(front);
    }
  }

  lemma OneMoreAnchor(rows: seq<Recorded>)
    requires rows != [] && IsCheckpoint(rows[|rows| - 1])
    ensures var front, a := rows[..|rows| - 1], AnchorHash(rows[|rows| - 1]);
            && |Checkpoints(rows)| == |Checkpoints(front)| + (if a in Checkpoints(front) then 0 else 1)
            && (DistinctAnchors(rows) <==> DistinctAnchors(front) && a !in Checkpoints(front))
  {
    var front, last := rows[..|rows| - 1], rows[|rows| - 1];
    var a, m := AnchorHash(last), Checkpoints(front);
    CheckpointIsLast(front, a);
    KeyCount(m);
    KeyCount(Checkpoints(rows));
    assert Checkpoints(rows).Keys == m.Keys + {a};
    if a in m {
      var k :| LastAnchor(front, k, a);
      assert rows[k] == front[k];
    } else if DistinctAnchors(front) {
      forall i, j | 0 <= i < j < |rows| && IsCheckpoint(rows[i]) && IsCheckpoint(rows[j])
        ensures AnchorHash(rows[i]) != AnchorHash(rows[j])
      {
        assert front[i] == rows[i];
        if j < |front| {
          assert front[j] == rows[j];
        } else {
          assert !Anchors(front[i], a);
        }
      }
    }
    if DistinctAnchors(rows) {
      assert forall i :: 0 <= i < |front| ==> front[i] == rows[i];
    }
  }

  lemma KeyCount<K, V>(m: map<K, V>)
    ensures |m| == |m.Keys|
  {}

  /** The last checkpoint that anchors the first row names the number before it. */
  ghost predicate Vouched(rows: seq<Recorded>)
    requires rows != []
  {
    exists k :: LastAnchor(rows, k, rows[0].prevHash) && AnchorSeq(rows[k]) == rows[0].seqNo - 1
  }

  /** A log is accepted exactly when its chain is intact and it is empty, starts at genesis,
      or the last checkpoint anchoring the first row names its predecessor's number. */
  lemma AcceptedExactly(hash: RowHash, rows: seq<Recorded>)
    ensures Accepted(hash, rows) <==>
              Chained(hash, rows) && (rows == [] || rows[0].prevHash == "" || Vouched(rows))
  {
    if Chained(hash, rows) {
      GoodLengthIs(hash, rows, |rows|);
      if rows != [] {
        CheckpointIsLast(rows, rows[0].prevHash);
      }
    } else {
      assert GoodLength(hash, rows) < |rows|;
    }
  }
}
