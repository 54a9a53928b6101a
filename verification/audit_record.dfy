/** Audit rows, the text their timestamps are stored and compared as, and the preimage of
    the chain hash. */
module AuditRecord {
  import opened Text

  // -------------------------------------------------------------- timestamps

  /** A UTC instant: whole seconds and the fraction's decimal digits with the trailing
      zeros trimmed, which is what RFC 3339 text with nanoseconds carries. */
  datatype Instant = Instant(sec: int, frac: seq<nat>)

  predicate Digits(frac: seq<nat>) {
    |frac| <= 9 && forall i :: 0 <= i < |frac| ==> frac[i] < 10
  }

  predicate Trimmed(frac: seq<nat>) {
    frac == [] || frac[|frac| - 1] != 0
  }

  type Timestamp = t: Instant | Digits(t.frac) && Trimmed(t.frac) witness Instant(0, [])

  function Pow10(n: nat): (p: nat)
    ensures p > 0
  {
    if n == 0 then 1 else 10 * Pow10(n - 1)
  }

  /** The fraction as a number of units of the w-th decimal place (nanoseconds for 9). */
  function Units(frac: seq<nat>, w: nat): nat
    requires |frac| <= w
  {
    if frac == [] then 0 else frac[0] * Pow10(w - 1) + Units(frac[1..], w - 1)
  }

  /** Chronological order. */
  predicate Earlier(a: Timestamp, b: Timestamp) {
    a.sec < b.sec || (a.sec == b.sec && Units(a.frac, 9) < Units(b.frac, 9))
  }

  function DigitText(frac: seq<nat>): (s: string)
    requires Digits(frac)
    ensures |s| == |frac| + 1
  {
    if frac == [] then "Z" else [Digit(frac[0])] + DigitText(frac[1..])
  }

  /** What follows the seconds field in the stored text. */
  function FractionText(frac: seq<nat>): string
    requires Digits(frac)
  {
    if frac == [] then "Z" else "." + DigitText(frac)
  }

  /** The order of the stored texts. The part up to the seconds is of fixed width, so the
      comparison falls to the seconds first and to the fraction's text at equal seconds. */
  predicate TextBefore(a: Timestamp, b: Timestamp) {
    a.sec < b.sec || (a.sec == b.sec && Less(FractionText(a.frac), FractionText(b.frac)))
  }

  lemma {:induction false} Scale(d: nat, e: nat, p: nat)
    requires d < e
    ensures d * p + p <= e * p
    decreases e
  {
    assert e * p == (e - 1) * p + p;
    if d < e - 1 {
      Scale(d, e - 1, p);
    }
  }

  lemma {:induction false} UnitsBelow(frac: seq<nat>, w: nat)
    requires Digits(frac) && |frac| <= w
    ensures Units(frac, w) < Pow10(w)
  {
    if frac != [] {
      UnitsBelow(frac[1..], w - 1);
      Scale(frac[0], 10, Pow10(w - 1));
    }
  }

  lemma {:induction false} UnitsPositive(frac: seq<nat>, w: nat)
    requires Digits(frac) && Trimmed(frac) && frac != [] && |frac| <= w
    ensures Units(frac, w) > 0
  {
    if frac[0] == 0 {
      assert frac[1..] != [] && frac[1..][|frac| - 2] == frac[|frac| - 1];
      UnitsPositive(frac[1..], w - 1);
    } else {
      Scale(0, frac[0], Pow10(w - 1));
    }
  }

  /** Units of a non-empty fraction: the first digit's and the rest's, which stay below one
      unit of the first place. */
  lemma UnitsSplit(frac: seq<nat>, w: nat)
    requires Digits(frac) && frac != [] && |frac| <= w
    ensures Units(frac, w) == frac[0] * Pow10(w - 1) + Units(frac[1..], w - 1)
    ensures Units(frac[1..], w - 1) < Pow10(w - 1)
  {
    UnitsBelow(frac[1..], w - 1);
  }

  lemma FirstDigitDecides(f: seq<nat>, g: seq<nat>, w: nat)
    requires Digits(f) && Digits(g) && f != [] && g != [] && |f| <= w && |g| <= w
    requires f[0] < g[0]
    ensures Units(f, w) < Units(g, w)
    ensures Less(DigitText(f), DigitText(g)) && !Less(DigitText(g), DigitText(f))
  {
    UnitsSplit(f, w);
    UnitsSplit(g, w);
    Scale(f[0], g[0], Pow10(w - 1));
  }

  /** How two digit texts compare. */
  predicate DigitsCompare(f: seq<nat>, g: seq<nat>, w: nat)
    requires Digits(f) && Digits(g) && |f| <= w && |g| <= w
  {
    && Less(DigitText(f), DigitText(g)) == (if f < g || g < f then g < f else Units(f, w) < Units(g, w))
    && (f < g ==> Units(f, w) < Units(g, w))
  }

  lemma SameFirstDigit(f: seq<nat>, g: seq<nat>, w: nat)
    requires Digits(f) && Digits(g) && |f| <= w && |g| <= w
    requires f != [] && g != [] && f[0] == g[0] && DigitsCompare(f[1..], g[1..], w - 1)
    ensures DigitsCompare(f, g, w)
  {
    assert DigitText(f)[1..] == DigitText(f[1..]);
    assert DigitText(g)[1..] == DigitText(g[1..]);
    UnitsSplit(f, w);
    UnitsSplit(g, w);
    assert f < g <==> f[1..] < g[1..];
    assert g < f <==> g[1..] < f[1..];
  }

  lemma NoDigits(f: seq<nat>, g: seq<nat>, w: nat)
    requires Digits(f) && Digits(g) && Trimmed(f) && Trimmed(g) && |f| <= w && |g| <= w
    requires f == [] || g == []
    ensures DigitsCompare(f, g, w)
  {
    if f == [] && g != [] {
      UnitsPositive(g, w);
    }
  }

  /** Digit texts compare by the first differing digit, and a proper prefix sorts after
      what extends it, because the closing letter sorts after every digit. */
  lemma {:induction false} DigitTextOrder(f: seq<nat>, g: seq<nat>, w: nat)
    requires Digits(f) && Digits(g) && Trimmed(f) && Trimmed(g)
    requires |f| <= w && |g| <= w
    ensures DigitsCompare(f, g, w)
  {
    if f == [] || g == [] {
      NoDigits(f, g, w);
    } else if f[0] < g[0] {
      FirstDigitDecides(f, g, w);
    } else if g[0] < f[0] {
      FirstDigitDecides(g, f, w);
    } else {
      DigitTextOrder(f[1..], g[1..], w - 1);
      SameFirstDigit(f, g, w);
    }
  }

  /** The stored texts sort chronologically except exactly when the two instants share
      their second and the trimmed digits of one are a proper prefix of the other's. Then
      the shorter text, although earlier, sorts last. */
  lemma TextOrderExact(a: Timestamp, b: Timestamp)
    ensures TextBefore(a, b)
            == if a.sec == b.sec && (a.frac < b.frac || b.frac < a.frac) then b.frac < a.frac
               else Earlier(a, b)
    ensures a.sec == b.sec && a.frac < b.frac ==> Earlier(a, b)
  {
    DigitTextOrder(a.frac, b.frac, 9);
    if a.frac != [] && b.frac != [] {
      assert FractionText(a.frac)[1..] == DigitText(a.frac);
      assert FractionText(b.frac)[1..] == DigitText(b.frac);
    }
  }

  // --------------------------------------------------------------------- rows

  datatype Json = Str(s: string) | Num(n: int) | Bool(b: bool)

  type Details = map<string, Json>

  datatype Event = Event(
    timestamp: Timestamp,
    kind: string,
    actor: string,
    messageId: string,
    recipient: string,
    details: Details)

  datatype Recorded = Recorded(event: Event, id: string, seqNo: int, prevHash: string)

  const RETENTION_CHECKPOINT := "retention_checkpoint"
  const ANCHOR_SEQ := "anchor_seq"
  const ANCHOR_HASH := "anchor_hash"
  const TRUNCATED_COUNT := "truncated_count"
  const CUTOFF := "cutoff"
  const HELD_CLAMPED := "held_clamped"

  predicate IsCheckpoint(r: Recorded) {
    r.event.kind == RETENTION_CHECKPOINT
  }

  function DetailString(d: Details, key: string): string {
    if key in d && d[key].Str? then d[key].s else ""
  }

  function DetailInt(d: Details, key: string): int {
    if key in d && d[key].Num? then d[key].n else -1
  }

  function AnchorHash(r: Recorded): string {
    DetailString(r.event.details, ANCHOR_HASH)
  }

  function AnchorSeq(r: Recorded): int {
    DetailInt(r.event.details, ANCHOR_SEQ)
  }

  // -------------------------------------------------------------------- hash

  /** The functions the hash is built from: the digest as hexadecimal text, the JSON text
      of a non-empty details object (it can fail), and the date and time of day of a
      second. Nothing is assumed of them beyond Sound. In particular the digest is not
      assumed to be injective. */
  datatype Hashing = Hashing(
    sha: string -> string,
    json: Details -> Option<string>,
    date: int -> string)

  /** Digests are not empty, and neither digests nor dates contain the separator. */
  ghost predicate Sound(h: Hashing) {
    && (forall m :: h.sha(m) != "" && Free(h.sha(m), '|'))
    && (forall t :: Free(h.date(t), '|'))
  }

  function DetailsText(h: Hashing, d: Details): Option<string> {
    if |d| == 0 then Some("{}") else h.json(d)
  }

  function Stamp(h: Hashing, t: Timestamp): string {
    h.date(t.sec) + FractionText(t.frac)
  }

  function Fields(h: Hashing, r: Recorded, details: string): (f: seq<string>)
    ensures |f| == 9
  {
    [r.prevHash, r.id, DecimalInt(r.seqNo), Stamp(h, r.event.timestamp), r.event.kind,
     r.event.actor, r.event.messageId, r.event.recipient, details]
  }

  /** The text HashRecord digests, or None when the details cannot be serialized. */
  function Preimage(h: Hashing, r: Recorded): Option<string> {
    match DetailsText(h, r.event.details)
    case None => None
    case Some(d) => Some(Join(Fields(h, r, d), '|'))
  }

  /** The digested text, field by field: predecessor hash, id, number, time, type, actor, message,
      recipient and details, `{}` for none. */
  lemma PreimageReads(h: Hashing, r: Recorded, details: string)
    requires if |r.event.details| == 0 then details == "{}" else h.json(r.event.details) == Some(details)
    ensures var e := r.event;
            var body := e.kind + "|" + (e.actor + "|" + (e.messageId + "|" + (e.recipient + "|" + details)));
            var head := DecimalInt(r.seqNo) + "|" + (Stamp(h, e.timestamp) + "|" + body);
            Preimage(h, r) == Some(r.prevHash + "|" + (r.id + "|" + head))
  {
    var f := Fields(h, r, details);
    JoinFirst(f, '|');
    JoinFirst(f[1..], '|');
    JoinFirst(f[2..], '|');
    JoinFirst(f[3..], '|');
    JoinFirst(f[4..], '|');
    JoinFirst(f[5..], '|');
    JoinFirst(f[6..], '|');
    JoinFirst(f[7..], '|');
  }

  function HashRecord(h: Hashing, r: Recorded): Option<string> {
    match Preimage(h, r)
    case None => None
    case Some(m) => Some(h.sha(m))
  }

  /** Two different texts with one digest. */
  predicate Collision(h: Hashing, x: string, y: string) {
    x != y && h.sha(x) == h.sha(y)
  }

  predicate SamePreimage(h: Hashing, a: Recorded, b: Recorded) {
    Preimage(h, a).Some? && Preimage(h, a) == Preimage(h, b)
  }

  /** Rows a and b have different preimages and yet the same digest. */
  predicate Colliding(h: Hashing, a: Recorded, b: Recorded) {
    && Preimage(h, a).Some?
    && Preimage(h, b).Some?
    && Collision(h, Preimage(h, a).value, Preimage(h, b).value)
  }

  /** The first five fields are free of the separator: true of every row the store wrote,
      since hashes, identifiers and timestamps are drawn from fixed alphabets and the event
      types are a fixed set. */
  predicate BarFreeHead(r: Recorded) {
    Free(r.prevHash, '|') && Free(r.id, '|') && Free(r.event.kind, '|')
  }

  predicate BarFreeBody(r: Recorded) {
    Free(r.event.actor, '|') && Free(r.event.messageId, '|') && Free(r.event.recipient, '|')
  }

  lemma {:induction false} DigitTextFree(frac: seq<nat>)
    requires Digits(frac)
    ensures Free(DigitText(frac), '|')
  {
    if frac != [] {
      DigitTextFree(frac[1..]);
    }
  }

  lemma StampFree(h: Hashing, t: Timestamp)
    requires Sound(h)
    ensures Free(Stamp(h, t), '|')
  {
    DigitTextFree(t.frac);
  }

  /** Equal preimages determine the stored predecessor hash as soon as that field is free of
      the separator in both rows. */
  lemma PreimageDeterminesPrevHash(h: Hashing, a: Recorded, b: Recorded)
    requires SamePreimage(h, a, b)
    requires Free(a.prevHash, '|') && Free(b.prevHash, '|')
    ensures a.prevHash == b.prevHash
  {
    var f := Fields(h, a, DetailsText(h, a.event.details).value);
    var g := Fields(h, b, DetailsText(h, b.event.details).value);
    JoinDetermines(f, g, 1, '|');
    assert f[..1][0] == f[0] && g[..1][0] == g[0];
  }

  /** Equal preimages of rows with bar-free heads agree on predecessor hash, identifier,
      sequence number, timestamp text and type, and on the unsplit rest. If actor, message
      and recipient are free of the separator too, they agree on every field. */
  lemma PreimageDetermines(h: Hashing, a: Recorded, b: Recorded)
    requires Sound(h)
    requires SamePreimage(h, a, b)
    requires BarFreeHead(a) && BarFreeHead(b)
    ensures a.prevHash == b.prevHash && a.id == b.id && a.seqNo == b.seqNo
    ensures Stamp(h, a.event.timestamp) == Stamp(h, b.event.timestamp)
    ensures a.event.kind == b.event.kind
    ensures BarFreeBody(a) && BarFreeBody(b) ==>
              && a.event.actor == b.event.actor
              && a.event.messageId == b.event.messageId
              && a.event.recipient == b.event.recipient
              && DetailsText(h, a.event.details) == DetailsText(h, b.event.details)
  {
    var f := Fields(h, a, DetailsText(h, a.event.details).value);
    var g := Fields(h, b, DetailsText(h, b.event.details).value);
    StampFree(h, a.event.timestamp);
    StampFree(h, b.event.timestamp);
    JoinDetermines(f, g, 5, '|');
    assert forall i :: 0 <= i < 5 ==> f[i] == f[..5][i] && g[i] == g[..5][i];
    assert f[1] == g[1] && f[2] == g[2] && f[3] == g[3] && f[4] == g[4];
    DecimalIntInjective(a.seqNo, b.seqNo);
    if BarFreeBody(a) && BarFreeBody(b) {
      JoinDetermines(f, g, 8, '|');
      assert forall i :: 0 <= i < 8 ==> f[i] == f[..8][i] && g[i] == g[..8][i];
      assert f[5] == g[5] && f[6] == g[6] && f[7] == g[7];
      assert f[8..] == [f[8]] && g[8..] == [g[8]];
    }
  }

  /** The row with another actor, message and recipient. */
  function Rebodied(r: Recorded, actor: string, messageId: string, recipient: string): Recorded {
    r.(event := r.event.(actor := actor, messageId := messageId, recipient := recipient))
  }

  /** The three fields as they stand in the preimage. */
  function BodyText(actor: string, messageId: string, recipient: string): string {
    actor + "|" + messageId + "|" + recipient
  }

  lemma PreimageAround(h: Hashing, r: Recorded)
    requires Preimage(h, r).Some?
    ensures var d := DetailsText(h, r.event.details).value;
            Preimage(h, r).value
            == Join(Fields(h, r, d)[..5], '|') + "|"
               + (BodyText(r.event.actor, r.event.messageId, r.event.recipient) + ("|" + d))
  {
    var d := DetailsText(h, r.event.details).value;
    var f := Fields(h, r, d);
    JoinAt(f, 5, '|');
    var t := f[5..];
    assert t == [f[5], f[6], f[7], d];
    assert t[1..] == [f[6], f[7], d] && t[1..][1..] == [f[7], d] && t[1..][1..][1..] == [d];
    assert Join([d], '|') == d;
    assert Join([f[7], d], '|') == f[7] + "|" + d;
    assert Join([f[6], f[7], d], '|') == f[6] + "|" + (f[7] + "|" + d);
    assert Join(t, '|') == f[5] + "|" + (f[6] + "|" + (f[7] + "|" + d));
    assert Join(t, '|') == BodyText(f[5], f[6], f[7]) + ("|" + d);
  }

  /** Rows that differ in actor, message and recipient only have the same preimage exactly if
      these read the same when joined. */
  lemma PreimageByBody(h: Hashing, r: Recorded, x: string, y: string, z: string)
    requires Preimage(h, r).Some?
    ensures SamePreimage(h, r, Rebodied(r, x, y, z)) <==>
            BodyText(r.event.actor, r.event.messageId, r.event.recipient) == BodyText(x, y, z)
  {
    var b := Rebodied(r, x, y, z);
    var d := DetailsText(h, r.event.details).value;
    PreimageAround(h, r);
    PreimageAround(h, b);
    assert Fields(h, r, d)[..5] == Fields(h, b, d)[..5];
    var head, tail := Join(Fields(h, r, d)[..5], '|') + "|", "|" + d;
    SameMiddle(head, BodyText(r.event.actor, r.event.messageId, r.event.recipient), BodyText(x, y, z), tail);
  }

  lemma SameMiddle(head: string, s: string, t: string, tail: string)
    ensures head + (s + tail) == head + (t + tail) <==> s == t
  {
    var a, b := head + (s + tail), head + (t + tail);
    if a == b {
      assert s == a[|head|..][..|s|] && t == b[|head|..][..|t|];
    }
  }

  /** Three bar-free fields are the only ones that read as they do. */
  lemma BodyDetermined(a: string, m: string, r: string, x: string, y: string, z: string)
    requires Free(a, '|') && Free(m, '|') && Free(r, '|') && BodyText(a, m, r) == BodyText(x, y, z)
    ensures a == x && m == y && r == z
  {
    SplitBody(a, m, r);
    SplitBody(x, y, z);
    SplitOne(a, '|');
    SplitOne(m, '|');
    SplitOne(r, '|');
    SplitOne(x, '|');
    SplitOne(y, '|');
    SplitOne(z, '|');
    assert [a] + [m] + [r] == [a, m, r];
    assert |Split(x, '|')| == |Split(y, '|')| == |Split(z, '|')| == 1;
    assert [x] + [y] + [z] == [x, y, z];
    assert [a, m, r][0] == x && [a, m, r][1] == y && [a, m, r][2] == z;
  }

  lemma SplitBody(x: string, y: string, z: string)
    ensures Split(BodyText(x, y, z), '|') == Split(x, '|') + Split(y, '|') + Split(z, '|')
  {
    SplitConcat(x + "|" + y, z, '|');
    SplitConcat(x, y, '|');
  }

  /** The framing is ambiguous for a row, so that another row with the same head and details
      has its preimage, exactly when its actor, message or recipient contains the separator. */
  lemma FramingExactly(h: Hashing, r: Recorded)
    requires Preimage(h, r).Some?
    ensures (exists x, y, z :: Rebodied(r, x, y, z) != r && SamePreimage(h, r, Rebodied(r, x, y, z)))
            <==> !BarFreeBody(r)
  {
    var a, m, t := r.event.actor, r.event.messageId, r.event.recipient;
    if BarFreeBody(r) {
      forall x, y, z | SamePreimage(h, r, Rebodied(r, x, y, z))
        ensures Rebodied(r, x, y, z) == r
      {
        PreimageByBody(h, r, x, y, z);
        BodyDetermined(a, m, t, x, y, z);
      }
    } else {
      var x, y, z := OtherBody(a, m, t);
      PreimageByBody(h, r, x, y, z);
      assert Rebodied(r, x, y, z) != r;
    }
  }

  /** A separator within a field can be taken for one between fields. */
  lemma OtherBody(a: string, m: string, r: string) returns (x: string, y: string, z: string)
    requires !(Free(a, '|') && Free(m, '|') && Free(r, '|'))
    ensures BodyText(x, y, z) == BodyText(a, m, r) && !(x == a && y == m && z == r)
  {
    if i :| 0 <= i < |a| && a[i] == '|' {
      x, y, z := a[..i], a[i + 1..], m + "|" + r;
      assert a == x + "|" + y;
    } else if i :| 0 <= i < |m| && m[i] == '|' {
      x, y, z := a + "|" + m[..i], m[i + 1..], r;
      assert m == m[..i] + "|" + y;
    } else {
      var i :| 0 <= i < |r| && r[i] == '|';
      x, y, z := a + "|" + m, r[..i], r[i + 1..];
      assert r == y + "|" + z;
    }
  }

  /** Moving a separator from the actor into the message identifier changes the row and keeps
      its preimage. */
  lemma FramingAmbiguity(h: Hashing, r: Recorded)
    requires Preimage(h, r).Some?
    ensures var a := r.(event := r.event.(actor := "x|y", messageId := "z"));
            var b := r.(event := r.event.(actor := "x", messageId := "y|z"));
            a != b && SamePreimage(h, a, b)
  {
    var t := r.event.recipient;
    var a := r.(event := r.event.(actor := "x|y", messageId := "z"));
    assert a == Rebodied(r, "x|y", "z", t);
    PreimageByBody(h, a, "x", "y|z", t);
    assert BodyText("x|y", "z", t) == BodyText("x", "y|z", t);
  }
}
