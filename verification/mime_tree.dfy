/** MIME messages as trees of parts, what a walk visits in them, and how large they are. */
module MimeTree {
  import opened Text

  /** What a leaf's headers say and what its content looks like, as far as later decisions use
      it. */
  datatype LeafInfo =
    LeafInfo(mediaType: string, detectedType: string, filename: string, inline: bool, contentID: string)

  /** A part of a message. headers counts its header fields. A leaf's content arrives in reads
      of the given sizes; broken content ends in a read error. */
  datatype Part =
    | Leaf(headers: nat, info: LeafInfo, chunks: seq<nat>, broken: bool)
    | Multi(headers: nat, mediaType: string, boundary: bool, parts: Parts)
    | Nested(headers: nat, readable: bool, inner: Part)

  /** The child parts of a multipart as its reader yields them, up to the end or an error. */
  datatype Parts =
    | End(broken: bool)
    | More(head: Part, rest: Parts)

  datatype Attachment = Attachment(path: string, info: LeafInfo, inlineAsset: bool, size: nat)

  const RELATED := "multipart/related"

  function NormalizeContentID(raw: string): string {
    TrimSpace(Unbracketed(TrimSpace(raw)))
  }

  function Unbracketed(s: string): string {
    var t := if s != [] && s[0] == '<' then s[1..] else s;
    if t != [] && t[|t| - 1] == '>' then t[..|t| - 1] else t
  }

  /** A Content-ID is read without the angle brackets and the blanks around them. */
  lemma ContentIDRead(l: string, id: string, r: string)
    requires (forall i :: 0 <= i < |l| ==> l[i] in " \t\r\n") && forall i :: 0 <= i < |r| ==> r[i] in " \t\r\n"
    requires id != "" ==> id[0] !in SPACE && id[|id| - 1] !in SPACE
    ensures NormalizeContentID(l + ("<" + id + ">") + r) == id
    ensures (id != "" ==> id[0] != '<' && id[|id| - 1] != '>') ==> NormalizeContentID(l + id + r) == id
  {
    BracketsRead(id);
    TrimSpacePadded(l, "<" + id + ">", r);
    TrimSpacePadded(l, id, r);
    TrimSpacePadded("", id, "");
    assert "" + id + "" == id;
  }

  lemma BracketsRead(id: string)
    ensures Unbracketed("<" + id + ">") == id
    ensures (id != "" ==> id[0] != '<' && id[|id| - 1] != '>') ==> Unbracketed(id) == id
  {
    var bracketed := "<" + id + ">";
    assert bracketed[1..] == id + ">" && (id + ">")[..|id|] == id;
  }

  function ChildPath(path: string, i: nat): string {
    path + "." + Decimal(i)
  }

  // ----------------------------------------------------------------- contents

  function Sum(chunks: seq<nat>, k: nat): nat
    requires k <= |chunks|
  {
    if k == 0 then 0 else Sum(chunks, k - 1) + chunks[k - 1]
  }

  function Size(chunks: seq<nat>): nat {
    Sum(chunks, |chunks|)
  }

  lemma {:induction false} SumGrows(chunks: seq<nat>, j: nat, k: nat)
    requires j <= k <= |chunks|
    ensures Sum(chunks, j) <= Sum(chunks, k)
  {
    if j < k {
      SumGrows(chunks, j, k - 1);
    }
  }

  /** The leaf at the given path: an inline asset if it has a Content-ID and stands directly in
      a multipart/related. */
  function Described(leaf: Part, path: string, parent: string): Attachment
    requires leaf.Leaf?
  {
    var id := NormalizeContentID(leaf.info.contentID);
    Attachment(path, leaf.info.(contentID := id), id != "" && parent == RELATED, Size(leaf.chunks))
  }

  /** All leaves in document order. */
  function Leaves(t: Part, path: string, parent: string): seq<Attachment>
    decreases t
  {
    match t
    case Leaf(_, _, _, _) => [Described(t, path, parent)]
    case Multi(_, mediaType, _, parts) => PartsLeaves(parts, path, 1, mediaType)
    case Nested(_, _, inner) => Leaves(inner, path, "")
  }

  function PartsLeaves(ps: Parts, path: string, i: nat, parent: string): seq<Attachment>
    decreases ps
  {
    match ps
    case End(_) => []
    case More(head, rest) => Leaves(head, ChildPath(path, i), parent) + PartsLeaves(rest, path, i + 1, parent)
  }

  // ------------------------------------------------------------------ measures

  function Max(a: nat, b: nat): nat {
    if a < b then b else a
  }

  /** How many parts there are, containers included. */
  function Nodes(t: Part): (n: nat)
    ensures n > 0
    decreases t
  {
    match t
    case Leaf(_, _, _, _) => 1
    case Multi(_, _, _, parts) => 1 + PartsNodes(parts)
    case Nested(_, _, inner) => 1 + Nodes(inner)
  }

  function PartsNodes(ps: Parts): nat
    decreases ps
  {
    if ps.End? then 0 else Nodes(ps.head) + PartsNodes(ps.rest)
  }

  /** How many bytes its leaves hold. */
  function Bytes(t: Part): nat
    decreases t
  {
    match t
    case Leaf(_, _, chunks, _) => Size(chunks)
    case Multi(_, _, _, parts) => PartsBytes(parts)
    case Nested(_, _, inner) => Bytes(inner)
  }

  function PartsBytes(ps: Parts): nat
    decreases ps
  {
    if ps.End? then 0 else Bytes(ps.head) + PartsBytes(ps.rest)
  }

  /** How many containers enclose the deepest part. */
  function Height(t: Part): nat
    decreases t
  {
    match t
    case Leaf(_, _, _, _) => 0
    case Multi(_, _, _, parts) => 1 + PartsHeight(parts)
    case Nested(_, _, inner) => 1 + Height(inner)
  }

  function PartsHeight(ps: Parts): nat
    decreases ps
  {
    if ps.End? then 0 else Max(Height(ps.head), PartsHeight(ps.rest))
  }

  /** The largest leaf. */
  function Largest(t: Part): nat
    decreases t
  {
    match t
    case Leaf(_, _, chunks, _) => Size(chunks)
    case Multi(_, _, _, parts) => PartsLargest(parts)
    case Nested(_, _, inner) => Largest(inner)
  }

  function PartsLargest(ps: Parts): nat
    decreases ps
  {
    if ps.End? then 0 else Max(Largest(ps.head), PartsLargest(ps.rest))
  }

  /** The longest header below t's own. */
  function Longest(t: Part): nat
    decreases t
  {
    match t
    case Leaf(_, _, _, _) => 0
    case Multi(_, _, _, parts) => PartsLongest(parts)
    case Nested(_, _, inner) => Max(inner.headers, Longest(inner))
  }

  function PartsLongest(ps: Parts): nat
    decreases ps
  {
    if ps.End? then 0 else Max(Max(ps.head.headers, Longest(ps.head)), PartsLongest(ps.rest))
  }

  /** Every multipart names its boundary, and everything can be read. */
  predicate Readable(t: Part)
    decreases t
  {
    match t
    case Leaf(_, _, _, broken) => !broken
    case Multi(_, _, boundary, parts) => boundary && PartsReadable(parts)
    case Nested(_, readable, inner) => readable && Readable(inner)
  }

  predicate PartsReadable(ps: Parts)
    decreases ps
  {
    if ps.End? then !ps.broken else Readable(ps.head) && PartsReadable(ps.rest)
  }
}
