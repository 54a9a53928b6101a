/** The bounded walk over a message's parts. */
module MimeWalk {
  import opened MimeTree
  import opened MimeOccurrence

  datatype Limits = Limits(depth: int, parts: int, headers: int, partSize: int, totalSize: int)

  const DEFAULT_LIMITS := Limits(10, 1000, 256, 536870912, 1073741824)

  /** Limits that are not set fall back to the defaults. */
  function Effective(l: Limits): (r: Limits)
    ensures Usable(r)
    ensures if l.depth > 0 then r.depth == l.depth else r.depth == 10
    ensures if l.parts > 0 then r.parts == l.parts else r.parts == 1000
    ensures if l.headers > 0 then r.headers == l.headers else r.headers == 256
    ensures if l.partSize > 0 then r.partSize == l.partSize else r.partSize == 512 * 1024 * 1024
    ensures if l.totalSize > 0 then r.totalSize == l.totalSize else r.totalSize == 1024 * 1024 * 1024
  {
    Limits(if l.depth <= 0 then DEFAULT_LIMITS.depth else l.depth,
           if l.parts <= 0 then DEFAULT_LIMITS.parts else l.parts,
           if l.headers <= 0 then DEFAULT_LIMITS.headers else l.headers,
           if l.partSize <= 0 then DEFAULT_LIMITS.partSize else l.partSize,
           if l.totalSize <= 0 then DEFAULT_LIMITS.totalSize else l.totalSize)
  }

  predicate Usable(l: Limits) {
    l.depth > 0 && l.parts > 0 && l.headers > 0 && l.partSize > 0 && l.totalSize > 0
  }

  datatype Limit = LimitDepth | LimitParts | LimitHeaders | LimitPartSize | LimitTotalSize

  datatype Result =
    | Fine
    | Exceeded(limit: Limit)
    | Unreadable
    | Refused

  /** What a caller does with a leaf: how many reads of its content it takes, and whether it
      then accepts the part. */
  datatype Callback = Callback(appetite: Attachment -> nat, accepts: Attachment -> bool)

  predicate AllAccepted(fn: Callback, atts: seq<Attachment>) {
    forall i :: 0 <= i < |atts| ==> fn.accepts(atts[i])
  }

  /** What walking a tree, or the rest of a multipart, asks for. */
  datatype Demand = Demand(readable: bool, height: nat, longest: nat, largest: nat, nodes: nat, bytes: nat,
                           leaves: seq<Attachment>)

  function DemandOf(t: Part, path: string, parent: string): Demand {
    Demand(Readable(t), Height(t), Longest(t), Largest(t), Nodes(t), Bytes(t), Leaves(t, path, parent))
  }

  function PartsDemand(ps: Parts, path: string, i: nat, parent: string): Demand {
    Demand(PartsReadable(ps), PartsHeight(ps), PartsLongest(ps), PartsLargest(ps), PartsNodes(ps), PartsBytes(ps),
           PartsLeaves(ps, path, i, parent))
  }

  /** Whether a result is true of a demand made with seen parts and total bytes already spent:
      success needs everything to fit, and a failure names something that does not. */
  predicate Truthful(r: Result, l: Limits, fn: Callback, d: Demand, depth: nat, seen: nat, total: nat) {
    match r
    case Fine =>
      && d.readable && depth + d.height <= l.depth && d.longest <= l.headers && d.largest <= l.partSize
      && seen + d.nodes <= l.parts && total + d.bytes <= l.totalSize && AllAccepted(fn, d.leaves)
    case Exceeded(LimitDepth) => depth + d.height > l.depth
    case Exceeded(LimitParts) => seen + d.nodes > l.parts
    case Exceeded(LimitHeaders) => d.longest > l.headers
    case Exceeded(LimitPartSize) => d.largest > l.partSize
    case Exceeded(LimitTotalSize) => total + d.bytes > l.totalSize
    case Unreadable => !d.readable
    case Refused => !AllAccepted(fn, d.leaves)
  }

  /** The walk's counters and the leaves its callback took. */
  datatype Progress = Progress(seen: nat, total: nat, visited: seq<Attachment>)

  /** How far a walk got: to the end on success, otherwise to some point before it. */
  predicate Advanced(r: Result, d: Demand, before: Progress, after: Progress) {
    if r == Fine then
      after == Progress(before.seen + d.nodes, before.total + d.bytes, before.visited + d.leaves)
    else
      && after.seen <= before.seen + d.nodes && after.total <= before.total + d.bytes
      && before.visited <= after.visited <= before.visited + d.leaves
  }

  /** A part's demand without the part itself. */
  function Below(d: Demand): Demand
    requires d.nodes > 0
  {
    d.(nodes := d.nodes - 1)
  }

  /** Having come from before to now, what is left to walk of the whole is rest. */
  predicate Reduced(l: Limits, fn: Callback, whole: Demand, rest: Demand, depth: nat, before: Progress, now: Progress) {
    && (whole.readable <==> rest.readable)
    && (depth + whole.height <= l.depth <==> depth + rest.height <= l.depth)
    && (whole.longest <= l.headers <==> rest.longest <= l.headers)
    && (whole.largest <= l.partSize <==> rest.largest <= l.partSize)
    && before.seen + whole.nodes == now.seen + rest.nodes
    && before.total + whole.bytes == now.total + rest.bytes
    && (AllAccepted(fn, whole.leaves) <==> AllAccepted(fn, rest.leaves))
    && before.visited <= now.visited && before.visited + whole.leaves == now.visited + rest.leaves
  }

  /** What is true of the rest is true of the whole. */
  lemma ReducedEnd(r: Result, l: Limits, fn: Callback, whole: Demand, rest: Demand, depth: nat,
                   before: Progress, now: Progress, end: Progress)
    requires Reduced(l, fn, whole, rest, depth, before, now)
    requires Truthful(r, l, fn, rest, depth, now.seen, now.total) && Advanced(r, rest, now, end)
    ensures Truthful(r, l, fn, whole, depth, before.seen, before.total) && Advanced(r, whole, before, end)
  {}

  lemma ReducedTwice(l: Limits, fn: Callback, whole: Demand, mid: Demand, rest: Demand, depth: nat,
                     before: Progress, between: Progress, now: Progress)
    requires Reduced(l, fn, whole, mid, depth, before, between) && Reduced(l, fn, mid, rest, depth, between, now)
    ensures Reduced(l, fn, whole, rest, depth, before, now)
  {}

  lemma AcceptedConcat(fn: Callback, a: seq<Attachment>, b: seq<Attachment>)
    ensures AllAccepted(fn, a + b) <==> AllAccepted(fn, a) && AllAccepted(fn, b)
  {
    if AllAccepted(fn, a + b) {
      assert forall i :: 0 <= i < |a| ==> a[i] == (a + b)[i];
      assert forall i :: 0 <= i < |b| ==> b[i] == (a + b)[|a| + i];
    }
  }

  /** A child that fits leaves the rest of its siblings to do. */
  lemma ChildFits(l: Limits, fn: Callback, ps: Parts, path: string, i: nat, parent: string, depth: nat,
                  before: Progress, now: Progress)
    requires ps.More? && ps.head.headers <= l.headers && depth <= l.depth
    requires var d := DemandOf(ps.head, ChildPath(path, i), parent);
             Truthful(Fine, l, fn, d, depth, before.seen, before.total) && Advanced(Fine, d, before, now)
    ensures Reduced(l, fn, PartsDemand(ps, path, i, parent), PartsDemand(ps.rest, path, i + 1, parent),
                    depth, before, now)
  {
    var a, b := Leaves(ps.head, ChildPath(path, i), parent), PartsLeaves(ps.rest, path, i + 1, parent);
    AcceptedConcat(fn, a, b);
    assert before.visited + (a + b) == before.visited + a + b;
  }

  /** A child that fails makes its multipart fail in the same way. */
  lemma ChildFails(r: Result, l: Limits, fn: Callback, ps: Parts, path: string, i: nat, parent: string, depth: nat,
                   before: Progress, now: Progress)
    requires ps.More? && r != Fine
    requires var d := DemandOf(ps.head, ChildPath(path, i), parent);
             Truthful(r, l, fn, d, depth, before.seen, before.total) && Advanced(r, d, before, now)
    ensures var d := PartsDemand(ps, path, i, parent);
            Truthful(r, l, fn, d, depth, before.seen, before.total) && Advanced(r, d, before, now)
  {
    var a, b := Leaves(ps.head, ChildPath(path, i), parent), PartsLeaves(ps.rest, path, i + 1, parent);
    AcceptedConcat(fn, a, b);
    assert before.visited + (a + b) == before.visited + a + b;
  }

  /** One read from a part's content. */
  datatype ReadResult =
    | Chunk
    | Eof
    | Failed(error: Result)

  class Walk {
    const limits: Limits
    const fn: Callback
    var partsSeen: nat
    var totalBytes: nat
    var visited: seq<Attachment>

    constructor (limits: Limits, fn: Callback)
      requires Usable(limits)
      ensures this.limits == limits && this.fn == fn && Now() == Progress(0, 0, [])
    {
      this.limits, this.fn := limits, fn;
      partsSeen, totalBytes, visited := 0, 0, [];
    }

    function Now(): Progress
      reads this
    {
      Progress(partsSeen, totalBytes, visited)
    }

    /** The counters are within their limits, as they are between parts. */
    ghost predicate Valid()
      reads this
    {
      Usable(limits) && partsSeen <= limits.parts && totalBytes <= limits.totalSize
    }

    /** Walks a part and everything below it. */
    method WalkPart(t: Part, path: string, depth: nat, parent: string) returns (r: Result)
      requires Valid() && depth <= limits.depth
      modifies this
      ensures Truthful(r, limits, fn, DemandOf(t, path, parent), depth, old(partsSeen), old(totalBytes))
      ensures Advanced(r, DemandOf(t, path, parent), old(Now()), Now())
      ensures r == Fine ==> Valid()
      decreases t, 1
    {
      partsSeen := partsSeen + 1;
      if partsSeen > limits.parts {
        return Exceeded(LimitParts);
      }
      match t
      case Leaf(_, _, _, _) => r := EmitLeaf(t, path, parent, depth);
      case Multi(_, _, _, _) => r := WalkMultipart(t, path, depth, parent);
      case Nested(_, _, _) => r := WalkNested(t, path, depth, parent);
    }

    /** Hands a leaf to the callback and reads what the callback left. */
    method EmitLeaf(t: Part, path: string, parent: string, ghost depth: nat) returns (r: Result)
      requires t.Leaf? && Valid() && depth <= limits.depth
      modifies this
      ensures Truthful(r, limits, fn, Below(DemandOf(t, path, parent)), depth, old(partsSeen), old(totalBytes))
      ensures Advanced(r, Below(DemandOf(t, path, parent)), old(Now()), Now())
      ensures r == Fine ==> Valid()
      decreases t, 0
    {
      var att := Described(t, path, parent);
      ghost var base := totalBytes;
      var content := new PartReader(this, t.chunks, t.broken);
      var read := content.ReadUpTo(fn.appetite(att), base);
      SumGrows(t.chunks, content.next, |t.chunks|);
      if read.Failed? {
        return read.error;
      }
      if !fn.accepts(att) {
        assert DemandOf(t, path, parent).leaves[0] == att;
        return Refused;
      }
      visited := visited + [att];
      read := content.Drain(base);
      SumGrows(t.chunks, content.next, |t.chunks|);
      r := if read.Failed? then read.error else Fine;
    }

    /** Walks the children of a multipart in turn. */
    method WalkMultipart(t: Part, path: string, depth: nat, ghost parent: string) returns (r: Result)
      requires t.Multi? && Valid() && depth <= limits.depth
      modifies this
      ensures Truthful(r, limits, fn, Below(DemandOf(t, path, parent)), depth, old(partsSeen), old(totalBytes))
      ensures Advanced(r, Below(DemandOf(t, path, parent)), old(Now()), Now())
      ensures r == Fine ==> Valid()
      decreases t, 0
    {
      if !t.boundary {
        return Unreadable;
      }
      if depth + 1 > limits.depth {
        return Exceeded(LimitDepth);
      }
      r := WalkParts(t.parts, path, depth + 1, t.mediaType);
    }

    method WalkParts(parts: Parts, path: string, depth: nat, mediaType: string) returns (r: Result)
      requires Valid() && depth <= limits.depth
      modifies this
      ensures Truthful(r, limits, fn, PartsDemand(parts, path, 1, mediaType), depth, old(partsSeen), old(totalBytes))
      ensures Advanced(r, PartsDemand(parts, path, 1, mediaType), old(Now()), Now())
      ensures r == Fine ==> Valid()
      decreases parts
    {
      ghost var whole := PartsDemand(parts, path, 1, mediaType);
      ghost var before := Now();
      var todo, i := parts, 1;
      while todo.More?
        invariant Valid()
        invariant Reduced(limits, fn, whole, PartsDemand(todo, path, i, mediaType), depth, before, Now())
        invariant todo == parts || todo < parts
        decreases todo
      {
        var child, childPath := todo.head, ChildPath(path, i);
        ghost var rest := PartsDemand(todo, path, i, mediaType);
        ghost var start := Now();
        if child.headers > limits.headers {
          r := Exceeded(LimitHeaders);
          ReducedEnd(r, limits, fn, whole, rest, depth, before, start, start);
          return;
        }
        r := WalkPart(child, childPath, depth, mediaType);
        if r != Fine {
          ChildFails(r, limits, fn, todo, path, i, mediaType, depth, start, Now());
          ReducedEnd(r, limits, fn, whole, rest, depth, before, start, Now());
          return;
        }
        ChildFits(limits, fn, todo, path, i, mediaType, depth, start, Now());
        ReducedTwice(limits, fn, whole, rest, PartsDemand(todo.rest, path, i + 1, mediaType),
                     depth, before, start, Now());
        todo, i := todo.rest, i + 1;
      }
      r := if todo.broken then Unreadable else Fine;
      ReducedEnd(r, limits, fn, whole, PartsDemand(todo, path, i, mediaType), depth, before, Now(), Now());
    }

    /** Walks the message that a message/rfc822 part holds. */
    method WalkNested(t: Part, path: string, depth: nat, ghost parent: string) returns (r: Result)
      requires t.Nested? && Valid() && depth <= limits.depth
      modifies this
      ensures Truthful(r, limits, fn, Below(DemandOf(t, path, parent)), depth, old(partsSeen), old(totalBytes))
      ensures Advanced(r, Below(DemandOf(t, path, parent)), old(Now()), Now())
      ensures r == Fine ==> Valid()
      decreases t, 0
    {
      if depth + 1 > limits.depth {
        return Exceeded(LimitDepth);
      }
      if !t.readable {
        return Unreadable;
      }
      if t.inner.headers > limits.headers {
        return Exceeded(LimitHeaders);
      }
      r := WalkPart(t.inner, path, depth + 1, "");
    }
  }

  /** A leaf's content: counts what is read and stops at the size limits. */
  class PartReader {
    const walk: Walk
    const chunks: seq<nat>
    const broken: bool
    var next: nat
    var partRead: nat

    constructor (walk: Walk, chunks: seq<nat>, broken: bool)
      ensures this.walk == walk && this.chunks == chunks && this.broken == broken && next == 0 && partRead == 0
    {
      this.walk, this.chunks, this.broken := walk, chunks, broken;
      next, partRead := 0, 0;
    }

    /** next reads were made of content that starts with base bytes counted. */
    ghost predicate Counted(base: nat)
      reads this, walk
    {
      && next <= |chunks| && partRead == Sum(chunks, next) && walk.totalBytes == base + Sum(chunks, next)
      && Usable(walk.limits)
    }

    ghost predicate InLimits()
      reads this, walk
    {
      partRead <= walk.limits.partSize && walk.totalBytes <= walk.limits.totalSize
    }

    method Read(ghost base: nat) returns (r: ReadResult)
      requires Counted(base) && InLimits()
      modifies this`next, this`partRead, walk`totalBytes
      ensures Counted(base) && old(next) <= next
      ensures r.Chunk? <==> old(next) < |chunks| && InLimits()
      ensures r.Eof? ==> !broken && InLimits()
      ensures r.Eof? || r == Failed(Unreadable) ==> old(next) == |chunks| && next == old(next)
      ensures r == Failed(Unreadable) ==> broken && InLimits()
      ensures r.Chunk? ==> next == old(next) + 1
      ensures r.Failed? ==>
                || r.error == Unreadable
                || (r.error == Exceeded(LimitPartSize) && partRead > walk.limits.partSize)
                || (r.error == Exceeded(LimitTotalSize) && walk.totalBytes > walk.limits.totalSize)
    {
      if next == |chunks| {
        return if broken then Failed(Unreadable) else Eof;
      }
      var n := chunks[next];
      next := next + 1;
      if n > 0 {
        partRead := partRead + n;
        walk.totalBytes := walk.totalBytes + n;
        if partRead > walk.limits.partSize {
          return Failed(Exceeded(LimitPartSize));
        }
        if walk.totalBytes > walk.limits.totalSize {
          return Failed(Exceeded(LimitTotalSize));
        }
      }
      return Chunk;
    }

    /** Reads up to count times, to the end or the first failure. */
    method ReadUpTo(count: nat, ghost base: nat) returns (r: ReadResult)
      requires Counted(base) && InLimits()
      modifies this`next, this`partRead, walk`totalBytes
      ensures Counted(base) && old(next) <= next
      ensures !r.Failed? ==> InLimits()
      ensures r.Eof? ==> next == |chunks| && !broken
      ensures r.Chunk? ==> next == old(next) + count
      ensures r.Failed? ==>
                || (r.error == Unreadable && broken)
                || (r.error == Exceeded(LimitPartSize) && partRead > walk.limits.partSize)
                || (r.error == Exceeded(LimitTotalSize) && walk.totalBytes > walk.limits.totalSize)
    {
      r := Chunk;
      var i := 0;
      while i < count && r.Chunk?
        invariant i <= count && Counted(base) && old(next) <= next
        invariant !r.Failed? ==> InLimits()
        invariant r.Eof? ==> next == |chunks| && !broken
        invariant r.Chunk? ==> next == old(next) + i
        invariant r.Failed? ==>
                    || (r.error == Unreadable && broken)
                    || (r.error == Exceeded(LimitPartSize) && partRead > walk.limits.partSize)
                    || (r.error == Exceeded(LimitTotalSize) && walk.totalBytes > walk.limits.totalSize)
      {
        r := Read(base);
        i := i + 1;
      }
    }

    /** Reads what is left. */
    method Drain(ghost base: nat) returns (r: ReadResult)
      requires Counted(base) && InLimits()
      modifies this`next, this`partRead, walk`totalBytes
      ensures Counted(base)
      ensures r.Eof? ==> next == |chunks| && !broken && InLimits()
      ensures r.Eof? || r.Failed?
      ensures r.Failed? ==>
                || (r.error == Unreadable && broken)
                || (r.error == Exceeded(LimitPartSize) && partRead > walk.limits.partSize)
                || (r.error == Exceeded(LimitTotalSize) && walk.totalBytes > walk.limits.totalSize)
    {
      r := ReadUpTo(|chunks| - next + 1, base);
    }
  }

  /** A message is within the limits: each part of it, and the totals. */
  predicate Fits(l: Limits, fn: Callback, root: Part) {
    && Readable(root) && Height(root) <= l.depth
    && root.headers <= l.headers && Longest(root) <= l.headers
    && Largest(root) <= l.partSize && Bytes(root) <= l.totalSize && Nodes(root) <= l.parts
    && AllAccepted(fn, Leaves(root, "0", ""))
  }

  /** The same, said of the parts that stand in the message, listed in document order: each is sound
      and not too deep, there are not too many of them, and their leaves are accepted, none too large
      and not too large together. */
  ghost predicate AllFit(l: Limits, fn: Callback, root: Part, all: seq<Address>) {
    var leaves := LeavesAt(root, "0", "", all);
    && Throughout(root, "0", "", 0, l.depth, l.headers) && |all| <= l.parts
    && AllUpTo(leaves, l.partSize) && Sizes(leaves) <= l.totalSize && AllAccepted(fn, leaves)
  }

  /** A message is within the limits exactly if the parts that stand in it are. */
  lemma FitsExactly(l: Limits, fn: Callback, root: Part, all: seq<Address>)
    requires Usable(l) && Listing(root, "0", "", all)
    ensures Fits(l, fn, root) <==> AllFit(l, fn, root, all)
    ensures LeavesAt(root, "0", "", all) == Leaves(root, "0", "") && |all| == Nodes(root)
    ensures Sizes(LeavesAt(root, "0", "", all)) == Bytes(root)
  {
    OneListing(root, "0", "", all);
    AddressCount(root);
    LeavesListed(root, "0", "");
    LeafSizes(root, "0", "", l.partSize);
    SoundThroughout(root, "0", "", 0, l.depth, l.headers);
  }

  /** Walks a whole message. It succeeds exactly when the message is readable, within the limits
      and accepted, however its content is cut into reads and however much of it the callback
      takes. Then every leaf was visited once, in document order, and the counters hold the
      message's totals; on a failure the visited leaves are the first ones. */
  method Parse(readable: bool, root: Part, limits: Limits, fn: Callback) returns (r: Result, walk: Walk)
    ensures fresh(walk)
    ensures r == Fine <==> readable && Fits(Effective(limits), fn, root)
    ensures r == Fine ==> walk.Now() == Progress(Nodes(root), Bytes(root), Leaves(root, "0", ""))
    ensures forall all :: Listing(root, "0", "", all) ==>
              && (r == Fine <==> readable && AllFit(Effective(limits), fn, root, all))
              && (r == Fine ==> walk.visited == LeavesAt(root, "0", "", all) && walk.partsSeen == |all|
                                && walk.totalBytes == Sizes(walk.visited))
    ensures walk.visited <= Leaves(root, "0", "")
    ensures readable && r != Fine ==>
              || (r == Exceeded(LimitHeaders) && root.headers > Effective(limits).headers)
              || Truthful(r, Effective(limits), fn, DemandOf(root, "0", ""), 0, 0, 0)
  {
    walk := new Walk(Effective(limits), fn);
    forall all | Listing(root, "0", "", all)
      ensures AllFit(Effective(limits), fn, root, all) <==> Fits(Effective(limits), fn, root)
      ensures LeavesAt(root, "0", "", all) == Leaves(root, "0", "") && |all| == Nodes(root)
      ensures Sizes(LeavesAt(root, "0", "", all)) == Bytes(root)
    {
      FitsExactly(Effective(limits), fn, root, all);
    }
    if !readable {
      return Unreadable, walk;
    }
    if root.headers > walk.limits.headers {
      return Exceeded(LimitHeaders), walk;
    }
    r := walk.WalkPart(root, "0", 0, "");
    assert [] + Leaves(root, "0", "") == Leaves(root, "0", "");
  }
}
