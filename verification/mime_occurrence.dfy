/** Where each part of a message stands, and what the measures of a message say about the parts that
    stand in it. */
module MimeOccurrence {
  import opened Text
  import opened MimeTree

  // ---------------------------------------------------------------- addresses

  /** Which part is meant: the number of the child to take at each step down, counting from 1. The
      message inside a message/rfc822 part is its only child. */
  type Address = seq<nat>

  /** A part that stands somewhere: its path and the type of the multipart around it. */
  datatype Place = Place(part: Part, path: string, parent: string)

  /** The child with number n, when the first one has number i. */
  function Child(ps: Parts, i: nat, n: nat): Option<Part>
    decreases ps
  {
    if ps.End? || n < i then None else if n == i then Some(ps.head) else Child(ps.rest, i + 1, n)
  }

  /** The part that stands at an address below t. */
  function At(t: Part, path: string, parent: string, a: Address): Option<Place>
    decreases |a|
  {
    if a == [] then Some(Place(t, path, parent))
    else
      match t
      case Leaf(_, _, _, _) => None
      case Multi(_, mediaType, _, parts) => AmongParts(parts, path, 1, mediaType, a)
      case Nested(_, _, inner) => if a[0] == 1 then At(inner, path, "", a[1..]) else None
  }

  function AmongParts(ps: Parts, path: string, i: nat, mediaType: string, a: Address): Option<Place>
    requires a != []
    decreases |a|, 0
  {
    match Child(ps, i, a[0])
    case None => None
    case Some(child) => At(child, ChildPath(path, a[0]), mediaType, a[1..])
  }

  /** A part's path and enclosing type come from the part it stands in: a multipart numbers its parts
      and gives them its type, and the message inside a message/rfc822 part has that part's path. */
  lemma {:induction false} PlaceIs(t: Part, path: string, parent: string, a: Address)
    requires a != [] && At(t, path, parent, a).Some?
    ensures var above, n := At(t, path, parent, a[..|a| - 1]), a[|a| - 1];
            && above.Some? && !above.value.part.Leaf?
            && var p, q := At(t, path, parent, a).value, above.value;
               if q.part.Multi? then p.path == q.path + "." + Decimal(n) && p.parent == q.part.mediaType && n >= 1
               else p.path == q.path && p.parent == ""
    decreases |a|
  {
    var rest := a[1..];
    if t.Multi? {
      ChildFrom(t.parts, 1, a[0]);
      assert At(t, path, parent, a)
          == At(Child(t.parts, 1, a[0]).value, ChildPath(path, a[0]), t.mediaType, rest);
    }
    if rest == [] {
      assert At(t, path, parent, a[..0]) == Some(Place(t, path, parent));
    } else {
      assert a[..|a| - 1][0] == a[0] && a[..|a| - 1][1..] == rest[..|rest| - 1];
      match t
      case Leaf(_, _, _, _) =>
      case Multi(_, mediaType, _, parts) =>
        PlaceIs(Child(parts, 1, a[0]).value, ChildPath(path, a[0]), mediaType, rest);
      case Nested(_, _, inner) =>
        PlaceIs(inner, path, "", rest);
    }
  }

  lemma ChildFrom(ps: Parts, i: nat, n: nat)
    ensures Child(ps, i, n).Some? ==> n >= i
  {}

  /** A leaf is an inline asset exactly if it has a Content-ID and stands directly in a
      multipart/related. */
  lemma InlineAssetExactly(root: Part, a: Address)
    requires At(root, "0", "", a).Some? && At(root, "0", "", a).value.part.Leaf?
    ensures var p := At(root, "0", "", a).value;
            Described(p.part, p.path, p.parent).inlineAsset
            <==> && NormalizeContentID(p.part.info.contentID) != ""
                 && a != [] && At(root, "0", "", a[..|a| - 1]).Some?
                 && At(root, "0", "", a[..|a| - 1]).value.part.Multi?
                 && At(root, "0", "", a[..|a| - 1]).value.part.mediaType == "multipart/related"
  {
    if a != [] {
      PlaceIs(root, "0", "", a);
    }
  }

  /** Document order: a part stands before those inside it, and before those inside later ones. */
  predicate Before(a: Address, b: Address) {
    b != [] && (a == [] || a[0] < b[0] || (a[0] == b[0] && Before(a[1..], b[1..])))
  }

  predicate Lists(t: Part, path: string, parent: string, all: seq<Address>, a: Address) {
    a in all <==> At(t, path, parent, a).Some?
  }

  /** All addresses at which a part stands, each once, in document order. */
  ghost predicate Listing(t: Part, path: string, parent: string, all: seq<Address>) {
    InOrder(all) && forall a :: Lists(t, path, parent, all, a)
  }

  ghost predicate InOrder(all: seq<Address>) {
    forall i, j :: 0 <= i < j < |all| ==> Before(all[i], all[j])
  }

  // ------------------------------------------------------- there is one listing

  lemma {:induction false} BeforeStrict(a: Address, b: Address)
    ensures !(Before(a, b) && Before(b, a)) && !Before(a, a)
  {
    if a != [] {
      BeforeStrict(a[1..], if b == [] then [] else b[1..]);
    }
  }

  lemma {:induction false} BeforeTransitive(a: Address, b: Address, c: Address)
    requires Before(a, b) && Before(b, c)
    ensures Before(a, c)
  {
    if a != [] && a[0] == b[0] == c[0] {
      BeforeTransitive(a[1..], b[1..], c[1..]);
    }
  }

  lemma LastIsLatest(all: seq<Address>, a: Address)
    requires InOrder(all) && a in all && a != all[|all| - 1]
    ensures Before(a, all[|all| - 1])
  {}

  lemma SameLast(a: seq<Address>, b: seq<Address>)
    requires InOrder(a) && InOrder(b) && a != [] && b != [] && forall x :: x in a <==> x in b
    ensures a[|a| - 1] == b[|b| - 1]
  {
    var x, y := a[|a| - 1], b[|b| - 1];
    assert x in b && y in a;
    if x != y {
      LastIsLatest(a, y);
      LastIsLatest(b, x);
      BeforeStrict(x, y);
    }
  }

  lemma LastOnce(all: seq<Address>)
    requires InOrder(all) && all != []
    ensures all[|all| - 1] !in all[..|all| - 1]
  {
    BeforeStrict(all[|all| - 1], []);
  }

  /** Two lists in document order of the same addresses are the same. */
  lemma {:induction false} SameListing(a: seq<Address>, b: seq<Address>)
    requires InOrder(a) && InOrder(b) && forall x :: x in a <==> x in b
    ensures a == b
  {
    assert a == [] || a[0] in a;
    assert b == [] || b[0] in b;
    if a != [] && b != [] {
      var front, other, last := a[..|a| - 1], b[..|b| - 1], a[|a| - 1];
      SameLast(a, b);
      LastOnce(a);
      LastOnce(b);
      assert a == front + [last] && b == other + [last];
      forall x
        ensures x in front <==> x in other
      {
        assert x in a <==> x in b;
      }
      SameListing(front, other);
    }
  }

  // ----------------------------------------------------------- the listing itself

  function Prefixed(n: nat, all: seq<Address>): (r: seq<Address>)
    ensures |r| == |all|
  {
    seq(|all|, i requires 0 <= i < |all| => [n] + all[i])
  }

  function Addresses(t: Part): seq<Address>
    decreases t
  {
    match t
    case Leaf(_, _, _, _) => [[]]
    case Multi(_, _, _, parts) => [[]] + PartsAddresses(parts, 1)
    case Nested(_, _, inner) => [[]] + Prefixed(1, Addresses(inner))
  }

  function PartsAddresses(ps: Parts, i: nat): seq<Address>
    decreases ps
  {
    if ps.End? then [] else Prefixed(i, Addresses(ps.head)) + PartsAddresses(ps.rest, i + 1)
  }

  lemma PrefixedHas(n: nat, all: seq<Address>, a: Address)
    ensures a in Prefixed(n, all) <==> a != [] && a[0] == n && a[1..] in all
  {
    var r := Prefixed(n, all);
    if a != [] && a[0] == n && a[1..] in all {
      var i :| 0 <= i < |all| && all[i] == a[1..];
      assert r[i] == a;
    }
    if a in r {
      var i :| 0 <= i < |r| && r[i] == a;
      assert a[1..] == all[i];
    }
  }

  lemma {:induction false} AddressesStand(t: Part, path: string, parent: string, a: Address)
    ensures Lists(t, path, parent, Addresses(t), a)
    decreases t
  {
    match t
    case Leaf(_, _, _, _) =>
    case Multi(_, mediaType, _, parts) => PartsAddressesStand(parts, path, 1, mediaType, a);
    case Nested(_, _, inner) =>
      PrefixedHas(1, Addresses(inner), a);
      if a != [] {
        AddressesStand(inner, path, "", a[1..]);
      }
  }

  lemma {:induction false} PartsAddressesStand(ps: Parts, path: string, i: nat, mediaType: string, a: Address)
    ensures a in PartsAddresses(ps, i) <==> a != [] && AmongParts(ps, path, i, mediaType, a).Some?
    decreases ps
  {
    if ps.More? {
      PrefixedHas(i, Addresses(ps.head), a);
      PartsAddressesStand(ps.rest, path, i + 1, mediaType, a);
      if a != [] {
        AddressesStand(ps.head, ChildPath(path, i), mediaType, a[1..]);
        if a[0] <= i {
          NoChild(ps.rest, i + 1, a[0]);
        }
      }
    }
  }

  lemma NoChild(ps: Parts, i: nat, n: nat)
    requires n < i
    ensures Child(ps, i, n) == None
  {}

  lemma PrefixedInOrder(n: nat, all: seq<Address>)
    requires InOrder(all)
    ensures InOrder(Prefixed(n, all))
  {
    var r := Prefixed(n, all);
    forall i, j | 0 <= i < j < |r|
      ensures Before(r[i], r[j])
    {
      assert r[i][1..] == all[i] && r[j][1..] == all[j];
    }
  }

  ghost predicate StartFrom(all: seq<Address>, i: nat) {
    forall k :: 0 <= k < |all| ==> all[k] != [] && all[k][0] >= i
  }

  lemma {:induction false} AddressesInOrder(t: Part)
    ensures InOrder(Addresses(t))
    decreases t
  {
    match t
    case Leaf(_, _, _, _) =>
    case Multi(_, _, _, parts) => PartsAddressesInOrder(parts, 1);
    case Nested(_, _, inner) =>
      AddressesInOrder(inner);
      PrefixedInOrder(1, Addresses(inner));
  }

  lemma {:induction false} PartsAddressesInOrder(ps: Parts, i: nat)
    ensures InOrder(PartsAddresses(ps, i)) && StartFrom(PartsAddresses(ps, i), i)
    decreases ps
  {
    if ps.More? {
      AddressesInOrder(ps.head);
      PrefixedInOrder(i, Addresses(ps.head));
      PartsAddressesInOrder(ps.rest, i + 1);
    }
  }

  /** The parts of a message can be listed, in one way. */
  lemma OneListing(t: Part, path: string, parent: string, all: seq<Address>)
    ensures Listing(t, path, parent, all) <==> all == Addresses(t)
  {
    forall a
      ensures Lists(t, path, parent, Addresses(t), a)
    {
      AddressesStand(t, path, parent, a);
    }
    AddressesInOrder(t);
    if Listing(t, path, parent, all) {
      forall a
        ensures a in all <==> a in Addresses(t)
      {
        assert Lists(t, path, parent, all, a) && Lists(t, path, parent, Addresses(t), a);
      }
      SameListing(all, Addresses(t));
    }
  }

  // --------------------------------------------------------------- what is listed

  lemma {:induction false} AddressCount(t: Part)
    ensures |Addresses(t)| == Nodes(t)
    decreases t
  {
    match t
    case Leaf(_, _, _, _) =>
    case Multi(_, _, _, parts) => PartsAddressCount(parts, 1);
    case Nested(_, _, inner) => AddressCount(inner);
  }

  lemma {:induction false} PartsAddressCount(ps: Parts, i: nat)
    ensures |PartsAddresses(ps, i)| == PartsNodes(ps)
    decreases ps
  {
    if ps.More? {
      AddressCount(ps.head);
      PartsAddressCount(ps.rest, i + 1);
    }
  }

  function LeafIn(place: Option<Place>): seq<Attachment> {
    match place
    case None => []
    case Some(p) => if p.part.Leaf? then [Described(p.part, p.path, p.parent)] else []
  }

  /** What the leaf at an address is, if one stands there. */
  function LeafAt(t: Part, path: string, parent: string): Address -> seq<Attachment> {
    a => LeafIn(At(t, path, parent, a))
  }

  function LeafAmong(ps: Parts, path: string, i: nat, mediaType: string): Address -> seq<Attachment> {
    (a: Address) => if a == [] then [] else LeafIn(AmongParts(ps, path, i, mediaType, a))
  }

  /** What is found at the addresses, in turn. */
  function Collected(find: Address -> seq<Attachment>, all: seq<Address>): seq<Attachment> {
    if all == [] then [] else Collected(find, all[..|all| - 1]) + find(all[|all| - 1])
  }

  /** The leaves at the given addresses, in turn. */
  function LeavesAt(t: Part, path: string, parent: string, all: seq<Address>): seq<Attachment> {
    Collected(LeafAt(t, path, parent), all)
  }

  lemma {:induction false} CollectedTogether(find: Address -> seq<Attachment>, a: seq<Address>, b: seq<Address>)
    ensures Collected(find, a + b) == Collected(find, a) + Collected(find, b)
  {
    if b == [] {
      assert a + b == a;
    } else {
      var front, last := b[..|b| - 1], find(b[|b| - 1]);
      CollectedTogether(find, a, front);
      assert (a + b)[..|a + b| - 1] == a + front;
      assert Collected(find, a) + (Collected(find, front) + last) == Collected(find, a) + Collected(find, front) + last;
    }
  }

  lemma {:induction false} CollectedAlike(find: Address -> seq<Attachment>, a: seq<Address>,
                                          other: Address -> seq<Attachment>, b: seq<Address>)
    requires |a| == |b| && forall k :: 0 <= k < |a| ==> find(a[k]) == other(b[k])
    ensures Collected(find, a) == Collected(other, b)
  {
    if a != [] {
      CollectedAlike(find, a[..|a| - 1], other, b[..|b| - 1]);
    }
  }

  lemma Behind(n: nat, a: Address)
    ensures ([n] + a)[0] == n && ([n] + a)[1..] == a
  {}

  /** The leaves as they are walked are those listed. */
  lemma {:induction false} LeavesListed(t: Part, path: string, parent: string)
    ensures LeavesAt(t, path, parent, Addresses(t)) == Leaves(t, path, parent)
    decreases t
  {
    var find := LeafAt(t, path, parent);
    CollectedFirst(find);
    match t
    case Leaf(_, _, _, _) =>
    case Multi(_, mediaType, _, parts) =>
      var all := PartsAddresses(parts, 1);
      CollectedTogether(find, [[]], all);
      PartsAddressesInOrder(parts, 1);
      CollectedAlike(find, all, LeafAmong(parts, path, 1, mediaType), all);
      PartsLeavesListed(parts, path, 1, mediaType);
    case Nested(_, _, inner) =>
      var all := Addresses(inner);
      CollectedTogether(find, [[]], Prefixed(1, all));
      forall k | 0 <= k < |all|
        ensures find(Prefixed(1, all)[k]) == LeafAt(inner, path, "")(all[k])
      {
        Behind(1, all[k]);
      }
      CollectedAlike(find, Prefixed(1, all), LeafAt(inner, path, ""), all);
      LeavesListed(inner, path, "");
  }

  lemma CollectedFirst(find: Address -> seq<Attachment>)
    ensures Collected(find, [[]]) == find([])
  {
    var top: seq<Address> := [[]];
    assert top[..0] == [];
  }

  lemma {:induction false} PartsLeavesListed(ps: Parts, path: string, i: nat, mediaType: string)
    ensures Collected(LeafAmong(ps, path, i, mediaType), PartsAddresses(ps, i)) == PartsLeaves(ps, path, i, mediaType)
    decreases ps
  {
    if ps.More? {
      var find, child := LeafAmong(ps, path, i, mediaType), ChildPath(path, i);
      CollectedTogether(find, Prefixed(i, Addresses(ps.head)), PartsAddresses(ps.rest, i + 1));
      HeadCollected(ps, path, i, mediaType, Addresses(ps.head));
      LeavesListed(ps.head, child, mediaType);
      PartsAddressesInOrder(ps.rest, i + 1);
      RestCollected(ps, path, i, mediaType, PartsAddresses(ps.rest, i + 1));
      PartsLeavesListed(ps.rest, path, i + 1, mediaType);
    }
  }

  lemma HeadCollected(ps: Parts, path: string, i: nat, mediaType: string, all: seq<Address>)
    requires ps.More?
    ensures Collected(LeafAmong(ps, path, i, mediaType), Prefixed(i, all))
            == LeavesAt(ps.head, ChildPath(path, i), mediaType, all)
  {
    var find, inside := LeafAmong(ps, path, i, mediaType), LeafAt(ps.head, ChildPath(path, i), mediaType);
    forall k | 0 <= k < |all|
      ensures find(Prefixed(i, all)[k]) == inside(all[k])
    {
      Behind(i, all[k]);
    }
    CollectedAlike(find, Prefixed(i, all), inside, all);
  }

  lemma RestCollected(ps: Parts, path: string, i: nat, mediaType: string, all: seq<Address>)
    requires ps.More? && StartFrom(all, i + 1)
    ensures Collected(LeafAmong(ps, path, i, mediaType), all)
            == Collected(LeafAmong(ps.rest, path, i + 1, mediaType), all)
  {
    CollectedAlike(LeafAmong(ps, path, i, mediaType), all, LeafAmong(ps.rest, path, i + 1, mediaType), all);
  }

  // ------------------------------------------------------------ sizes of leaves

  function Sizes(atts: seq<Attachment>): nat {
    if atts == [] then 0 else Sizes(atts[..|atts| - 1]) + atts[|atts| - 1].size
  }

  ghost predicate AllUpTo(atts: seq<Attachment>, size: int) {
    forall i :: 0 <= i < |atts| ==> atts[i].size <= size
  }

  lemma {:induction false} SizesTogether(a: seq<Attachment>, b: seq<Attachment>)
    ensures Sizes(a + b) == Sizes(a) + Sizes(b)
  {
    if b == [] {
      assert a + b == a;
    } else {
      SizesTogether(a, b[..|b| - 1]);
      assert (a + b)[..|a + b| - 1] == a + b[..|b| - 1];
    }
  }

  lemma UpToTogether(a: seq<Attachment>, b: seq<Attachment>, size: int)
    ensures AllUpTo(a + b, size) <==> AllUpTo(a, size) && AllUpTo(b, size)
  {
    if AllUpTo(a + b, size) {
      assert forall i :: 0 <= i < |a| ==> a[i] == (a + b)[i];
      assert forall i :: 0 <= i < |b| ==> b[i] == (a + b)[|a| + i];
    }
  }

  lemma {:induction false} LeafSizes(t: Part, path: string, parent: string, size: nat)
    ensures Sizes(Leaves(t, path, parent)) == Bytes(t)
    ensures AllUpTo(Leaves(t, path, parent), size) <==> Largest(t) <= size
    decreases t
  {
    match t
    case Leaf(_, _, _, _) =>
      var atts := Leaves(t, path, parent);
      assert atts[..0] == [] && atts[0].size == Bytes(t);
    case Multi(_, mediaType, _, parts) => PartsLeafSizes(parts, path, 1, mediaType, size);
    case Nested(_, _, inner) => LeafSizes(inner, path, "", size);
  }

  lemma {:induction false} PartsLeafSizes(ps: Parts, path: string, i: nat, parent: string, size: nat)
    ensures Sizes(PartsLeaves(ps, path, i, parent)) == PartsBytes(ps)
    ensures AllUpTo(PartsLeaves(ps, path, i, parent), size) <==> PartsLargest(ps) <= size
    decreases ps
  {
    if ps.More? {
      var a, b := Leaves(ps.head, ChildPath(path, i), parent), PartsLeaves(ps.rest, path, i + 1, parent);
      LeafSizes(ps.head, ChildPath(path, i), parent, size);
      PartsLeafSizes(ps.rest, path, i + 1, parent, size);
      SizesTogether(a, b);
      UpToTogether(a, b, size);
    }
  }

  // --------------------------------------------------------------- single parts

  predicate EndsBroken(ps: Parts) {
    if ps.End? then ps.broken else EndsBroken(ps.rest)
  }

  /** A part that is sound in itself, enclosed by k containers: not too deep, where a container counts
      for itself, without too many header fields, and read to its end. */
  predicate Sound(p: Part, k: nat, depth: int, headers: int) {
    && k + (if p.Leaf? then 0 else 1) <= depth && p.headers <= headers
    && match p
       case Leaf(_, _, _, broken) => !broken
       case Multi(_, _, boundary, parts) => boundary && !EndsBroken(parts)
       case Nested(_, readable, _) => readable
  }

  /** Whatever stands at the place is sound, where k containers enclose it. */
  predicate SoundIn(place: Option<Place>, k: nat, depth: int, headers: int) {
    place.Some? ==> Sound(place.value.part, k, depth, headers)
  }

  predicate SoundAt(t: Part, path: string, parent: string, n: nat, depth: int, headers: int, a: Address) {
    SoundIn(At(t, path, parent, a), n + |a|, depth, headers)
  }

  /** Every part that stands in t is sound, where n containers enclose t. */
  ghost predicate Throughout(t: Part, path: string, parent: string, n: nat, depth: int, headers: int) {
    forall a :: SoundAt(t, path, parent, n, depth, headers, a)
  }

  predicate SoundAmong(ps: Parts, path: string, i: nat, mediaType: string, n: nat, depth: int, headers: int,
                       a: Address)
  {
    a != [] ==> SoundIn(AmongParts(ps, path, i, mediaType, a), n + |a|, depth, headers)
  }

  ghost predicate AllSoundAmong(ps: Parts, path: string, i: nat, mediaType: string, n: nat, depth: int, headers: int)
  {
    forall a :: SoundAmong(ps, path, i, mediaType, n, depth, headers, a)
  }

  lemma ThroughoutInner(t: Part, path: string, parent: string, n: nat, depth: int, headers: int)
    requires t.Nested?
    ensures Throughout(t, path, parent, n, depth, headers)
            <==> Sound(t, n, depth, headers) && Throughout(t.inner, path, "", n + 1, depth, headers)
  {
    forall a
      ensures SoundAt(t, path, parent, n, depth, headers, a)
              <==> if a == [] then Sound(t, n, depth, headers)
                   else a[0] == 1 ==> SoundAt(t.inner, path, "", n + 1, depth, headers, a[1..])
    {}
    if Throughout(t, path, parent, n, depth, headers) {
      assert SoundAt(t, path, parent, n, depth, headers, []);
      var m := n + 1;
      forall a
        ensures SoundAt(t.inner, path, "", m, depth, headers, a)
      {
        Behind(1, a);
        assert SoundAt(t, path, parent, n, depth, headers, [1] + a);
      }
    }
  }

  lemma ThroughoutParts(t: Part, path: string, parent: string, n: nat, depth: int, headers: int)
    requires t.Multi?
    ensures Throughout(t, path, parent, n, depth, headers)
            <==> Sound(t, n, depth, headers) && AllSoundAmong(t.parts, path, 1, t.mediaType, n, depth, headers)
  {
    forall a
      ensures SoundAt(t, path, parent, n, depth, headers, a)
              <==> if a == [] then Sound(t, n, depth, headers)
                   else SoundAmong(t.parts, path, 1, t.mediaType, n, depth, headers, a)
    {}
    if Throughout(t, path, parent, n, depth, headers) {
      assert SoundAt(t, path, parent, n, depth, headers, []);
      forall a
        ensures SoundAmong(t.parts, path, 1, t.mediaType, n, depth, headers, a)
      {
        assert SoundAt(t, path, parent, n, depth, headers, a);
      }
    }
  }

  lemma SoundHere(ps: Parts, path: string, i: nat, mediaType: string, n: nat, depth: int, headers: int, a: Address)
    requires ps.More?
    ensures SoundAmong(ps, path, i, mediaType, n, depth, headers, a)
            <==> && SoundAmong(ps.rest, path, i + 1, mediaType, n, depth, headers, a)
                 && (a != [] && a[0] == i ==>
                       SoundAt(ps.head, ChildPath(path, i), mediaType, n + 1, depth, headers, a[1..]))
  {
    if a != [] && a[0] <= i {
      NoChild(ps.rest, i + 1, a[0]);
    }
  }

  lemma AmongHead(ps: Parts, path: string, i: nat, mediaType: string, n: nat, depth: int, headers: int)
    requires ps.More?
    ensures AllSoundAmong(ps, path, i, mediaType, n, depth, headers)
            <==> && Throughout(ps.head, ChildPath(path, i), mediaType, n + 1, depth, headers)
                 && AllSoundAmong(ps.rest, path, i + 1, mediaType, n, depth, headers)
  {
    forall a
      ensures SoundAmong(ps, path, i, mediaType, n, depth, headers, a)
              <==> && SoundAmong(ps.rest, path, i + 1, mediaType, n, depth, headers, a)
                   && (a != [] && a[0] == i ==>
                         SoundAt(ps.head, ChildPath(path, i), mediaType, n + 1, depth, headers, a[1..]))
    {
      SoundHere(ps, path, i, mediaType, n, depth, headers, a);
    }
    if AllSoundAmong(ps, path, i, mediaType, n, depth, headers) {
      var child, m, next := ChildPath(path, i), n + 1, i + 1;
      forall a
        ensures SoundAt(ps.head, child, mediaType, m, depth, headers, a)
      {
        Behind(i, a);
        assert SoundAmong(ps, path, i, mediaType, n, depth, headers, [i] + a);
      }
      forall a
        ensures SoundAmong(ps.rest, path, next, mediaType, n, depth, headers, a)
      {
        assert SoundAmong(ps, path, i, mediaType, n, depth, headers, a);
      }
    }
  }

  /** All parts that stand in t are sound exactly if t is readable and its measures are within the
      limits. */
  lemma {:induction false} SoundThroughout(t: Part, path: string, parent: string, n: nat, depth: int, headers: int)
    requires 0 <= headers
    ensures Throughout(t, path, parent, n, depth, headers)
            <==> Readable(t) && n + Height(t) <= depth && t.headers <= headers && Longest(t) <= headers
    decreases t
  {
    assert SoundAt(t, path, parent, n, depth, headers, []) <==> Sound(t, n, depth, headers);
    match t
    case Leaf(_, _, _, _) =>
    case Multi(_, mediaType, _, parts) =>
      ThroughoutParts(t, path, parent, n, depth, headers);
      if n + 1 <= depth {
        PartsSoundThroughout(parts, path, 1, mediaType, n, depth, headers);
      }
    case Nested(_, _, inner) =>
      SoundThroughout(inner, path, "", n + 1, depth, headers);
      ThroughoutInner(t, path, parent, n, depth, headers);
  }

  lemma {:induction false} PartsSoundThroughout(ps: Parts, path: string, i: nat, mediaType: string, n: nat,
                                                depth: int, headers: int)
    requires n + 1 <= depth && 0 <= headers
    ensures AllSoundAmong(ps, path, i, mediaType, n, depth, headers) && !EndsBroken(ps)
            <==> PartsReadable(ps) && n + 1 + PartsHeight(ps) <= depth && PartsLongest(ps) <= headers
    decreases ps
  {
    if ps.More? {
      SoundThroughout(ps.head, ChildPath(path, i), mediaType, n + 1, depth, headers);
      PartsSoundThroughout(ps.rest, path, i + 1, mediaType, n, depth, headers);
      AmongHead(ps, path, i, mediaType, n, depth, headers);
    } else {
      assert forall a :: SoundAmong(ps, path, i, mediaType, n, depth, headers, a);
    }
  }
}
