/** Part paths: what the dotted numbering says about where a part stands. */
module MimePaths {
  import opened Text
  import opened MimeTree

  /** The part is below the container. */
  predicate IsWithinContainer(partPath: string, containerPath: string) {
    containerPath + "." <= partPath
  }

  /** The position of the last c, or -1. */
  function LastIndex(s: string, c: char): (n: int)
    ensures -1 <= n < |s|
  {
    if s == [] then -1 else if s[|s| - 1] == c then |s| - 1 else LastIndex(s[..|s| - 1], c)
  }

  function ParentPath(partPath: string): string {
    var n := LastIndex(partPath, '.');
    if n >= 0 then partPath[..n] else ""
  }

  lemma {:induction false} ParentOfChild(path: string, digits: string)
    requires Free(digits, '.')
    ensures ParentPath(path + "." + digits) == path
  {
    LastDot(path, digits);
    assert (path + "." + digits)[..|path|] == path;
  }

  lemma {:induction false} LastDot(path: string, digits: string)
    requires Free(digits, '.')
    ensures LastIndex(path + "." + digits, '.') == |path|
  {
    var s := path + "." + digits;
    if digits != [] {
      var front := digits[..|digits| - 1];
      LastDot(path, front);
      assert s[|s| - 1] == digits[|digits| - 1] && s[..|s| - 1] == path + "." + front;
    }
  }

  // -------------------------------------------------------------------- below

  /** The path p itself or one below it. */
  predicate Under(q: string, p: string) {
    q == p || IsWithinContainer(q, p)
  }

  /** What follows a child's number in a path below the child. */
  lemma UnderChild(q: string, path: string, i: nat) returns (x: string)
    requires Under(q, ChildPath(path, i))
    ensures IsWithinContainer(q, path)
    ensures q + "." == path + "." + (Decimal(i) + ['.'] + x)
  {
    var child := ChildPath(path, i);
    if q == child {
      x := "";
      assert q + "." == path + "." + (Decimal(i) + ['.'] + x);
    } else {
      var rest := q[|child| + 1..];
      assert q == child + "." + rest;
      x := rest + ".";
      assert q + "." == path + "." + (Decimal(i) + ['.'] + x);
    }
  }

  /** No path is below two children of one container. */
  lemma UnderOneChild(q: string, path: string, i: nat, j: nat)
    requires Under(q, ChildPath(path, i)) && Under(q, ChildPath(path, j))
    ensures i == j
  {
    var x := UnderChild(q, path, i);
    var y := UnderChild(q, path, j);
    var head := path + ".";
    var a, b := Decimal(i) + ['.'] + x, Decimal(j) + ['.'] + y;
    assert (head + a)[|head|..] == a && (head + b)[|head|..] == b;
    FirstSeparator(Decimal(i), x, Decimal(j), y, '.');
    DecimalInjective(i, j);
  }

  lemma UnderTrans(q: string, p: string, r: string)
    requires Under(q, p) && Under(p, r)
    ensures Under(q, r)
  {
    if q != p && p != r {
      assert q[..|p|] == p && q[..|r| + 1] == r + ".";
    }
  }

  lemma WithinUnder(q: string, p: string, r: string)
    requires IsWithinContainer(q, p) && Under(p, r)
    ensures Under(q, r)
  {
    UnderTrans(q, p, r);
  }

  /** Every path is under the given one. */
  ghost predicate AllUnder(atts: seq<Attachment>, p: string) {
    forall k :: 0 <= k < |atts| ==> Under(atts[k].path, p)
  }

  /** The path is under a child of the given one numbered i or higher. */
  ghost predicate BelowFrom(q: string, p: string, i: nat) {
    exists j: nat :: i <= j && Under(q, ChildPath(p, j))
  }

  /** Every path is. */
  ghost predicate AllBelow(atts: seq<Attachment>, p: string, i: nat) {
    forall k :: 0 <= k < |atts| ==> BelowFrom(atts[k].path, p, i)
  }

  lemma {:induction false} LeavesUnder(t: Part, path: string, parent: string)
    ensures AllUnder(Leaves(t, path, parent), path)
    ensures t.Multi? ==> AllBelow(Leaves(t, path, parent), path, 1)
    decreases t
  {
    match t
    case Leaf(_, _, _, _) =>
    case Multi(_, mediaType, _, parts) =>
      PartsBelow(parts, path, 1, mediaType);
      var atts := Leaves(t, path, parent);
      forall k | 0 <= k < |atts|
        ensures Under(atts[k].path, path)
      {
        var j: nat :| 1 <= j && Under(atts[k].path, ChildPath(path, j));
        var x := UnderChild(atts[k].path, path, j);
      }
    case Nested(_, _, inner) =>
      LeavesUnder(inner, path, "");
  }

  lemma {:induction false} PartsBelow(ps: Parts, path: string, i: nat, parent: string)
    ensures AllBelow(PartsLeaves(ps, path, i, parent), path, i)
    decreases ps
  {
    if ps.More? {
      LeavesUnder(ps.head, ChildPath(path, i), parent);
      PartsBelow(ps.rest, path, i + 1, parent);
    }
  }

  // ------------------------------------------------------------- distinctness

  ghost predicate DistinctPaths(atts: seq<Attachment>) {
    forall j, k :: 0 <= j < k < |atts| ==> atts[j].path != atts[k].path
  }

  /** No two leaves of a message have the same path. */
  lemma {:induction false} LeafPathsDistinct(t: Part, path: string, parent: string)
    ensures DistinctPaths(Leaves(t, path, parent))
    decreases t
  {
    match t
    case Leaf(_, _, _, _) =>
    case Multi(_, mediaType, _, parts) => PartsPathsDistinct(parts, path, 1, mediaType);
    case Nested(_, _, inner) => LeafPathsDistinct(inner, path, "");
  }

  lemma {:induction false} PartsPathsDistinct(ps: Parts, path: string, i: nat, parent: string)
    ensures DistinctPaths(PartsLeaves(ps, path, i, parent))
    decreases ps
  {
    if ps.More? {
      LeafPathsDistinct(ps.head, ChildPath(path, i), parent);
      PartsPathsDistinct(ps.rest, path, i + 1, parent);
      LeavesUnder(ps.head, ChildPath(path, i), parent);
      PartsBelow(ps.rest, path, i + 1, parent);
      Apart(Leaves(ps.head, ChildPath(path, i), parent), PartsLeaves(ps.rest, path, i + 1, parent), path, i);
    }
  }

  /** Leaves under one child and leaves under later ones have different paths. */
  lemma Apart(a: seq<Attachment>, b: seq<Attachment>, path: string, i: nat)
    requires AllUnder(a, ChildPath(path, i)) && AllBelow(b, path, i + 1)
    ensures forall j, k :: 0 <= j < |a| && 0 <= k < |b| ==> a[j].path != b[k].path
  {
    forall j, k | 0 <= j < |a| && 0 <= k < |b|
      ensures a[j].path != b[k].path
    {
      var m: nat :| i + 1 <= m && Under(b[k].path, ChildPath(path, m));
      if a[j].path == b[k].path {
        UnderOneChild(a[j].path, path, i, m);
      }
    }
  }

  // ----------------------------------------------------------------- ancestry

  /** A multipart of the message: its path and type, and which leaves are in its subtree,
      counting leaves in document order. */
  datatype Container = Container(path: string, mediaType: string, lo: nat, hi: nat)

  /** The multiparts of a subtree whose first leaf has number n. */
  function Containers(t: Part, path: string, parent: string, n: nat): seq<Container>
    decreases t
  {
    match t
    case Leaf(_, _, _, _) => []
    case Multi(_, mediaType, _, parts) =>
      [Container(path, mediaType, n, n + |Leaves(t, path, parent)|)] + PartsContainers(parts, path, 1, mediaType, n)
    case Nested(_, _, inner) => Containers(inner, path, "", n)
  }

  function PartsContainers(ps: Parts, path: string, i: nat, parent: string, n: nat): seq<Container>
    decreases ps
  {
    if ps.End? then []
    else
      Containers(ps.head, ChildPath(path, i), parent, n)
      + PartsContainers(ps.rest, path, i + 1, parent, n + |Leaves(ps.head, ChildPath(path, i), parent)|)
  }

  /** The container's interval says which of the leaves, numbered from n, are below it. */
  ghost predicate Locates(c: Container, atts: seq<Attachment>, n: nat) {
    && n <= c.lo <= c.hi <= n + |atts|
    && forall k :: 0 <= k < |atts| ==> (IsWithinContainer(atts[k].path, c.path) <==> c.lo <= n + k < c.hi)
  }

  ghost predicate AllLocate(cs: seq<Container>, atts: seq<Attachment>, n: nat) {
    forall m :: 0 <= m < |cs| ==> Locates(cs[m], atts, n)
  }

  ghost predicate ContainersUnder(cs: seq<Container>, p: string) {
    forall m :: 0 <= m < |cs| ==> Under(cs[m].path, p)
  }

  ghost predicate ContainersBelow(cs: seq<Container>, p: string, i: nat) {
    forall m :: 0 <= m < |cs| ==> BelowFrom(cs[m].path, p, i)
  }

  lemma {:induction false} ContainersAreUnder(t: Part, path: string, parent: string, n: nat)
    ensures ContainersUnder(Containers(t, path, parent, n), path)
    decreases t
  {
    match t
    case Leaf(_, _, _, _) =>
    case Multi(_, mediaType, _, parts) =>
      PartsContainersBelow(parts, path, 1, mediaType, n);
      var cs := PartsContainers(parts, path, 1, mediaType, n);
      forall m | 0 <= m < |cs|
        ensures Under(cs[m].path, path)
      {
        var j: nat :| 1 <= j && Under(cs[m].path, ChildPath(path, j));
        var x := UnderChild(cs[m].path, path, j);
      }
    case Nested(_, _, inner) =>
      ContainersAreUnder(inner, path, "", n);
  }

  lemma {:induction false} PartsContainersBelow(ps: Parts, path: string, i: nat, parent: string, n: nat)
    ensures ContainersBelow(PartsContainers(ps, path, i, parent, n), path, i)
    decreases ps
  {
    if ps.More? {
      var next := n + |Leaves(ps.head, ChildPath(path, i), parent)|;
      ContainersAreUnder(ps.head, ChildPath(path, i), parent, n);
      PartsContainersBelow(ps.rest, path, i + 1, parent, next);
      BelowTogether(Containers(ps.head, ChildPath(path, i), parent, n),
                    PartsContainers(ps.rest, path, i + 1, parent, next), path, i);
    }
  }

  lemma BelowTogether(cs: seq<Container>, ds: seq<Container>, path: string, i: nat)
    requires ContainersUnder(cs, ChildPath(path, i)) && ContainersBelow(ds, path, i + 1)
    ensures ContainersBelow(cs + ds, path, i)
  {
    var all := cs + ds;
    forall m | 0 <= m < |all|
      ensures BelowFrom(all[m].path, path, i)
    {
      if m < |cs| {
        assert Under(all[m].path, ChildPath(path, i));
      } else {
        var j: nat :| i + 1 <= j && Under(ds[m - |cs|].path, ChildPath(path, j));
        assert Under(all[m].path, ChildPath(path, j));
      }
    }
  }

  /** A leaf under one child is not within a container under another. */
  lemma NotAcross(q: string, c: string, path: string, i: nat, j: nat)
    requires Under(q, ChildPath(path, i)) && Under(c, ChildPath(path, j)) && i != j
    ensures !IsWithinContainer(q, c)
  {
    if IsWithinContainer(q, c) {
      WithinUnder(q, c, ChildPath(path, j));
      UnderOneChild(q, path, i, j);
    }
  }

  /** Path prefixes are ancestry: in every message, the leaves below a multipart are exactly
      those whose path starts with the multipart's path and a dot. */
  lemma {:induction false} ContainersLocate(t: Part, path: string, parent: string, n: nat)
    ensures AllLocate(Containers(t, path, parent, n), Leaves(t, path, parent), n)
    decreases t
  {
    match t
    case Leaf(_, _, _, _) =>
    case Multi(_, mediaType, _, parts) =>
      PartsLocate(parts, path, 1, mediaType, n);
      PartsBelow(parts, path, 1, mediaType);
      var atts := Leaves(t, path, parent);
      forall k | 0 <= k < |atts|
        ensures IsWithinContainer(atts[k].path, path)
      {
        var j: nat :| 1 <= j && Under(atts[k].path, ChildPath(path, j));
        var x := UnderChild(atts[k].path, path, j);
      }
    case Nested(_, _, inner) =>
      ContainersLocate(inner, path, "", n);
  }

  lemma {:induction false} PartsLocate(ps: Parts, path: string, i: nat, parent: string, n: nat)
    ensures AllLocate(PartsContainers(ps, path, i, parent, n), PartsLeaves(ps, path, i, parent), n)
    decreases ps
  {
    if ps.More? {
      var child := ChildPath(path, i);
      var a, b := Leaves(ps.head, child, parent), PartsLeaves(ps.rest, path, i + 1, parent);
      var cs, ds := Containers(ps.head, child, parent, n), PartsContainers(ps.rest, path, i + 1, parent, n + |a|);
      ContainersLocate(ps.head, child, parent, n);
      PartsLocate(ps.rest, path, i + 1, parent, n + |a|);
      HeadApart(ps, path, i, parent, n);
      LocatedTogether(a, b, cs, ds, path, i, n);
    }
  }

  /** What is in the first part stands under its number, and the rest under later ones. */
  lemma HeadApart(ps: Parts, path: string, i: nat, parent: string, n: nat)
    requires ps.More?
    ensures AllUnder(Leaves(ps.head, ChildPath(path, i), parent), ChildPath(path, i))
    ensures AllBelow(PartsLeaves(ps.rest, path, i + 1, parent), path, i + 1)
    ensures ContainersUnder(Containers(ps.head, ChildPath(path, i), parent, n), ChildPath(path, i))
    ensures ContainersBelow(PartsContainers(ps.rest, path, i + 1, parent,
                                            n + |Leaves(ps.head, ChildPath(path, i), parent)|), path, i + 1)
  {
    LeavesUnder(ps.head, ChildPath(path, i), parent);
    PartsBelow(ps.rest, path, i + 1, parent);
    ContainersAreUnder(ps.head, ChildPath(path, i), parent, n);
    PartsContainersBelow(ps.rest, path, i + 1, parent, n + |Leaves(ps.head, ChildPath(path, i), parent)|);
  }

  lemma LocatedTogether(a: seq<Attachment>, b: seq<Attachment>, cs: seq<Container>, ds: seq<Container>,
                        path: string, i: nat, n: nat)
    requires AllLocate(cs, a, n) && AllLocate(ds, b, n + |a|)
    requires AllUnder(a, ChildPath(path, i)) && AllBelow(b, path, i + 1)
    requires ContainersUnder(cs, ChildPath(path, i)) && ContainersBelow(ds, path, i + 1)
    ensures AllLocate(cs + ds, a + b, n)
  {
    forall m | 0 <= m < |cs|
      ensures Locates(cs[m], a + b, n)
    {
      assert Locates(cs[m], a, n);
      forall k | 0 <= k < |b|
        ensures !IsWithinContainer(b[k].path, cs[m].path)
      {
        var j: nat :| i + 1 <= j && Under(b[k].path, ChildPath(path, j));
        NotAcross(b[k].path, cs[m].path, path, j, i);
      }
    }
    forall m | 0 <= m < |ds|
      ensures Locates(ds[m], a + b, n)
    {
      assert Locates(ds[m], b, n + |a|);
      var j: nat :| i + 1 <= j && Under(ds[m].path, ChildPath(path, j));
      forall k | 0 <= k < |a|
        ensures !IsWithinContainer(a[k].path, ds[m].path)
      {
        NotAcross(a[k].path, ds[m].path, path, i, j);
      }
    }
  }

  // -------------------------------------------------------------- inline assets

  /** The container is the multipart/related that the path's parent names, with the leaf of the
      given number in its subtree. */
  predicate ParentOf(c: Container, att: Attachment, number: nat) {
    c.mediaType == RELATED && c.path == ParentPath(att.path) && c.lo <= number < c.hi
  }

  ghost predicate HasParent(cs: seq<Container>, att: Attachment, number: nat) {
    exists m :: 0 <= m < |cs| && ParentOf(cs[m], att, number)
  }

  lemma HasParentIn(a: seq<Container>, b: seq<Container>, att: Attachment, number: nat)
    requires HasParent(a, att, number) || HasParent(b, att, number)
    ensures HasParent(a + b, att, number)
  {
    if HasParent(a, att, number) {
      var m :| 0 <= m < |a| && ParentOf(a[m], att, number);
      assert (a + b)[m] == a[m];
    } else {
      var m :| 0 <= m < |b| && ParentOf(b[m], att, number);
      assert (a + b)[|a| + m] == b[m];
    }
  }

  /** The parent path of an inline asset is the path of the multipart/related it stands in. */
  lemma {:induction false} InlineAssetParent(t: Part, path: string, parent: string, n: nat, k: nat)
    requires k < |Leaves(t, path, parent)| && Leaves(t, path, parent)[k].inlineAsset
    requires !(t.Leaf? && parent == RELATED)
    ensures HasParent(Containers(t, path, parent, n), Leaves(t, path, parent)[k], n + k)
    decreases t, 0
  {
    match t
    case Leaf(_, _, _, _) =>
    case Multi(_, mediaType, _, parts) =>
      PartsInline(parts, path, 1, mediaType, n, k);
      var att := Leaves(t, path, parent)[k];
      var own, cs := Containers(t, path, parent, n)[0], PartsContainers(parts, path, 1, mediaType, n);
      if DirectChild(att, path) && mediaType == RELATED {
        var i: nat :| att.path == ChildPath(path, i);
        ParentOfChild(path, Decimal(i));
        assert ParentOf([own][0], att, n + k);
      }
      HasParentIn([own], cs, att, n + k);
    case Nested(_, _, inner) =>
      InlineAssetParent(inner, path, "", n, k);
  }

  ghost predicate DirectChild(att: Attachment, path: string) {
    exists i: nat :: att.path == ChildPath(path, i)
  }

  lemma {:induction false} PartsInline(ps: Parts, path: string, i: nat, parent: string, n: nat, k: nat)
    requires k < |PartsLeaves(ps, path, i, parent)| && PartsLeaves(ps, path, i, parent)[k].inlineAsset
    ensures Placed(PartsContainers(ps, path, i, parent, n), PartsLeaves(ps, path, i, parent)[k], n + k, path, parent)
    decreases ps, 0
  {
    var child := ChildPath(path, i);
    var a, b := Leaves(ps.head, child, parent), PartsLeaves(ps.rest, path, i + 1, parent);
    var cs, ds := Containers(ps.head, child, parent, n), PartsContainers(ps.rest, path, i + 1, parent, n + |a|);
    if k < |a| {
      HeadInline(ps.head, path, i, parent, n, k);
    } else {
      PartsInline(ps.rest, path, i + 1, parent, n + |a|, k - |a|);
    }
    InlineAmong(cs, ds, a, b, path, parent, n, k);
  }

  /** The attachment's parent is among the containers, or it stands directly at the path. */
  ghost predicate Placed(cs: seq<Container>, att: Attachment, number: nat, path: string, parent: string) {
    HasParent(cs, att, number) || (parent == RELATED && DirectChild(att, path))
  }

  lemma InlineAmong(cs: seq<Container>, ds: seq<Container>, a: seq<Attachment>, b: seq<Attachment>, path: string,
                    parent: string, n: nat, k: nat)
    requires k < |a| + |b|
    requires if k < |a| then Placed(cs, a[k], n + k, path, parent) else Placed(ds, b[k - |a|], n + k, path, parent)
    ensures Placed(cs + ds, (a + b)[k], n + k, path, parent)
  {
    var att := (a + b)[k];
    if HasParent(cs, att, n + k) || HasParent(ds, att, n + k) {
      HasParentIn(cs, ds, att, n + k);
    }
  }

  lemma HeadInline(head: Part, path: string, i: nat, parent: string, n: nat, k: nat)
    requires var a := Leaves(head, ChildPath(path, i), parent); k < |a| && a[k].inlineAsset
    ensures Placed(Containers(head, ChildPath(path, i), parent, n), Leaves(head, ChildPath(path, i), parent)[k],
                   n + k, path, parent)
    decreases head, 1
  {
    if head.Leaf? && parent == RELATED {
      assert Leaves(head, ChildPath(path, i), parent)[k].path == ChildPath(path, i);
    } else {
      InlineAssetParent(head, ChildPath(path, i), parent, n, k);
    }
  }

  /** The subtree an inline asset is verified against: its parent path names a multipart/related
      around it, and the leaves within that path are exactly that multipart's leaves. */
  lemma InlineScope(root: Part, k: nat) returns (c: Container)
    requires k < |Leaves(root, "0", "")| && Leaves(root, "0", "")[k].inlineAsset
    ensures var atts := Leaves(root, "0", "");
            && c in Containers(root, "0", "", 0) && ParentOf(c, atts[k], k)
            && forall j :: 0 <= j < |atts| ==>
                 (IsWithinContainer(atts[j].path, ParentPath(atts[k].path)) <==> c.lo <= j < c.hi)
  {
    var cs := Containers(root, "0", "", 0);
    InlineAssetParent(root, "0", "", 0, k);
    ContainersLocate(root, "0", "", 0);
    var m :| 0 <= m < |cs| && ParentOf(cs[m], Leaves(root, "0", "")[k], 0 + k);
    assert Locates(cs[m], Leaves(root, "0", ""), 0);
    c := cs[m];
  }
}
