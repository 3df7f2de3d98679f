/** Document order on nodes and attributes, and the order in which the axes deliver them. */
module DocOrder {
  import opened Tree
  import opened Preorder
  import opened AxisSets
  import opened Axes
  import opened Perm

  function AttrCount(t: Tree, p: Path): nat {
    if Has(t, p) then |Get(t, p).attrs| else 0
  }

  /** The place of a node: an attribute stands before the children of its element, in attribute order. */
  function Key(t: Tree, x: XNode): Path {
    match x
    case Node(p) => p
    case Attr(p, k) => p + [if k < AttrCount(t, p) then k - AttrCount(t, p) else -1 - k]
  }

  /** Document order. Nodes with the same place can only be outside the document. */
  predicate DocLess(t: Tree, x: XNode, y: XNode) {
    Lex(Key(t, x), Key(t, y)) || (Key(t, x) == Key(t, y) && x.Node? && y.Attr?)
  }

  lemma KeyInjective(t: Tree, x: XNode, y: XNode)
    requires Key(t, x) == Key(t, y) && x.Node? == y.Node?
    ensures x == y
  {
    if x.Attr? {
      var kx, ky := Key(t, x), Key(t, y);
      assert kx[..|kx| - 1] == x.owner && ky[..|ky| - 1] == y.owner;
      assert kx[|x.owner|] == ky[|y.owner|];
    }
  }

  lemma {:induction false} PlacesCount(t: Tree, p: Path)
    requires Has(t, p)
    ensures forall i :: 0 <= i < |p| ==> p[i] >= 0
  {
    if p != [] {
      PlacesCount(t.children[p[0]], p[1..]);
      assert forall i :: 0 < i < |p| ==> p[i] == p[1..][i - 1];
    }
  }

  lemma AttrApart(t: Tree, p: Path, a: XNode)
    requires Has(t, p) && In(t, a) && a.Attr?
    ensures Key(t, a) != p
  {
    PlacesCount(t, p);
    var k := Key(t, a);
    assert k[|k| - 1] < 0;
  }

  /** In the document the place identifies the node. */
  lemma KeyIdentifies(t: Tree, x: XNode, y: XNode)
    requires In(t, x) && In(t, y) && Key(t, x) == Key(t, y)
    ensures x == y
  {
    hide Key, Has;
    if x.Node? && y.Attr? {
      AttrApart(t, x.path, y);
    } else if x.Attr? && y.Node? {
      AttrApart(t, y.path, x);
    } else {
      KeyInjective(t, x, y);
    }
    assert x.Node? ==> Key(t, x) == x.path by { NodeKey(t, x); }
    assert y.Node? ==> Key(t, y) == y.path by { NodeKey(t, y); }
  }

  lemma NodeKey(t: Tree, x: XNode)
    ensures x.Node? ==> Key(t, x) == x.path
  {
  }

  lemma DocOrderStrict(t: Tree)
    ensures StrictOrder((x, y) => DocLess(t, x, y))
  {
    var less := (x, y) => DocLess(t, x, y);
    forall x
      ensures !less(x, x)
    {
      LexIrreflexive(Key(t, x));
    }
    forall x, y
      ensures x == y || less(x, y) || less(y, x)
    {
      LexTotal(Key(t, x), Key(t, y));
      if Key(t, x) == Key(t, y) && x.Node? == y.Node? {
        KeyInjective(t, x, y);
      }
    }
    forall x, y, z | less(x, y) && less(y, z)
      ensures less(x, z)
    {
      if Lex(Key(t, x), Key(t, y)) && Lex(Key(t, y), Key(t, z)) {
        LexTrans(Key(t, x), Key(t, y), Key(t, z));
      }
    }
  }

  // ---------- The comparator ----------

  /** The node whose position decides: the element of an attribute, or the node itself. */
  function Base(x: XNode): Path {
    if x.Attr? then x.owner else x.path
  }

  /** Walk along the attributes from x on. */
  method AttrReaches(t: Tree, x: XNode, y: XNode) returns (found: bool)
    requires In(t, x) && In(t, y) && x.Attr? && y.Attr? && x.owner == y.owner
    ensures found <==> x.index <= y.index
  {
    var k := x.index;
    while k < |Get(t, x.owner).attrs|
      invariant x.index <= k && (x.index <= y.index ==> k <= y.index)
    {
      if k == y.index {
        return true;
      }
      k := k + 1;
    }
    return false;
  }

  /**
   * The slow path of the comparator decides document order; asked about an attribute and itself it says
   * yes, because the walk along the attributes starts at the attribute.
   */
  method CompareOrder(t: Tree, x: XNode, y: XNode) returns (less: bool)
    requires In(t, x) && In(t, y)
    ensures less <==> DocLess(t, x, y) || (x == y && x.Attr?)
  {
    hide Lex, Has, Get;
    if x.Attr? && y.Attr? && x.owner == y.owner {
      less := AttrReaches(t, x, y);
      SameOwner(t, x, y);
      return;
    }
    if x.Attr? && y.Node? && x.owner == y.path {
      OwnAttr(t, y.path, x);
      return false;
    }
    if x.Node? && y.Attr? && y.owner == x.path {
      OwnAttr(t, x.path, y);
      return true;
    }
    BasesDecide(t, x, y);
    var ln, rn := Base(x), Base(y);
    if ln == rn {
      return false;
    }
    var lh := NodeHeight(ln);
    var rh := NodeHeight(rn);
    less := NodeIsBefore(t, ln, lh, rn, rh);
  }

  lemma SameOwner(t: Tree, x: XNode, y: XNode)
    requires In(t, x) && In(t, y) && x.Attr? && y.Attr? && x.owner == y.owner
    ensures DocLess(t, x, y) <==> x.index < y.index
    ensures x == y <==> x.index == y.index
  {
    var n := |x.owner|;
    var kx, ky := Key(t, x), Key(t, y);
    assert kx[..n] == x.owner && ky[..n] == y.owner;
    if x.index != y.index {
      LexAt(kx, ky, n);
    } else {
      LexIrreflexive(kx);
    }
  }

  lemma OwnAttr(t: Tree, p: Path, a: XNode)
    requires a.Attr? && a.owner == p
    ensures DocLess(t, Node(p), a) && !DocLess(t, a, Node(p)) && Node(p) != a
  {
    LexPrefix(p, Key(t, a));
  }

  /** Attributes come after their element, in their own order, and before everything below it or after it. */
  lemma AttributePlaces(t: Tree, a: XNode, y: XNode)
    requires In(t, a) && a.Attr? && In(t, y)
    ensures y == Node(a.owner) ==> DocLess(t, y, a)
    ensures y.Attr? && y.owner == a.owner ==> (DocLess(t, a, y) <==> a.index < y.index)
    ensures y.Node? && a.owner < y.path ==> DocLess(t, a, y)
    ensures Lex(a.owner, Base(y)) ==> DocLess(t, a, y)
  {
    hide Lex, Has, Get;
    if y == Node(a.owner) {
      OwnAttr(t, a.owner, a);
    }
    if y.Attr? && y.owner == a.owner {
      SameOwner(t, a, y);
    }
    if y.Node? && a.owner < y.path {
      LexPrefix(a.owner, y.path);
    }
    if Lex(a.owner, Base(y)) {
      LexIrreflexive(a.owner);
      BasesDecide(t, a, y);
    }
  }

  /** Two nodes that are not an element and its own attribute, or attributes of one element, compare as their bases. */
  lemma BasesDecide(t: Tree, x: XNode, y: XNode)
    requires In(t, x) && In(t, y)
    requires !(x.Attr? && y.Attr? && x.owner == y.owner)
    requires !(x.Attr? && y.Node? && x.owner == y.path) && !(x.Node? && y.Attr? && y.owner == x.path)
    ensures DocLess(t, x, y) <==> Base(x) != Base(y) && Lex(Base(x), Base(y))
    ensures x == y ==> !x.Attr?
  {
    hide Has, Get, Lex;
    var px, py := Base(x), Base(y);
    if px == py {
      assert x == y && x.Node?;
      LexIrreflexive(px);
    } else {
      if Key(t, x) == Key(t, y) {
        KeyIdentifies(t, x, y);
      }
      PlacesCount(t, px);
      PlacesCount(t, py);
      KeyOfBase(t, x);
      KeyOfBase(t, y);
      BaseOrder(px, Key(t, x), py, Key(t, y));
    }
  }

  lemma KeyOfBase(t: Tree, x: XNode)
    requires In(t, x)
    ensures Key(t, x) == Base(x) ||
      (|Key(t, x)| == |Base(x)| + 1 && Key(t, x)[..|Base(x)|] == Base(x) && Key(t, x)[|Base(x)|] < 0)
  {
  }

  lemma PrefixOfKey(px: Path, kx: Path, py: Path)
    requires kx == px || (|kx| == |px| + 1 && kx[..|px|] == px && kx[|px|] < 0)
    requires forall i :: 0 <= i < |py| ==> py[i] >= 0
    ensures py <= kx ==> py <= px
  {
    if py <= kx {
      assert forall i :: 0 <= i < |py| ==> py[i] == kx[i];
      var n := if |py| <= |px| then |py| else |px|;
      assert px[..n] == py[..n];
    }
  }

  /** Places of attributes lie between the place of the element and those of its children. */
  lemma BaseOrder(px: Path, kx: Path, py: Path, ky: Path)
    requires px != py && (forall i :: 0 <= i < |px| ==> px[i] >= 0) && (forall i :: 0 <= i < |py| ==> py[i] >= 0)
    requires kx == px || (|kx| == |px| + 1 && kx[..|px|] == px && kx[|px|] < 0)
    requires ky == py || (|ky| == |py| + 1 && ky[..|py|] == py && ky[|py|] < 0)
    ensures Lex(kx, ky) <==> Lex(px, py)
  {
    hide Lex;
    if px <= py {
      LexPrefix(px, py);
      PrefixOrder(px, kx, py, ky);
    } else if py <= px {
      LexPrefix(py, px);
      PrefixOrder(py, ky, px, kx);
      LexTotal(kx, ky);
    } else {
      LexOutside(px, kx, py);
      PrefixOfKey(px, kx, py);
      LexOutside(py, ky, kx);
    }
  }

  lemma PrefixOrder(px: Path, kx: Path, py: Path, ky: Path)
    requires px < py && forall i :: 0 <= i < |py| ==> py[i] >= 0
    requires kx == px || (|kx| == |px| + 1 && kx[..|px|] == px && kx[|px|] < 0)
    requires py <= ky
    ensures Lex(kx, ky)
  {
    var n := |px|;
    if kx == px {
      LexPrefix(kx, ky);
    } else {
      assert ky[..n] == px && ky[n] == py[n];
      LexAt(kx, ky, n);
    }
  }

  // ---------- The order of an axis ----------

  ghost predicate Ascending(t: Tree, s: seq<XNode>) {
    forall i, j :: 0 <= i < j < |s| ==> DocLess(t, s[i], s[j])
  }

  ghost predicate Descending(t: Tree, s: seq<XNode>) {
    forall i, j :: 0 <= i < j < |s| ==> DocLess(t, s[j], s[i])
  }

  predicate AllIn(t: Tree, s: seq<XNode>) {
    forall i :: 0 <= i < |s| ==> In(t, s[i])
  }

  lemma {:induction false} PickedMembers(t: Tree, test: Test, ps: seq<Path>)
    ensures AllIn(t, Picked(t, test, ps))
    ensures forall x :: x in Picked(t, test, ps) <==>
      x.Node? && x.path in ps && Has(t, x.path) && Passes(test, Get(t, x.path))
  {
    hide Passes;
    if ps != [] {
      PickedMembers(t, test, ps[1..]);
    }
  }

  lemma {:induction false} PickedOrder(t: Tree, test: Test, ps: seq<Path>)
    ensures Increasing(ps) ==> Ascending(t, Picked(t, test, ps))
    ensures Decreasing(ps) ==> Descending(t, Picked(t, test, ps))
  {
    hide Lex, Has, Get, Passes;
    if ps != [] {
      PickedOrder(t, test, ps[1..]);
      PickedMembers(t, test, ps[1..]);
      var first, rest := Kept(t, test, ps[0]), Picked(t, test, ps[1..]);
      assert forall i :: 0 <= i < |rest| ==> rest[i] in rest;
      assert forall q :: q in ps[1..] ==> exists i :: 0 < i < |ps| && ps[i] == q;
    }
  }

  lemma {:induction false} PickedAttrsOrder(t: Tree, test: Test, p: Path, k: nat)
    requires Has(t, p) && k <= |Get(t, p).attrs|
    ensures AllIn(t, PickedAttrs(Get(t, p).attrs, test, p, k)) && Ascending(t, PickedAttrs(Get(t, p).attrs, test, p, k))
    ensures forall x :: x in PickedAttrs(Get(t, p).attrs, test, p, k) ==> x.Attr? && x.owner == p && k <= x.index
    decreases |Get(t, p).attrs| - k
  {
    hide Has, Get, DocLess, PassesAttr;
    var names := Get(t, p).attrs;
    if k < |names| {
      PickedAttrsOrder(t, test, p, k + 1);
      var rest := PickedAttrs(names, test, p, k + 1);
      forall x | x in rest
        ensures DocLess(t, Attr(p, k), x)
      {
        SameOwner(t, Attr(p, k), x);
      }
      assert forall i :: 0 <= i < |rest| ==> rest[i] in rest;
    }
  }

  predicate IsReverse(axis: Axis) {
    axis == AxisAncestor || axis == AxisAncestorOrSelf || axis == AxisPreceding || axis == AxisPrecedingSibling
  }

  ghost predicate InAxisOrder(t: Tree, axis: Axis, s: seq<XNode>) {
    AllIn(t, s) && if IsReverse(axis) then Descending(t, s) else Ascending(t, s)
  }

  lemma PickedInOrder(t: Tree, axis: Axis, test: Test, ps: seq<Path>)
    requires if IsReverse(axis) then Decreasing(ps) else Increasing(ps)
    ensures InAxisOrder(t, axis, Picked(t, test, ps))
  {
    hide Picked;
    PickedMembers(t, test, ps);
    PickedOrder(t, test, ps);
  }

  lemma SelfAndAncestors(p: Path)
    ensures Decreasing([p] + Ancestors(p))
  {
    AncestorsAre(p);
    forall a | a in Ancestors(p)
      ensures Lex(a, p)
    {
      LexPrefix(a, p);
    }
    DecreasingConcat([p], Ancestors(p));
  }

  lemma SelfAndDescendants(t: Tree, p: Path)
    requires Has(t, p)
    ensures Increasing([p] + Descendants(t, p))
  {
    DescendantsAre(t, p);
    forall a | a in Descendants(t, p)
      ensures Lex(p, a)
    {
      LexPrefix(p, a);
    }
    IncreasingConcat([p], Descendants(t, p));
  }

  lemma DescendantsThenFollowing(t: Tree, p: Path)
    requires Has(t, p)
    ensures Increasing(Descendants(t, p) + Following(t, p))
  {
    DescendantsAre(t, p);
    AfterAre(t, [], p);
    forall a, b | a in Descendants(t, p) && b in Following(t, p)
      ensures Lex(a, b)
    {
      LexOutside(p, a, b);
    }
    IncreasingConcat(Descendants(t, p), Following(t, p));
  }

  lemma RangesOrdered(q: Path, i: int, j: int)
    ensures Increasing(Range(q, i, j)) && Decreasing(RangeBack(q, i))
  {
    hide Range, RangeBack;
    forall a: int, b: int | a < b
      ensures Lex(q + [a], q + [b])
    {
      assert (q + [a])[..|q|] == q == (q + [b])[..|q|];
      LexAt(q + [a], q + [b], |q|);
    }
  }

  /** The attribute itself and its element's ancestors, nearest first. */
  lemma AttrAndAncestors(t: Tree, test: Test, x: XNode)
    requires In(t, x) && x.Attr?
    ensures InAxisOrder(t, AxisAncestorOrSelf, SelfAttr(t, test, x) + Picked(t, test, [x.owner] + Ancestors(x.owner)))
  {
    hide Picked, Lex, Has, Get, DeclaresNamespace;
    var p := x.owner;
    SelfAndAncestors(p);
    PickedInOrder(t, AxisAncestorOrSelf, test, [p] + Ancestors(p));
    PickedMembers(t, test, [p] + Ancestors(p));
    var rest := Picked(t, test, [p] + Ancestors(p));
    AncestorsAre(p);
    forall y | y in rest
      ensures DocLess(t, y, x)
    {
      if y.path != p {
        LexPrefix(y.path, Key(t, x));
      } else {
        OwnAttr(t, p, x);
      }
    }
    assert forall i :: 0 <= i < |rest| ==> rest[i] in rest;
  }

  /** Every axis delivers its nodes in document order, or in reverse document order, each once. */
  lemma AxisOrder(t: Tree, axis: Axis, test: Test, x: XNode)
    requires In(t, x)
    ensures InAxisOrder(t, axis, AxisNodes(t, axis, test, x))
  {
    hide Picked, PickedAttrs, Lex, Has, Get, SelfAttr, InAxisOrder, Preorder.Increasing, Preorder.Decreasing, Range,
        RangeBack;
    if x.Attr? {
      AttrAxisOrder(t, axis, test, x);
    } else {
      NodeAxisOrder(t, axis, test, x.path);
    }
  }

  lemma SingleOrder(t: Tree, axis: Axis, s: seq<XNode>)
    requires |s| <= 1 && AllIn(t, s)
    ensures InAxisOrder(t, axis, s)
  {
  }

  lemma ShortLists(ps: seq<Path>)
    requires |ps| <= 1
    ensures Increasing(ps) && Decreasing(ps)
  {
  }

  lemma AttrAxisOrder(t: Tree, axis: Axis, test: Test, x: XNode)
    requires In(t, x) && x.Attr?
    ensures InAxisOrder(t, axis, AxisNodes(t, axis, test, x))
  {
    hide Picked, PickedAttrs, Lex, Has, Get, InAxisOrder, Increasing, Decreasing, Following, Preceding, Descendants,
        Ancestors;
    var p := x.owner;
    match axis {
      case AxisAncestor =>
        SelfAndAncestors(p);
        PickedInOrder(t, axis, test, [p] + Ancestors(p));
      case AxisAncestorOrSelf => AttrAndAncestors(t, test, x);
      case AxisFollowing =>
        DescendantsThenFollowing(t, p);
        PickedInOrder(t, axis, test, Descendants(t, p) + Following(t, p));
      case AxisPreceding =>
        PrecedingDecreasing(t, p);
        PickedInOrder(t, axis, test, Preceding(t, p));
      case AxisParent =>
        ShortLists([p]);
        PickedInOrder(t, axis, test, [p]);
      case _ => SingleOrder(t, axis, AxisNodes(t, axis, test, x));
    }
  }

  lemma PrecedingDecreasing(t: Tree, p: Path)
    requires Has(t, p)
    ensures Decreasing(Preceding(t, p)) && Increasing(Following(t, p)) && Increasing(Descendants(t, p)) &&
        Decreasing(Ancestors(p))
  {
    BeforeAre(t, p, p);
    AfterAre(t, [], p);
    DescendantsAre(t, p);
    AncestorsAre(p);
  }

  lemma NodeAxisOrder(t: Tree, axis: Axis, test: Test, p: Path)
    requires Has(t, p)
    ensures InAxisOrder(t, axis, AxisNodes(t, axis, test, Node(p)))
  {
    hide Picked, PickedAttrs, Lex, Has, Get, InAxisOrder, Increasing, Decreasing, Following, Preceding, Descendants,
        Ancestors, Range, RangeBack, Siblings;
    PrecedingDecreasing(t, p);
    ShortLists([p]);
    match axis {
      case AxisAncestor => PickedInOrder(t, axis, test, Ancestors(p));
      case AxisAncestorOrSelf =>
        SelfAndAncestors(p);
        PickedInOrder(t, axis, test, [p] + Ancestors(p));
      case AxisAttribute =>
        PickedAttrsOrder(t, test, p, 0);
        AttrsInOrder(t, PickedAttrs(Get(t, p).attrs, test, p, 0));
      case AxisChild =>
        RangesOrdered(p, 0, |Get(t, p).children|);
        PickedInOrder(t, axis, test, Children(t, p));
      case AxisDescendant => PickedInOrder(t, axis, test, Descendants(t, p));
      case AxisDescendantOrSelf =>
        SelfAndDescendants(t, p);
        PickedInOrder(t, axis, test, [p] + Descendants(t, p));
      case AxisFollowing => PickedInOrder(t, axis, test, Following(t, p));
      case AxisFollowingSibling =>
        FollowingSiblingsIncreasing(t, p);
        PickedInOrder(t, axis, test, FollowingSiblings(t, p));
      case AxisParent =>
        ShortLists(ParentList(p));
        PickedInOrder(t, axis, test, ParentList(p));
      case AxisPreceding => PickedInOrder(t, axis, test, Preceding(t, p));
      case AxisPrecedingSibling =>
        PrecedingSiblingsDecreasing(p);
        PickedInOrder(t, axis, test, PrecedingSiblings(p));
      case AxisSelf => PickedInOrder(t, axis, test, [p]);
    }
  }

  lemma AttrsInOrder(t: Tree, s: seq<XNode>)
    requires AllIn(t, s) && Ascending(t, s)
    ensures InAxisOrder(t, AxisAttribute, s)
  {
  }

  lemma FollowingSiblingsIncreasing(t: Tree, p: Path)
    requires Has(t, p)
    ensures Increasing(FollowingSiblings(t, p))
  {
    hide Range, RangeBack;
    if p != [] {
      RangesOrdered(p[..|p| - 1], p[|p| - 1] + 1, |Siblings(t, p)|);
    } else {
      ShortLists([]);
    }
  }

  lemma PrecedingSiblingsDecreasing(p: Path)
    ensures Decreasing(PrecedingSiblings(p))
  {
    hide Range, RangeBack;
    if p != [] {
      RangesOrdered(p[..|p| - 1], p[|p| - 1], 0);
    } else {
      ShortLists([]);
    }
  }
}
