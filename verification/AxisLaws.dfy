/**
 * What the axes and node tests of XPath select, said about the places of nodes and apart from the lists the
 * walks produce (sections 2.2 and 2.3 of XPath 1.0).
 */
module AxisLaws {
  import opened NodeKind
  import opened Tree
  import opened Preorder
  import opened AxisSets
  import opened Axes
  import opened DocOrder

  predicate ChildOfPath(q: Path, p: Path) {
    q != [] && q[..|q| - 1] == p
  }

  predicate SameParent(p: Path, q: Path) {
    p != [] && q != [] && p[..|p| - 1] == q[..|q| - 1]
  }

  /** The node at q is on the axis of the node at p. */
  predicate OnNodeAxis(axis: Axis, p: Path, q: Path) {
    match axis
    case AxisAncestor => q < p
    case AxisAncestorOrSelf => q <= p
    case AxisAttribute => false
    case AxisChild => ChildOfPath(q, p)
    case AxisDescendant => p < q
    case AxisDescendantOrSelf => p <= q
    case AxisFollowing => Lex(p, q) && !(p <= q)
    case AxisFollowingSibling => SameParent(p, q) && p[|p| - 1] < q[|q| - 1]
    case AxisParent => ChildOfPath(p, q)
    case AxisPreceding => Lex(q, p) && !(q <= p)
    case AxisPrecedingSibling => SameParent(p, q) && q[|q| - 1] < p[|p| - 1]
    case AxisSelf => q == p
  }

  /** ... of an attribute of the element at p. */
  predicate OnAttrAxis(axis: Axis, p: Path, q: Path) {
    match axis
    case AxisAncestor => q <= p
    case AxisAncestorOrSelf => q <= p
    case AxisFollowing => Lex(p, q)
    case AxisParent => q == p
    case AxisPreceding => Lex(q, p) && !(q <= p)
    case _ => false
  }

  /** The tests a node of each kind passes. */
  predicate NodeFits(test: Test, kind: Kind, name: string) {
    test == TestNode ||
    match kind
    case Element => test == TestAll || test == TestName(name) || (test.TestNamespace? && test.prefix <= name)
    case Pcdata => test == TestText
    case Cdata => test == TestText
    case Comment => test == TestComment
    case Pi => test == TestPi || test == TestPiNamed(name)
    case _ => false
  }

  predicate AttrFits(test: Test, name: string) {
    name != "xmlns" && !("xmlns:" <= name) &&
    (test == TestNode || test == TestAll || test == TestName(name) || (test.TestNamespace? && test.prefix <= name))
  }

  /** The step selects y from the context x. */
  predicate Selects(t: Tree, axis: Axis, test: Test, x: XNode, y: XNode)
    requires In(t, x)
  {
    match y
    case Node(q) =>
      Has(t, q) && NodeFits(test, Get(t, q).kind, Get(t, q).name) &&
      (match x case Node(p) => OnNodeAxis(axis, p, q) case Attr(p, _) => OnAttrAxis(axis, p, q))
    case Attr(p, k) =>
      In(t, y) &&
      if x.Node? then axis == AxisAttribute && p == x.path && AttrFits(test, Get(t, p).attrs[k])
      else
        y == x && (axis == AxisSelf || axis == AxisAncestorOrSelf || axis == AxisDescendantOrSelf) &&
        test == TestNode &&
        AttrFits(TestNode, Get(t, p).attrs[k])
  }

  lemma PassesFits(test: Test, n: Tree)
    ensures Passes(test, n) <==> NodeFits(test, n.kind, n.name)
  {
  }

  lemma PassesAttrFits(test: Test, name: string)
    ensures PassesAttr(test, name) <==> AttrFits(test, name)
  {
    assert XMLNS <= name && |name| > 5 && name[5] == ':' ==> name[..6] == XMLNS + [':'];
    if "xmlns:" <= name {
      assert name[..6] == "xmlns:" && name[5] == "xmlns:"[5];
      assert name[..5] == name[..6][..5] == XMLNS;
    }
  }

  lemma PickedFits(t: Tree, test: Test, ps: seq<Path>, y: XNode)
    ensures y in Picked(t, test, ps) <==>
      y.Node? && y.path in ps && Has(t, y.path) && NodeFits(test, Get(t, y.path).kind, Get(t, y.path).name)
  {
    hide Passes, NodeFits, Picked;
    PickedMembers(t, test, ps);
    if y.Node? && Has(t, y.path) {
      PassesFits(test, Get(t, y.path));
    }
  }

  lemma {:induction false} PickedAttrsFit(names: seq<string>, test: Test, p: Path, k: nat, y: XNode)
    requires k <= |names|
    ensures y in PickedAttrs(names, test, p, k) <==>
      y.Attr? && y.owner == p && k <= y.index < |names| && AttrFits(test, names[y.index])
    decreases |names| - k
  {
    hide PassesAttr, AttrFits;
    if k < |names| {
      PassesAttrFits(test, names[k]);
      PickedAttrsFit(names, test, p, k + 1, y);
    }
  }

  // ---------- The lists of places ----------

  lemma RangeHas(q: Path, i: int, j: int, r: Path)
    ensures r in Range(q, i, j) <==> ChildOfPath(r, q) && i <= r[|r| - 1] < j
  {
    hide Range;
    var all := Range(q, i, j);
    if ChildOfPath(r, q) && i <= r[|r| - 1] < j {
      assert all[r[|r| - 1] - i] == q + [r[|r| - 1]] == r;
    }
    if r in all {
      var k :| 0 <= k < |all| && all[k] == r;
      assert r == q + [i + k] && r[..|r| - 1] == q;
    }
  }

  lemma RangeBackHas(q: Path, i: int, r: Path)
    ensures r in RangeBack(q, i) <==> ChildOfPath(r, q) && 0 <= r[|r| - 1] < i
  {
    hide RangeBack;
    var all := RangeBack(q, i);
    if ChildOfPath(r, q) && 0 <= r[|r| - 1] < i {
      assert all[i - 1 - r[|r| - 1]] == q + [r[|r| - 1]] == r;
    }
    if r in all {
      var k :| 0 <= k < |all| && all[k] == r;
      assert r == q + [i - 1 - k] && r[..|r| - 1] == q;
    }
  }

  /** The last place of a node of the document counts a child of its parent. */
  lemma PlaceInRange(t: Tree, r: Path)
    requires Has(t, r) && r != []
    ensures Has(t, r[..|r| - 1]) && 0 <= r[|r| - 1] < |Get(t, r[..|r| - 1]).children|
  {
    HasFront(t, r);
  }

  lemma ChildrenAre(t: Tree, p: Path, q: Path)
    requires Has(t, p) && Has(t, q)
    ensures q in Children(t, p) <==> OnNodeAxis(AxisChild, p, q)
  {
    hide Range, Has, Get;
    RangeHas(p, 0, |Get(t, p).children|, q);
    if ChildOfPath(q, p) {
      PlaceInRange(t, q);
    }
  }

  lemma SiblingsAre(t: Tree, p: Path, q: Path)
    requires Has(t, p) && Has(t, q)
    ensures q in FollowingSiblings(t, p) <==> OnNodeAxis(AxisFollowingSibling, p, q)
    ensures q in PrecedingSiblings(p) <==> OnNodeAxis(AxisPrecedingSibling, p, q)
  {
    hide Range, RangeBack, Has, Get;
    if p != [] {
      var parent, i := p[..|p| - 1], p[|p| - 1];
      PlaceInRange(t, p);
      RangeHas(parent, i + 1, |Siblings(t, p)|, q);
      RangeBackHas(parent, i, q);
      if q != [] {
        PlaceInRange(t, q);
      }
    }
  }

  lemma ParentIs(p: Path, q: Path)
    ensures q in ParentList(p) <==> OnNodeAxis(AxisParent, p, q)
  {
  }

  /** The long axes, with or without the node itself. */
  lemma LongAxes(t: Tree, p: Path, q: Path)
    requires Has(t, p) && Has(t, q)
    ensures q in Ancestors(p) <==> OnNodeAxis(AxisAncestor, p, q)
    ensures q in [p] + Ancestors(p) <==> q <= p
    ensures q in Descendants(t, p) <==> OnNodeAxis(AxisDescendant, p, q)
    ensures q in [p] + Descendants(t, p) <==> p <= q
    ensures q in Following(t, p) <==> OnNodeAxis(AxisFollowing, p, q)
    ensures q in Descendants(t, p) + Following(t, p) <==> Lex(p, q)
    ensures q in Preceding(t, p) <==> OnNodeAxis(AxisPreceding, p, q)
  {
    hide Lex, Has, Get, Ancestors, Descendants, Following, Preceding;
    ListsAre(t, p);
    SelfOrNot(p, q);
  }

  lemma ListsAre(t: Tree, p: Path)
    requires Has(t, p)
    ensures forall q :: q in Ancestors(p) <==> q < p
    ensures forall q :: q in Descendants(t, p) <==> Has(t, q) && p < q
    ensures forall q :: q in Following(t, p) <==> Has(t, q) && Lex(p, q) && !(p <= q)
    ensures forall q :: q in Preceding(t, p) <==> Has(t, q) && Lex(q, p) && !(q <= p)
  {
    hide Lex, Has, Get, Ancestors, Descendants, After, Before;
    AncestorsAre(p);
    DescendantsAre(t, p);
    AfterAre(t, [], p);
    BeforeAre(t, p, p);
  }

  lemma SelfOrNot(p: Path, q: Path)
    ensures q <= p <==> q < p || q == p
    ensures p <= q <==> p < q || p == q
    ensures p < q ==> Lex(p, q)
    ensures Lex(p, q) ==> q != p
  {
    if p < q {
      LexPrefix(p, q);
    }
    LexIrreflexive(p);
  }

  // ---------- Every axis and test ----------

  /** For every axis, node test and context, the nodes a step delivers are exactly those it selects. */
  lemma AxisMembers(t: Tree, axis: Axis, test: Test, x: XNode, y: XNode)
    requires In(t, x)
    ensures y in AxisNodes(t, axis, test, x) <==> Selects(t, axis, test, x, y)
  {
    if x.Node? {
      NodeAxisMembers(t, axis, test, x.path, y);
    } else {
      AttrAxisMembers(t, axis, test, x, y);
    }
  }

  lemma NodeAxisMembers(t: Tree, axis: Axis, test: Test, p: Path, y: XNode)
    requires Has(t, p)
    ensures y in AxisNodes(t, axis, test, Node(p)) <==> Selects(t, axis, test, Node(p), y)
  {
    hide Picked, PickedAttrs, Has, Get, Lex, NodeFits, AttrFits, Children, FollowingSiblings, PrecedingSiblings,
        ParentList,
        Ancestors, Descendants, Following, Preceding;
    if axis == AxisAttribute {
      PickedAttrsFit(Get(t, p).attrs, test, p, 0, y);
    } else {
      var ps := Places(t, axis, p);
      PickedFits(t, test, ps, y);
      if y.Node? && Has(t, y.path) {
        PlacesAre(t, axis, p, y.path);
      }
    }
  }

  /** The places an axis other than the attribute axis walks over. */
  function Places(t: Tree, axis: Axis, p: Path): (ps: seq<Path>)
    requires Has(t, p) && axis != AxisAttribute
    ensures forall test :: AxisNodes(t, axis, test, Node(p)) == Picked(t, test, ps)
  {
    match axis
    case AxisAncestor => Ancestors(p)
    case AxisAncestorOrSelf => [p] + Ancestors(p)
    case AxisChild => Children(t, p)
    case AxisDescendant => Descendants(t, p)
    case AxisDescendantOrSelf => [p] + Descendants(t, p)
    case AxisFollowing => Following(t, p)
    case AxisFollowingSibling => FollowingSiblings(t, p)
    case AxisParent => ParentList(p)
    case AxisPreceding => Preceding(t, p)
    case AxisPrecedingSibling => PrecedingSiblings(p)
    case AxisSelf => [p]
  }

  lemma PlacesAre(t: Tree, axis: Axis, p: Path, q: Path)
    requires Has(t, p) && Has(t, q) && axis != AxisAttribute
    ensures q in Places(t, axis, p) <==> OnNodeAxis(axis, p, q)
  {
    hide Picked, PickedAttrs, Has, Get, Lex, Children, FollowingSiblings, PrecedingSiblings, ParentList,
        Ancestors, Descendants, Following, Preceding;
    LongAxes(t, p, q);
    ChildrenAre(t, p, q);
    SiblingsAre(t, p, q);
    ParentIs(p, q);
  }

  lemma AttrAxisMembers(t: Tree, axis: Axis, test: Test, x: XNode, y: XNode)
    requires In(t, x) && x.Attr?
    ensures y in AxisNodes(t, axis, test, x) <==> Selects(t, axis, test, x, y)
  {
    hide Picked, PickedAttrs, Has, Get, Lex, NodeFits, AttrFits, DeclaresNamespace, Ancestors, Descendants,
        Following, Preceding;
    var p := x.owner;
    PassesAttrFits(TestNode, Get(t, p).attrs[x.index]);
    PickedFits(t, test, [p] + Ancestors(p), y);
    PickedFits(t, test, Descendants(t, p) + Following(t, p), y);
    PickedFits(t, test, Preceding(t, p), y);
    PickedFits(t, test, [p], y);
    if y.Node? && Has(t, y.path) {
      LongAxes(t, p, y.path);
    }
    SelfAttrIs(t, test, x, y);
  }

  lemma SelfAttrIs(t: Tree, test: Test, x: XNode, y: XNode)
    requires In(t, x) && x.Attr?
    ensures y in SelfAttr(t, test, x) <==>
      y == x && test == TestNode && AttrFits(TestNode, Get(t, x.owner).attrs[x.index])
  {
    hide AttrFits;
    PassesAttrFits(TestNode, Get(t, x.owner).attrs[x.index]);
  }
}
