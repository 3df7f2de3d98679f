/**
 * The document in memory and the tree of paths: what the axes and document order are proved about are the
 * links the child lists keep.
 */
module Links {
  import opened Common
  import opened Tree
  import opened ChildList

  /** The node x with its child lists, and theirs, is the tree t. */
  ghost predicate Stands(x: NodeStruct, t: Tree)
    reads *
    decreases t
  {
    x.Linked() && |x.children| == |t.children| &&
        forall i :: 0 <= i < |t.children| ==> Stands(x.children[i], t.children[i])
  }

  /** The node a path leads to. */
  ghost function At(x: NodeStruct, t: Tree, p: Path): NodeStruct
    requires Stands(x, t) && Has(t, p)
    reads *
    decreases p
  {
    if p == [] then x else At(x.children[p[0]], t.children[p[0]], p[1..])
  }

  lemma {:induction false} AtStands(x: NodeStruct, t: Tree, p: Path)
    requires Stands(x, t) && Has(t, p)
    ensures Stands(At(x, t, p), Get(t, p))
    decreases p
  {
    if p != [] {
      AtStands(x.children[p[0]], t.children[p[0]], p[1..]);
    }
  }

  lemma {:induction false} AtChild(x: NodeStruct, t: Tree, p: Path, i: nat)
    requires Stands(x, t) && Has(t, p) && i < |Get(t, p).children|
    ensures Has(t, p + [i]) && Stands(At(x, t, p), Get(t, p)) && At(x, t, p + [i]) == At(x, t, p).children[i]
    decreases p
  {
    HasChild(t, p, i);
    AtStands(x, t, p);
    if p == [] {
      assert ([] + [i])[1..] == [];
    } else {
      assert (p + [i])[1..] == p[1..] + [i] && (p + [i])[0] == p[0];
      AtChild(x.children[p[0]], t.children[p[0]], p[1..], i);
    }
  }

  /** The node at the end of a link, if there is one. */
  ghost function Target(x: NodeStruct, t: Tree, p: Option<Path>): NodeStruct?
    requires Stands(x, t) && (p.Some? ==> Has(t, p.value))
    reads *
  {
    if p.Some? then At(x, t, p.value) else null
  }

  /** first_child and last_child: the last child is found through the half circle. */
  lemma ChildLinks(x: NodeStruct, t: Tree, p: Path)
    requires Stands(x, t) && Has(t, p)
    ensures var n := At(x, t, p);
      (FirstChild(t, p).Some? ==> Has(t, FirstChild(t, p).value)) && n.firstChild == Target(x, t, FirstChild(t, p))
    ensures var n := At(x, t, p);
      (LastChild(t, p).Some? ==> Has(t, LastChild(t, p).value)) &&
      (if n.firstChild == null then null else n.firstChild.prevSiblingC) == Target(x, t, LastChild(t, p))
  {
    hide Has, At, Stands;
    LinksLead(t, p);
    var n := At(x, t, p);
    StandsHere(x, t, p);
    if n.children != [] {
      AtChild(x, t, p, 0);
      AtChild(x, t, p, |n.children| - 1);
    }
  }

  lemma StandsHere(x: NodeStruct, t: Tree, p: Path)
    requires Stands(x, t) && Has(t, p)
    ensures At(x, t, p).Linked() && |At(x, t, p).children| == |Get(t, p).children|
  {
    AtStands(x, t, p);
  }

  /** A node is a child of the node at the path before it. */
  lemma AtParent(x: NodeStruct, t: Tree, p: Path)
    requires Stands(x, t) && Has(t, p) && p != []
    ensures var q, i := p[..|p| - 1], p[|p| - 1];
      Has(t, q) && At(x, t, q).Linked() && 0 <= i < |At(x, t, q).children| == |Get(t, q).children| &&
      At(x, t, p) == At(x, t, q).children[i]
  {
    hide Has, At, Stands;
    HasFront(t, p);
    var q, i := p[..|p| - 1], p[|p| - 1];
    assert p == q + [i];
    StandsHere(x, t, q);
    AtChild(x, t, q, i);
  }

  /** parent and next_sibling */
  lemma NextLinks(x: NodeStruct, t: Tree, p: Path)
    requires Stands(x, t) && Has(t, p) && p != []
    ensures Has(t, Parent(p).value) && At(x, t, p).parent == At(x, t, Parent(p).value)
    ensures (NextSibling(t, p).Some? ==> Has(t, NextSibling(t, p).value)) &&
            At(x, t, p).nextSibling == Target(x, t, NextSibling(t, p))
  {
    hide Has, At, Stands, Get;
    LinksLead(t, p);
    AtParent(x, t, p);
    var q, i := p[..|p| - 1], p[|p| - 1];
    var n := At(x, t, q);
    n.LinksOf(i);
    if i + 1 < |n.children| {
      AtChild(x, t, q, i + 1);
    }
  }

  /** previous_sibling: the first child is the one whose circular link ends nowhere. */
  lemma PrevLinks(x: NodeStruct, t: Tree, p: Path)
    requires Stands(x, t) && Has(t, p) && p != []
    ensures At(x, t, p).prevSiblingC != null
    ensures (PrevSibling(p).Some? ==> Has(t, PrevSibling(p).value)) &&
            (var c := At(x, t, p).prevSiblingC; if c.nextSibling == null then null else c) ==
                Target(x, t, PrevSibling(p))
  {
    hide Has, At, Stands, Get, NodeStruct.Linked;
    LinksLead(t, p);
    AtParent(x, t, p);
    var q, i := p[..|p| - 1], p[|p| - 1];
    var n := At(x, t, q);
    n.LinksOf(i);
    if i > 0 {
      AtChild(x, t, q, i - 1);
      n.LinksOf(i - 1);
    }
  }
}
