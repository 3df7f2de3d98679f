/**
 * The children of a node as the document stores them: forward links end in null, backward links run in a
 * circle, so that the first child knows the last.
 */
module ChildList {

  function Inserted<T>(s: seq<T>, k: nat, x: T): (r: seq<T>)
    requires k <= |s|
    ensures |r| == |s| + 1 &&
      forall i :: 0 <= i < |r| ==> r[i] == if i < k then s[i] else if i == k then x else s[i - 1]
  {
    s[..k] + [x] + s[k..]
  }

  function Removed<T>(s: seq<T>, k: nat): (r: seq<T>)
    requires k < |s|
    ensures |r| == |s| - 1 && forall i :: 0 <= i < |r| ==> r[i] == if i < k then s[i] else s[i + 1]
  {
    s[..k] + s[k + 1..]
  }

  class NodeStruct {
    var parent: NodeStruct?
    var firstChild: NodeStruct?
    var prevSiblingC: NodeStruct?
    var nextSibling: NodeStruct?
    /** The children in order. */
    ghost var children: seq<NodeStruct>

    constructor ()
      ensures parent == null && firstChild == null && prevSiblingC == null && nextSibling == null && children == []
    {
      parent, firstChild, prevSiblingC, nextSibling, children := null, null, null, null, [];
    }

    /** What the links say about the children: half a circle. */
    ghost predicate Linked()
      reads this, children
    {
      var n := |children|;
      (forall i, j :: 0 <= i < j < n ==> children[i] != children[j]) &&
      (forall i :: 0 <= i < n ==> children[i] != this && children[i].parent == this) &&
      (n == 0 ==> firstChild == null) &&
      (n > 0 ==>
         var first, last := children[0], children[n - 1];
         firstChild == first && first.prevSiblingC == last && last.nextSibling == null) &&
      forall i :: 0 <= i < n - 1 ==>
        children[i].nextSibling == children[i + 1] && children[i + 1].prevSiblingC == children[i]
    }

    /** The links of one child. */
    lemma LinksOf(k: nat)
      requires Linked() && k < |children|
      ensures children[k].nextSibling == if k + 1 < |children| then children[k + 1] else null
      ensures children[k].prevSiblingC == children[if k > 0 then k - 1 else |children| - 1]
      ensures firstChild == children[0] && children[|children| - 1].nextSibling == null
    {
      assert k > 0 ==> children[k - 1 + 1].prevSiblingC == children[k - 1];
    }

    /** A node that belongs to no list yet. */
    ghost predicate Loose(child: NodeStruct)
      reads this, child
    {
      child != this && child !in children && child.nextSibling == null && child.prevSiblingC == null
    }

    /** The links once child has been put before position k of the list. */
    ghost predicate Spliced(before: seq<NodeStruct>, k: nat, child: NodeStruct)
      requires k <= |before|
      reads this`firstChild, before, child
    {
      var n := |before|;
      child != this && child !in before && child.parent == this &&
      (forall i, j :: 0 <= i < j < n ==> before[i] != before[j]) &&
      (forall i :: 0 <= i < n ==> before[i] != this && before[i].parent == this) &&
      firstChild == (if k == 0 then child else before[0]) &&
      (if k == n then child else before[n - 1]).nextSibling == null &&
      (if k == 0 then child else before[0]).prevSiblingC == (if k == n then child else before[n - 1]) &&
      (k < n ==> child.nextSibling == before[k] && before[k].prevSiblingC == child) &&
      (k > 0 ==> child.prevSiblingC == before[k - 1] && before[k - 1].nextSibling == child) &&
      forall i :: 0 <= i < n - 1 && i != k - 1 ==>
        before[i].nextSibling == before[i + 1] && before[i + 1].prevSiblingC == before[i]
    }

    lemma SplicedLinked(before: seq<NodeStruct>, k: nat, child: NodeStruct)
      requires k <= |before| && Spliced(before, k, child) && children == Inserted(before, k, child)
      ensures Linked()
    {
      forall i | 0 <= i < |children| - 1
        ensures children[i].nextSibling == children[i + 1] && children[i + 1].prevSiblingC == children[i]
      {
        if i < k - 1 {
          assert children[i] == before[i] && children[i + 1] == before[i + 1];
        } else if i > k {
          assert children[i] == before[i - 1] && children[i + 1] == before[i - 1 + 1];
        }
      }
      DistinctInserted(before, k, child);
    }

    lemma DistinctInserted(s: seq<NodeStruct>, k: nat, x: NodeStruct)
      requires (forall i, j :: 0 <= i < j < |s| ==> s[i] != s[j]) && x !in s && k <= |s|
      ensures forall i, j :: 0 <= i < j < |s| + 1 ==> Inserted(s, k, x)[i] != Inserted(s, k, x)[j]
    {
      assert forall i :: 0 <= i < |s| ==> s[i] in s;
    }

    /** append_node */
    method AppendNode(child: NodeStruct)
      requires Linked() && Loose(child)
      modifies this`firstChild, this`children, child`parent, child`prevSiblingC, children`nextSibling,
          children`prevSiblingC
      ensures Linked() && children == old(children) + [child]
    {
      ghost var before := children;
      LinkLast(child);
      children := children + [child];
      assert children == Inserted(before, |before|, child);
      SplicedLinked(before, |before|, child);
    }

    method LinkLast(child: NodeStruct)
      requires Linked() && Loose(child)
      modifies this`firstChild, child`parent, child`prevSiblingC, children`nextSibling, children`prevSiblingC
      ensures Spliced(children, |children|, child)
    {
      child.parent := this;
      if firstChild != null {
        var first := firstChild;
        var last := first.prevSiblingC;
        last.nextSibling := child;
        child.prevSiblingC := last;
        first.prevSiblingC := child;
      } else {
        firstChild := child;
        child.prevSiblingC := child;
      }
    }

    method PrependChild(child: NodeStruct)
      requires Linked() && Loose(child)
      modifies this`firstChild, this`children, child`parent, child`prevSiblingC, child`nextSibling,
          children`prevSiblingC
      ensures Linked() && children == [child] + old(children)
    {
      ghost var before := children;
      LinkFirst(child);
      children := [child] + children;
      assert children == Inserted(before, 0, child);
      SplicedLinked(before, 0, child);
    }

    method LinkFirst(child: NodeStruct)
      requires Linked() && Loose(child)
      modifies this`firstChild, child`parent, child`prevSiblingC, child`nextSibling, children`prevSiblingC
      ensures Spliced(children, 0, child)
    {
      child.parent := this;
      var head := firstChild;
      if head != null {
        child.prevSiblingC := head.prevSiblingC;
        head.prevSiblingC := child;
      } else {
        child.prevSiblingC := child;
      }
      child.nextSibling := head;
      firstChild := child;
    }

    /** Nothing happens when the reference node is not a child of this one. */
    method InsertChildBefore(child: NodeStruct, node: NodeStruct, ghost k: nat) returns (ok: bool)
      requires Linked() && Loose(child) && (node.parent == this ==> k < |children| && children[k] == node)
      modifies this`firstChild, this`children, child`parent, child`prevSiblingC, child`nextSibling,
          children`nextSibling, children`prevSiblingC
      ensures Linked() && ok == old(node.parent == this)
      ensures children == if ok then Inserted(old(children), k, child) else old(children)
    {
      if node.parent != this {
        return false;
      }
      ok := true;
      ghost var before := children;
      LinkBefore(child, node, k);
      children := Inserted(children, k, child);
      SplicedLinked(before, k, child);
    }

    method LinkBefore(child: NodeStruct, node: NodeStruct, ghost k: nat)
      requires Linked() && Loose(child) && k < |children| && children[k] == node
      modifies this`firstChild, child`parent, child`prevSiblingC, child`nextSibling, children`nextSibling,
          children`prevSiblingC
      ensures Spliced(children, k, child)
    {
      LinksOf(k);
      LinksOf(if k > 0 then k - 1 else |children| - 1);
      child.parent := this;
      if node.prevSiblingC.nextSibling != null {
        node.prevSiblingC.nextSibling := child;
      } else {
        firstChild := child;
      }
      child.prevSiblingC := node.prevSiblingC;
      child.nextSibling := node;
      node.prevSiblingC := child;
    }

    method InsertChildAfter(child: NodeStruct, node: NodeStruct, ghost k: nat) returns (ok: bool)
      requires Linked() && Loose(child) && (node.parent == this ==> k < |children| && children[k] == node)
      modifies this`firstChild, this`children, child`parent, child`prevSiblingC, child`nextSibling,
          children`nextSibling, children`prevSiblingC
      ensures Linked() && ok == old(node.parent == this)
      ensures children == if ok then Inserted(old(children), k + 1, child) else old(children)
    {
      if node.parent != this {
        return false;
      }
      ok := true;
      ghost var before := children;
      LinkAfter(child, node, k);
      children := Inserted(children, k + 1, child);
      SplicedLinked(before, k + 1, child);
    }

    method LinkAfter(child: NodeStruct, node: NodeStruct, ghost k: nat)
      requires Linked() && Loose(child) && k < |children| && children[k] == node
      modifies this`firstChild, child`parent, child`prevSiblingC, child`nextSibling, children`nextSibling,
          children`prevSiblingC
      ensures Spliced(children, k + 1, child)
    {
      LinksOf(k);
      child.parent := this;
      if node.nextSibling != null {
        node.nextSibling.prevSiblingC := child;
      } else {
        firstChild.prevSiblingC := child;
      }
      child.nextSibling := node.nextSibling;
      child.prevSiblingC := node;
      node.nextSibling := child;
    }

    /** The links once the child at position k has been passed over. */
    ghost predicate Bridged(before: seq<NodeStruct>, k: nat)
      requires k < |before|
      reads this`firstChild, before
    {
      var n := |before|;
      (forall i, j :: 0 <= i < j < n ==> before[i] != before[j]) &&
      (forall i :: 0 <= i < n ==> before[i] != this && before[i].parent == this) &&
      (n == 1 ==> firstChild == null) &&
      (n > 1 ==>
         var first, last := before[if k == 0 then 1 else 0], before[if k == n - 1 then n - 2 else n - 1];
         firstChild == first && last.nextSibling == null && first.prevSiblingC == last) &&
      (0 < k < n - 1 ==> before[k - 1].nextSibling == before[k + 1] && before[k + 1].prevSiblingC == before[k - 1]) &&
      forall i :: 0 <= i < n - 1 && i != k - 1 && i != k ==>
        before[i].nextSibling == before[i + 1] && before[i + 1].prevSiblingC == before[i]
    }

    lemma BridgedLinked(before: seq<NodeStruct>, k: nat)
      requires k < |before| && Bridged(before, k) && children == Removed(before, k)
      ensures Linked()
    {
      forall i | 0 <= i < |children| - 1
        ensures children[i].nextSibling == children[i + 1] && children[i + 1].prevSiblingC == children[i]
      {
        if i < k - 1 {
          assert children[i] == before[i] && children[i + 1] == before[i + 1];
        } else if i >= k {
          assert children[i] == before[i + 1] && children[i + 1] == before[i + 1 + 1];
        }
      }
      DistinctRemoved(before, k);
    }

    lemma DistinctRemoved(s: seq<NodeStruct>, k: nat)
      requires (forall i, j :: 0 <= i < j < |s| ==> s[i] != s[j]) && k < |s|
      ensures forall i, j :: 0 <= i < j < |s| - 1 ==> Removed(s, k)[i] != Removed(s, k)[j]
    {
    }

    /** Nothing happens when the node is not a child of this one. */
    method RemoveChild(node: NodeStruct, ghost k: nat) returns (ok: bool)
      requires Linked() && (node.parent == this ==> k < |children| && children[k] == node)
      modifies this`firstChild, this`children, children`nextSibling, children`prevSiblingC
      ensures Linked() && ok == old(node.parent == this)
      ensures children == if ok then Removed(old(children), k) else old(children)
    {
      if node.parent != this {
        return false;
      }
      ok := true;
      ghost var before := children;
      Unlink(node, k);
      children := Removed(children, k);
      BridgedLinked(before, k);
    }

    method Unlink(node: NodeStruct, ghost k: nat)
      requires Linked() && k < |children| && children[k] == node
      modifies this`firstChild, children`nextSibling, children`prevSiblingC
      ensures Bridged(children, k)
    {
      LinksOf(k);
      LinksOf(if k > 0 then k - 1 else |children| - 1);
      if node.nextSibling != null {
        node.nextSibling.prevSiblingC := node.prevSiblingC;
      } else if firstChild != null {
        firstChild.prevSiblingC := node.prevSiblingC;
      }
      if node.prevSiblingC.nextSibling != null {
        node.prevSiblingC.nextSibling := node.nextSibling;
      } else {
        firstChild := node.nextSibling;
      }
    }
  }
}
