/**
 * The axes of an XPath step. Each is walked over the parent, child and sibling links of the nodes, and what
 * passes the node test is pushed.
 */
module Axes {
  import opened Common
  import opened NodeKind
  import opened Tree
  import opened Preorder
  import opened AxisSets

  /** An element or other node, or an attribute with its element. */
  datatype XNode = Node(path: Path) | Attr(owner: Path, index: nat)

  datatype Axis =
    | AxisAncestor | AxisAncestorOrSelf | AxisAttribute | AxisChild | AxisDescendant | AxisDescendantOrSelf
    | AxisFollowing | AxisFollowingSibling | AxisParent | AxisPreceding | AxisPrecedingSibling | AxisSelf

  datatype Test =
    | TestName(name: string) | TestNode | TestComment | TestText | TestPi | TestPiNamed(name: string)
    | TestAll | TestNamespace(prefix: string)

  const XMLNS: string := "xmlns"

  /** Attributes that declare namespaces have no attribute node. */
  predicate DeclaresNamespace(name: string) {
    XMLNS <= name && (|name| == 5 || name[5] == ':')
  }

  predicate PassesAttr(test: Test, name: string) {
    !DeclaresNamespace(name) &&
    match test
    case TestName(wanted) => name == wanted
    case TestNode => true
    case TestAll => true
    case TestNamespace(prefix) => prefix <= name
    case _ => false
  }

  predicate Passes(test: Test, n: Tree) {
    match test
    case TestName(name) => n.kind == Element && n.name == name
    case TestNode => true
    case TestComment => n.kind == Comment
    case TestText => n.kind == Pcdata || n.kind == Cdata
    case TestPi => n.kind == Pi
    case TestPiNamed(name) => n.kind == Pi && n.name == name
    case TestAll => n.kind == Element
    case TestNamespace(prefix) => n.kind == Element && prefix <= n.name
  }

  /** The nodes of a list that pass the test. */
  function Picked(t: Tree, test: Test, ps: seq<Path>): seq<XNode> {
    if ps == [] then [] else Kept(t, test, ps[0]) + Picked(t, test, ps[1..])
  }

  function Kept(t: Tree, test: Test, p: Path): seq<XNode> {
    if Has(t, p) && Passes(test, Get(t, p)) then [Node(p)] else []
  }

  /** The attributes of a node from position k on that pass the test. */
  function PickedAttrs(names: seq<string>, test: Test, owner: Path, k: nat): seq<XNode>
    requires k <= |names|
    decreases |names| - k
  {
    if k == |names| then []
    else (if PassesAttr(test, names[k]) then [Attr(owner, k)] else []) + PickedAttrs(names, test, owner, k + 1)
  }

  lemma {:induction false} PickedConcat(t: Tree, test: Test, x: seq<Path>, y: seq<Path>)
    ensures Picked(t, test, x + y) == Picked(t, test, x) + Picked(t, test, y)
  {
    hide Kept;
    if x == [] {
      assert x + y == y;
    } else {
      PickedConcat(t, test, x[1..], y);
      assert (x + y)[1..] == x[1..] + y;
    }
  }

  /** step_push for a node. */
  method Push(ns: seq<XNode>, t: Tree, test: Test, p: Path) returns (r: seq<XNode>)
    requires Has(t, p)
    ensures r == ns + Picked(t, test, [p])
  {
    PickedOne(t, test, p);
    r := if Passes(test, Get(t, p)) then ns + [Node(p)] else ns;
  }

  lemma PickedOne(t: Tree, test: Test, p: Path)
    requires Has(t, p)
    ensures Picked(t, test, [p]) == if Passes(test, Get(t, p)) then [Node(p)] else []
  {
    var one := [p];
    assert one[1..] == [];
    assert Picked(t, test, one[1..]) == [];
  }

  // ---------- Steps of the walks ----------

  lemma EnterChild(t: Tree, stop: Path, p: Path)
    requires Has(t, p) && stop <= p && FirstChild(t, p).Some?
    ensures var c := p + [0];
      Has(t, c) && Pre(Get(t, p), p) + After(t, stop, p) == [p] + (Pre(Get(t, c), c) + After(t, stop, c))
  {
    var ts, c := Get(t, p).children, p + [0];
    HasChild(t, p, 0);
    assert c[..|p|] == p;
    assert PreKids(ts, p, 0) == Pre(ts[0], c) + PreKids(ts, p, 1);
  }

  lemma EnterSibling(t: Tree, stop: Path, p: Path)
    requires Has(t, p) && stop < p && NextSibling(t, p).Some?
    ensures var c := NextSibling(t, p).value;
      Has(t, c) && stop < c && After(t, stop, p) == Pre(Get(t, c), c) + After(t, stop, c)
  {
    var q, i := p[..|p| - 1], p[|p| - 1];
    var c := q + [i + 1];
    HasFront(t, p);
    HasChild(t, q, i + 1);
    assert c[..|q|] == q && stop <= q;
    var ts := Get(t, q).children;
    assert PreKids(ts, q, i + 1) == Pre(ts[i + 1], c) + PreKids(ts, q, i + 2);
  }

  lemma LeaveParent(t: Tree, stop: Path, p: Path)
    requires Has(t, p) && stop < p && NextSibling(t, p).None?
    ensures var q := p[..|p| - 1]; Has(t, q) && stop <= q && After(t, stop, p) == After(t, stop, q)
  {
    HasFront(t, p);
  }

  lemma LeafPre(t: Tree, p: Path)
    requires Has(t, p) && FirstChild(t, p).None?
    ensures Pre(Get(t, p), p) == [p]
  {
  }

  /** Up to the next node outside the subtree, within stop; None when there is none. */
  method Exit(t: Tree, stop: Path, p: Path) returns (next: Option<Path>)
    requires Has(t, p) && stop <= p
    ensures next.None? ==> After(t, stop, p) == []
    ensures next.Some? ==> Has(t, next.value) && stop < next.value && Lex(p, next.value) &&
                           After(t, stop, p) == Pre(Get(t, next.value), next.value) + After(t, stop, next.value)
  {
    var cur := p;
    while cur != stop && NextSibling(t, cur).None?
      invariant stop <= cur <= p && Has(t, cur) && After(t, stop, p) == After(t, stop, cur)
      decreases |cur|
    {
      LeaveParent(t, stop, cur);
      cur := cur[..|cur| - 1];
    }
    if cur == stop {
      return None;
    }
    EnterSibling(t, stop, cur);
    next := NextSibling(t, cur);
    LexNextSibling(t, cur, p);
  }

  lemma LexNextSibling(t: Tree, cur: Path, p: Path)
    requires Has(t, cur) && cur <= p && NextSibling(t, cur).Some?
    ensures Lex(p, NextSibling(t, cur).value)
  {
    var k := |cur| - 1;
    assert p[..k] == cur[..k];
    LexAt(p, NextSibling(t, cur).value, k);
  }

  /** The node after cur within stop: its first child, its next sibling, or the next sibling of an ancestor. */
  method Advance(t: Tree, stop: Path, cur: Path) returns (next: Option<Path>)
    requires Has(t, cur) && stop <= cur
    ensures next.Some? ==> Has(t, next.value) && stop < next.value
    ensures Pre(Get(t, cur), cur) + After(t, stop, cur)
         == [cur] + if next.Some? then Pre(Get(t, next.value), next.value) + After(t, stop, next.value) else []
  {
    next := FirstChild(t, cur);
    if next.Some? {
      EnterChild(t, stop, cur);
    } else {
      LeafPre(t, cur);
      next := NextSibling(t, cur);
      if cur != stop && next.Some? {
        EnterSibling(t, stop, cur);
      } else {
        next := Exit(t, stop, cur);
      }
    }
  }

  /** Push the nodes from start on, up to the end of stop. */
  method Walk(ns: seq<XNode>, t: Tree, test: Test, stop: Path, start: Option<Path>) returns (r: seq<XNode>)
    requires start.Some? ==> Has(t, start.value) && stop <= start.value
    ensures r == ns +
      if start.Some? then Picked(t, test, Pre(Get(t, start.value), start.value) + After(t, stop, start.value)) else []
  {
    hide Has, Get, After, Pre, Picked;
    r := ns;
    var cur := start;
    if start.None? {
      return;
    }
    ghost var all := Pre(Get(t, start.value), start.value) + After(t, stop, start.value);
    ghost var done, rest := [], all;
    PickedNothing(t, test);
    while cur.Some?
      invariant cur.Some? ==>
        Has(t, cur.value) && stop <= cur.value && rest == Pre(Get(t, cur.value), cur.value) + After(t, stop, cur.value)
      invariant cur.None? ==> rest == []
      invariant all == done + rest && r == ns + Picked(t, test, done)
      decreases |rest|
    {
      var c := cur.value;
      r := Push(r, t, test, c);
      cur := Advance(t, stop, c);
      ghost var rest' := if cur.Some? then Pre(Get(t, cur.value), cur.value) + After(t, stop, cur.value) else [];
      PickedConcat(t, test, done, [c]);
      assert all == done + [c] + rest';
      done, rest := done + [c], rest';
    }
    assert done == all;
  }

  lemma PickedNothing(t: Tree, test: Test)
    ensures Picked(t, test, []) == []
  {
  }

  /** axis_descendant */
  method FillDescendant(ns: seq<XNode>, t: Tree, test: Test, n: Path) returns (r: seq<XNode>)
    requires Has(t, n)
    ensures r == ns + Picked(t, test, Descendants(t, n))
  {
    var first := FirstChild(t, n);
    if first.Some? {
      EnterChild(t, n, n);
      r := Walk(ns, t, test, n, first);
      ghost var rest := Pre(Get(t, first.value), first.value) + After(t, n, first.value);
      assert Pre(Get(t, n), n) + After(t, n, n) == [n] + Descendants(t, n) == [n] + rest;
      assert rest == ([n] + rest)[1..] == ([n] + Descendants(t, n))[1..] == Descendants(t, n);
    } else {
      r := ns;
    }
  }

  /** axis_following: out of the subtree, then on to the end of the document. */
  method FillFollowing(ns: seq<XNode>, t: Tree, test: Test, n: Path) returns (r: seq<XNode>)
    requires Has(t, n)
    ensures r == ns + Picked(t, test, Following(t, n))
  {
    hide Picked, After, Pre;
    var cur := Exit(t, [], n);
    r := Walk(ns, t, test, [], cur);
    PickedNothing(t, test);
  }

  /** axis_following of an attribute: everything after its element's start. */
  method FillFollowingAttr(ns: seq<XNode>, t: Tree, test: Test, p: Path) returns (r: seq<XNode>)
    requires Has(t, p)
    ensures r == ns + Picked(t, test, Descendants(t, p) + Following(t, p))
  {
    hide Picked, Has, Get, After;
    var cur := Advance(t, [], p);
    r := Walk(ns, t, test, [], cur);
    ghost var rest := if cur.Some? then Pre(Get(t, cur.value), cur.value) + After(t, [], cur.value) else [];
    PickedNothing(t, test);
    SubtreeAndAfter(t, p, rest);
  }

  lemma SubtreeAndAfter(t: Tree, p: Path, rest: seq<Path>)
    requires Has(t, p) && Pre(Get(t, p), p) + After(t, [], p) == [p] + rest
    ensures rest == Descendants(t, p) + Following(t, p)
  {
    hide Has, Get, After, PreKids;
    assert [p] + rest == [p] + (Descendants(t, p) + Following(t, p));
    assert rest == ([p] + rest)[1..];
  }

  // ---------- Backwards ----------

  method NodeIsAncestor(parent: Path, node: Path) returns (r: bool)
    ensures r <==> parent <= node
  {
    var cur := Some(node);
    while cur.Some? && cur.value != parent
      invariant cur.Some? ==> cur.value <= node && (parent <= node ==> parent <= cur.value)
      invariant cur.None? ==> !(parent <= node)
      decreases if cur.Some? then |cur.value| + 1 else 0
    {
      cur := Parent(cur.value);
    }
    r := cur.Some?;
  }

  lemma EnterLast(t: Tree, n: Path, p: Path)
    requires Has(t, p) && !(p <= n) && LastChild(t, p).Some?
    ensures var c := LastChild(t, p).value;
      Has(t, c) && !(c <= n) && (Lex(p, n) ==> Lex(c, n)) &&
          Back(Get(t, p), p) + Before(t, n, p) == Back(Get(t, c), c) + Before(t, n, c)
  {
    var ts := Get(t, p).children;
    var k := |ts|;
    var c := p + [k - 1];
    HasChild(t, p, k - 1);
    assert c[..|p|] == p;
    assert BackKids(ts, p, k) == Back(ts[k - 1], c) + BackKids(ts, p, k - 1);
    LexOutside(p, c, n);
  }

  lemma LeafBack(t: Tree, p: Path)
    requires Has(t, p) && LastChild(t, p).None?
    ensures Back(Get(t, p), p) == [p]
  {
  }

  lemma EnterPrev(t: Tree, n: Path, p: Path)
    requires Has(t, p) && PrevSibling(p).Some? && (p == n || Lex(p, n))
    ensures var c := PrevSibling(p).value;
      Has(t, c) && !(c <= n) && Lex(c, n) && Before(t, n, p) == Back(Get(t, c), c) + Before(t, n, c)
  {
    hide Lex, Has, Get, Before, Back;
    PrevUnrolled(t, n, p);
    PrevApart(n, p);
  }

  lemma BeforeUnrolled(t: Tree, n: Path, q: Path, i: nat)
    requires Has(t, q) && i < |Get(t, q).children|
    ensures Has(t, q + [i]) &&
      Before(t, n, q + [i]) == BackKids(Get(t, q).children, q, i) + (if q <= n then [] else [q]) + Before(t, n, q)
  {
    hide Has, Get, BackKids;
    HasChild(t, q, i);
    assert (q + [i])[..|q|] == q;
  }

  lemma PrevUnrolled(t: Tree, n: Path, p: Path)
    requires Has(t, p) && PrevSibling(p).Some?
    ensures var c := PrevSibling(p).value; Has(t, c) && Before(t, n, p) == Back(Get(t, c), c) + Before(t, n, c)
  {
    hide Has, Get, Before, Back;
    var q, i := p[..|p| - 1], p[|p| - 1];
    HasFront(t, p);
    HasChild(t, q, i - 1);
    assert p == q + [i];
    BeforeUnrolled(t, n, q, i);
    BeforeUnrolled(t, n, q, i - 1);
    var ts, own := Get(t, q).children, if q <= n then [] else [q];
    assert BackKids(ts, q, i) == Back(ts[i - 1], q + [i - 1]) + BackKids(ts, q, i - 1);
    Regroup(Back(ts[i - 1], q + [i - 1]), BackKids(ts, q, i - 1), own, Before(t, n, q));
  }

  lemma Regroup<T>(a: seq<T>, b: seq<T>, c: seq<T>, d: seq<T>)
    ensures a + b + c + d == a + (b + c + d)
  {
  }

  /** An earlier sibling of p is before n, and n is not below it. */
  lemma PrevApart(n: Path, p: Path)
    requires PrevSibling(p).Some? && (p == n || Lex(p, n))
    ensures var c := PrevSibling(p).value; !(c <= n) && Lex(c, n)
  {
    hide Lex;
    var q, i := p[..|p| - 1], p[|p| - 1];
    var c := q + [i - 1];
    assert c[..|q|] == q && p[..|q|] == q;
    LexAt(c, p, |q|);
    if p != n {
      LexTrans(c, p, n);
    }
    if c <= n {
      assert n[..|q|] == q && n[|q|] == i - 1;
      LexAt(n, p, |q|);
      LexTotal(n, p);
    }
  }

  lemma LeaveUp(t: Tree, n: Path, p: Path)
    requires Has(t, p) && p != [] && PrevSibling(p).None? && (p == n || Lex(p, n))
    ensures var q := p[..|p| - 1];
      Has(t, q) && (q == n || Lex(q, n)) && Before(t, n, p) == (if q <= n then [] else [q]) + Before(t, n, q)
  {
    HasFront(t, p);
    ParentBefore(p, n);
  }

  /** Up to the next node before the subtree of p; the parents left on the way are pushed unless they are above n. */
  method ExitBack(ns: seq<XNode>, t: Tree, test: Test, n: Path, p: Path) returns (r: seq<XNode>, next: Option<Path>,
      ghost passed: seq<Path>)
    requires Has(t, p) && (p == n || Lex(p, n))
    ensures next.Some? ==> Has(t, next.value) && !(next.value <= n) && Lex(next.value, n)
    ensures Before(t, n, p) ==
      passed + if next.Some? then Back(Get(t, next.value), next.value) + Before(t, n, next.value) else []
    ensures r == ns + Picked(t, test, passed)
  {
    hide Has, Get, Picked, Lex, Before, Back;
    r, passed := ns, [];
    var cur := p;
    PickedNothing(t, test);
    while PrevSibling(cur).None?
      invariant Has(t, cur) && (cur == n || Lex(cur, n))
      invariant Before(t, n, p) == passed + Before(t, n, cur) && r == ns + Picked(t, test, passed)
      decreases |cur|
    {
      if cur == [] {
        BeforeDocument(t, n);
        return r, None, passed;
      }
      LeaveUp(t, n, cur);
      cur := cur[..|cur| - 1];
      var ancestor := NodeIsAncestor(cur, n);
      if !ancestor {
        r := Push(r, t, test, cur);
        PickedConcat(t, test, passed, [cur]);
        passed := passed + [cur];
      }
    }
    EnterPrev(t, n, cur);
    next := PrevSibling(cur);
  }

  lemma BeforeDocument(t: Tree, n: Path)
    ensures Has(t, []) && Before(t, n, []) == []
  {
  }

  /** axis_preceding */
  method FillPreceding(ns: seq<XNode>, t: Tree, test: Test, n: Path) returns (r: seq<XNode>)
    requires Has(t, n)
    ensures r == ns + Picked(t, test, Preceding(t, n))
  {
    hide Has, Get, Picked, Lex, Before, Back;
    var cur;
    ghost var done;
    r, cur, done := ExitBack(ns, t, test, n, n);
    ghost var rest := if cur.Some? then Back(Get(t, cur.value), cur.value) + Before(t, n, cur.value) else [];
    ghost var all := Before(t, n, n);
    while cur.Some?
      invariant cur.Some? ==> Has(t, cur.value) && !(cur.value <= n) && Lex(cur.value, n) &&
                              rest == Back(Get(t, cur.value), cur.value) + Before(t, n, cur.value)
      invariant cur.None? ==> rest == []
      invariant all == done + rest && r == ns + Picked(t, test, done)
      decreases |rest|, if cur.Some? then Below(t, cur.value) else 0
    {
      var c := cur.value;
      if LastChild(t, c).Some? {
        EnterLast(t, n, c);
        Deeper(t, c);
        cur := LastChild(t, c);
      } else {
        LeafBack(t, c);
        r := Push(r, t, test, c);
        PickedConcat(t, test, done, [c]);
        ghost var passed;
        r, cur, passed := ExitBack(r, t, test, n, c);
        PickedConcat(t, test, done + [c], passed);
        ghost var rest' := if cur.Some? then Back(Get(t, cur.value), cur.value) + Before(t, n, cur.value) else [];
        assert all == done + [c] + passed + rest';
        done, rest := done + [c] + passed, rest';
      }
    }
    assert done == all;
  }

  /** The size of the subtree. */
  function Below(t: Tree, p: Path): nat
    requires Has(t, p)
  {
    |Pre(Get(t, p), p)|
  }

  lemma Deeper(t: Tree, p: Path)
    requires Has(t, p) && LastChild(t, p).Some?
    ensures var c := LastChild(t, p).value; Has(t, c) && Below(t, c) < Below(t, p)
  {
    var ts := Get(t, p).children;
    HasChild(t, p, |ts| - 1);
    LastKid(ts, p, 0);
  }

  lemma {:induction false} LastKid(ts: seq<Tree>, p: Path, i: nat)
    requires i < |ts|
    ensures |PreKids(ts, p, i)| >= |Pre(ts[|ts| - 1], p + [|ts| - 1])|
    decreases |ts| - i
  {
    if i < |ts| - 1 {
      LastKid(ts, p, i + 1);
    }
  }

  // ---------- The short axes ----------

  /** p with the last position running from i up to j. */
  function Range(q: Path, i: int, j: int): (r: seq<Path>)
    ensures |r| == (if i < j then j - i else 0) && forall k :: 0 <= k < |r| ==> r[k] == q + [i + k]
    decreases j - i
  {
    if i >= j then [] else [q + [i]] + Range(q, i + 1, j)
  }

  function RangeBack(q: Path, i: int): (r: seq<Path>)
    ensures |r| == (if i > 0 then i else 0) && forall k :: 0 <= k < |r| ==> r[k] == q + [i - 1 - k]
    decreases i
  {
    if i <= 0 then [] else [q + [i - 1]] + RangeBack(q, i - 1)
  }

  function Children(t: Tree, p: Path): seq<Path>
    requires Has(t, p)
  {
    Range(p, 0, |Get(t, p).children|)
  }

  function FollowingSiblings(t: Tree, p: Path): seq<Path>
    requires Has(t, p)
  {
    if p == [] then [] else Range(p[..|p| - 1], p[|p| - 1] + 1, |Siblings(t, p)|)
  }

  function PrecedingSiblings(p: Path): seq<Path> {
    if p == [] then [] else RangeBack(p[..|p| - 1], p[|p| - 1])
  }

  function ParentList(p: Path): seq<Path> {
    if p == [] then [] else [p[..|p| - 1]]
  }

  lemma RangeSnoc(q: Path, i: int, k: int)
    requires i <= k
    ensures Range(q, i, k + 1) == Range(q, i, k) + [q + [k]]
  {
    hide Range;
  }

  /** Push start and its later siblings. */
  method PushSiblings(ns: seq<XNode>, t: Tree, test: Test, q: Path, i: nat) returns (r: seq<XNode>)
    requires Has(t, q) && i <= |Get(t, q).children|
    ensures r == ns + Picked(t, test, Range(q, i, |Get(t, q).children|))
  {
    hide Has, Get, Picked, Range, NextSibling;
    var n := |Get(t, q).children|;
    r := ns;
    PickedNothing(t, test);
    assert Range(q, i, i) == [];
    if i == n {
      return;
    }
    HasChild(t, q, i);
    var cur := Some(q + [i]);
    ghost var k := i;
    while cur.Some?
      invariant i <= k <= n && (cur.Some? ==> k < n && cur.value == q + [k] && Has(t, cur.value)) &&
        (cur.None? ==> k == n)
      invariant r == ns + Picked(t, test, Range(q, i, k))
      decreases n - k
    {
      r := Push(r, t, test, cur.value);
      PickedConcat(t, test, Range(q, i, k), [q + [k]]);
      RangeSnoc(q, i, k);
      NextInRange(t, q, k);
      cur := NextSibling(t, cur.value);
      k := k + 1;
    }
  }

  method FillChild(ns: seq<XNode>, t: Tree, test: Test, n: Path) returns (r: seq<XNode>)
    requires Has(t, n)
    ensures r == ns + Picked(t, test, Children(t, n))
  {
    r := PushSiblings(ns, t, test, n, 0);
  }

  method FillFollowingSibling(ns: seq<XNode>, t: Tree, test: Test, n: Path) returns (r: seq<XNode>)
    requires Has(t, n)
    ensures r == ns + Picked(t, test, FollowingSiblings(t, n))
  {
    hide Picked;
    PickedNothing(t, test);
    if n == [] {
      return ns;
    }
    HasFront(t, n);
    r := PushSiblings(ns, t, test, n[..|n| - 1], n[|n| - 1] + 1);
  }

  method FillPrecedingSibling(ns: seq<XNode>, t: Tree, test: Test, n: Path) returns (r: seq<XNode>)
    requires Has(t, n)
    ensures r == ns + Picked(t, test, PrecedingSiblings(n))
  {
    hide Has, Get, Picked, RangeBack;
    r := ns;
    PickedNothing(t, test);
    if n == [] {
      return;
    }
    var q, i := n[..|n| - 1], n[|n| - 1];
    ghost var done := [];
    var cur := n;
    while PrevSibling(cur).Some?
      invariant |cur| == |n| && cur[..|q|] == q && Has(t, cur)
      invariant r == ns + Picked(t, test, done) && RangeBack(q, i) == done + RangeBack(q, cur[|q|])
      decreases cur[|q|]
    {
      LinksLead(t, cur);
      RangeBackStep(q, cur[|q|]);
      cur := PrevSibling(cur).value;
      r := Push(r, t, test, cur);
      PickedConcat(t, test, done, [cur]);
      done := done + [cur];
    }
    HasFront(t, cur);
    RangeBackEnd(q);
    assert cur[|q|] == 0;
    assert RangeBack(q, i) == done;
  }

  lemma RangeBackStep(q: Path, i: int)
    requires i > 0
    ensures RangeBack(q, i) == [q + [i - 1]] + RangeBack(q, i - 1)
  {
  }

  lemma RangeBackEnd(q: Path)
    ensures RangeBack(q, 0) == []
  {
  }

  lemma NearestAncestor(p: Path)
    ensures Ancestors(p) == if p == [] then [] else [p[..|p| - 1]] + Ancestors(p[..|p| - 1])
  {
  }

  method FillAncestor(ns: seq<XNode>, t: Tree, test: Test, n: Path) returns (r: seq<XNode>)
    requires Has(t, n)
    ensures r == ns + Picked(t, test, Ancestors(n))
  {
    hide Has, Get, Picked, Ancestors;
    r := ns;
    PickedNothing(t, test);
    ghost var done := [];
    var cur := n;
    while cur != []
      invariant Has(t, cur) && r == ns + Picked(t, test, done) && Ancestors(n) == done + Ancestors(cur)
      decreases |cur|
    {
      LinksLead(t, cur);
      NearestAncestor(cur);
      cur := Parent(cur).value;
      r := Push(r, t, test, cur);
      PickedConcat(t, test, done, [cur]);
      done := done + [cur];
    }
    NearestAncestor([]);
    assert done == Ancestors(n);
  }

  method FillAttribute(ns: seq<XNode>, t: Tree, test: Test, n: Path) returns (r: seq<XNode>)
    requires Has(t, n)
    ensures r == ns + PickedAttrs(Get(t, n).attrs, test, n, 0)
  {
    hide Has, Get;
    var names := Get(t, n).attrs;
    r := ns;
    var k := 0;
    while k < |names|
      invariant k <= |names| && r + PickedAttrs(names, test, n, k) == ns + PickedAttrs(names, test, n, 0)
    {
      if PassesAttr(test, names[k]) {
        r := r + [Attr(n, k)];
      }
      k := k + 1;
    }
    assert PickedAttrs(names, test, n, k) == [];
  }

  // ---------- A step from one context node ----------

  /** The node or attribute is in the document. */
  predicate In(t: Tree, x: XNode) {
    match x
    case Node(p) => Has(t, p)
    case Attr(p, k) => Has(t, p) && k < |Get(t, p).attrs|
  }

  function SelfAttr(t: Tree, test: Test, x: XNode): seq<XNode>
    requires In(t, x) && x.Attr?
  {
    if test == TestNode && !DeclaresNamespace(Get(t, x.owner).attrs[x.index]) then [x] else []
  }

  /** What the step selects, in the order of the axis. */
  function AxisNodes(t: Tree, axis: Axis, test: Test, x: XNode): seq<XNode>
    requires In(t, x)
  {
    match x
    case Node(p) =>
      (match axis
       case AxisAncestor => Picked(t, test, Ancestors(p))
       case AxisAncestorOrSelf => Picked(t, test, [p] + Ancestors(p))
       case AxisAttribute => PickedAttrs(Get(t, p).attrs, test, p, 0)
       case AxisChild => Picked(t, test, Children(t, p))
       case AxisDescendant => Picked(t, test, Descendants(t, p))
       case AxisDescendantOrSelf => Picked(t, test, [p] + Descendants(t, p))
       case AxisFollowing => Picked(t, test, Following(t, p))
       case AxisFollowingSibling => Picked(t, test, FollowingSiblings(t, p))
       case AxisParent => Picked(t, test, ParentList(p))
       case AxisPreceding => Picked(t, test, Preceding(t, p))
       case AxisPrecedingSibling => Picked(t, test, PrecedingSiblings(p))
       case AxisSelf => Picked(t, test, [p]))
    case Attr(p, _) =>
      (match axis
       case AxisAncestor => Picked(t, test, [p] + Ancestors(p))
       case AxisAncestorOrSelf => SelfAttr(t, test, x) + Picked(t, test, [p] + Ancestors(p))
       case AxisDescendantOrSelf => SelfAttr(t, test, x)
       case AxisSelf => SelfAttr(t, test, x)
       case AxisFollowing => Picked(t, test, Descendants(t, p) + Following(t, p))
       case AxisParent => Picked(t, test, [p])
       case AxisPreceding => Picked(t, test, Preceding(t, p))
       case _ => [])
  }

  method StepFillNode(ns: seq<XNode>, t: Tree, axis: Axis, test: Test, p: Path) returns (r: seq<XNode>)
    requires Has(t, p)
    ensures r == ns + AxisNodes(t, axis, test, Node(p))
  {
    hide Picked, PickedAttrs, Has, Get, Ancestors, Descendants, Following, Preceding, Children, FollowingSiblings,
        PrecedingSiblings;
    match axis {
      case AxisAncestor => r := FillAncestor(ns, t, test, p);
      case AxisAncestorOrSelf =>
        r := Push(ns, t, test, p);
        r := FillAncestor(r, t, test, p);
        PickedConcat(t, test, [p], Ancestors(p));
      case AxisAttribute => r := FillAttribute(ns, t, test, p);
      case AxisChild => r := FillChild(ns, t, test, p);
      case AxisDescendant => r := FillDescendant(ns, t, test, p);
      case AxisDescendantOrSelf =>
        r := Push(ns, t, test, p);
        r := FillDescendant(r, t, test, p);
        PickedConcat(t, test, [p], Descendants(t, p));
      case AxisFollowing => r := FillFollowing(ns, t, test, p);
      case AxisFollowingSibling => r := FillFollowingSibling(ns, t, test, p);
      case AxisParent =>
        LinksLead(t, p);
        PickedNothing(t, test);
        r := ns;
        if Parent(p).Some? {
          r := Push(ns, t, test, Parent(p).value);
        }
      case AxisPreceding => r := FillPreceding(ns, t, test, p);
      case AxisPrecedingSibling => r := FillPrecedingSibling(ns, t, test, p);
      case AxisSelf => r := Push(ns, t, test, p);
    }
  }

  /** step_push for an attribute that is its own context: only node() accepts it. */
  method PushSelfAttr(ns: seq<XNode>, t: Tree, test: Test, x: XNode) returns (r: seq<XNode>)
    requires In(t, x) && x.Attr?
    ensures r == ns + SelfAttr(t, test, x)
  {
    r := ns;
    if test == TestNode && PassesAttr(test, Get(t, x.owner).attrs[x.index]) {
      r := r + [x];
    }
  }

  method StepFillAttr(ns: seq<XNode>, t: Tree, axis: Axis, test: Test, x: XNode) returns (r: seq<XNode>)
    requires In(t, x) && x.Attr?
    ensures r == ns + AxisNodes(t, axis, test, x)
  {
    hide Picked, PickedAttrs, Has, Get, Ancestors, Descendants, Following, Preceding, SelfAttr;
    var p := x.owner;
    r := ns;
    match axis {
      case AxisAncestor =>
        r := Push(r, t, test, p);
        r := FillAncestor(r, t, test, p);
        PickedConcat(t, test, [p], Ancestors(p));
      case AxisAncestorOrSelf =>
        r := PushSelfAttr(r, t, test, x);
        r := Push(r, t, test, p);
        r := FillAncestor(r, t, test, p);
        PickedConcat(t, test, [p], Ancestors(p));
      case AxisDescendantOrSelf => r := PushSelfAttr(r, t, test, x);
      case AxisSelf => r := PushSelfAttr(r, t, test, x);
      case AxisFollowing => r := FillFollowingAttr(r, t, test, p);
      case AxisParent => r := Push(r, t, test, p);
      case AxisPreceding => r := FillPreceding(r, t, test, p);
      case AxisAttribute => assert AxisNodes(t, axis, test, x) == [];
      case AxisChild => assert AxisNodes(t, axis, test, x) == [];
      case AxisDescendant => assert AxisNodes(t, axis, test, x) == [];
      case AxisFollowingSibling => assert AxisNodes(t, axis, test, x) == [];
      case AxisPrecedingSibling => assert AxisNodes(t, axis, test, x) == [];
    }
  }
}
