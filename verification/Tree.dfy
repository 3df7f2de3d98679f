/** Document trees with nodes named by their paths from the document, and document order on them. */
module Tree {
  import opened Common
  import opened NodeKind

  datatype Tree = Tree(kind: Kind, name: string, attrs: seq<string>, children: seq<Tree>)

  type Path = seq<int>

  /** The path leads to a node. */
  predicate Has(t: Tree, p: Path) {
    p == [] || (0 <= p[0] < |t.children| && Has(t.children[p[0]], p[1..]))
  }

  function Get(t: Tree, p: Path): Tree
    requires Has(t, p)
  {
    if p == [] then t else Get(t.children[p[0]], p[1..])
  }

  // ---------- The links of a node ----------

  function Parent(p: Path): Option<Path> {
    if p == [] then None else Some(p[..|p| - 1])
  }

  function FirstChild(t: Tree, p: Path): Option<Path>
    requires Has(t, p)
  {
    if Get(t, p).children == [] then None else Some(p + [0])
  }

  function LastChild(t: Tree, p: Path): Option<Path>
    requires Has(t, p)
  {
    if Get(t, p).children == [] then None else Some(p + [|Get(t, p).children| - 1])
  }

  function Siblings(t: Tree, p: Path): seq<Tree>
    requires Has(t, p) && p != []
  {
    HasFront(t, p);
    Get(t, p[..|p| - 1]).children
  }

  function NextSibling(t: Tree, p: Path): Option<Path>
    requires Has(t, p)
  {
    if p == [] then None
    else
      var n := |p| - 1;
      if p[n] + 1 < |Siblings(t, p)| then Some(p[..n] + [p[n] + 1]) else None
  }

  function PrevSibling(p: Path): Option<Path> {
    if p == [] || p[|p| - 1] <= 0 then None else Some(p[..|p| - 1] + [p[|p| - 1] - 1])
  }

  lemma {:induction false} HasFront(t: Tree, p: Path)
    requires Has(t, p) && p != []
    ensures Has(t, p[..|p| - 1]) && 0 <= p[|p| - 1] < |Get(t, p[..|p| - 1]).children|
    ensures Get(t, p) == Get(t, p[..|p| - 1]).children[p[|p| - 1]]
  {
    if |p| > 1 {
      HasFront(t.children[p[0]], p[1..]);
      assert p[..|p| - 1][1..] == p[1..][..|p| - 2];
    } else {
      assert p[1..] == [] && p[..0] == [];
    }
  }

  lemma {:induction false} HasChild(t: Tree, p: Path, i: nat)
    requires Has(t, p) && i < |Get(t, p).children|
    ensures Has(t, p + [i]) && Get(t, p + [i]) == Get(t, p).children[i]
  {
    if p != [] {
      HasChild(t.children[p[0]], p[1..], i);
      assert (p + [i])[1..] == p[1..] + [i];
    } else {
      assert ([] + [i])[1..] == [];
    }
  }

  /** The links lead to nodes of the tree. */
  lemma LinksLead(t: Tree, p: Path)
    requires Has(t, p)
    ensures Parent(p).Some? ==> Has(t, Parent(p).value)
    ensures FirstChild(t, p).Some? ==> Has(t, FirstChild(t, p).value)
    ensures LastChild(t, p).Some? ==> Has(t, LastChild(t, p).value)
    ensures NextSibling(t, p).Some? ==> Has(t, NextSibling(t, p).value)
    ensures PrevSibling(p).Some? ==> Has(t, PrevSibling(p).value)
  {
    var kids := |Get(t, p).children|;
    if kids > 0 {
      HasChild(t, p, 0);
      HasChild(t, p, kids - 1);
    }
    if p != [] {
      HasFront(t, p);
      var q, i := p[..|p| - 1], p[|p| - 1];
      if i + 1 < |Get(t, q).children| {
        HasChild(t, q, i + 1);
      }
      if i > 0 {
        HasChild(t, q, i - 1);
      }
    }
  }

  // ---------- Document order on paths ----------

  /** Ancestors come before their descendants, and siblings and what is below them in sibling order. */
  predicate Lex(l: Path, r: Path) {
    r != [] && (l == [] || l[0] < r[0] || (l[0] == r[0] && Lex(l[1..], r[1..])))
  }

  lemma {:induction false} LexTotal(l: Path, r: Path)
    ensures l == r || Lex(l, r) || Lex(r, l)
    ensures !(Lex(l, r) && Lex(r, l)) && !Lex(l, l)
  {
    if l != [] && r != [] && l[0] == r[0] {
      LexTotal(l[1..], r[1..]);
      if l[1..] == r[1..] {
        assert l == [l[0]] + l[1..] && r == [r[0]] + r[1..];
      }
    }
    if l != [] {
      LexIrreflexive(l);
    }
  }

  lemma {:induction false} LexIrreflexive(l: Path)
    ensures !Lex(l, l)
  {
    if l != [] {
      LexIrreflexive(l[1..]);
    }
  }

  lemma {:induction false} LexTrans(l: Path, m: Path, r: Path)
    requires Lex(l, m) && Lex(m, r)
    ensures Lex(l, r)
  {
    if l != [] && l[0] == m[0] == r[0] {
      LexTrans(l[1..], m[1..], r[1..]);
    }
  }

  /** Order below a common prefix. */
  lemma {:induction false} LexBelow(p: Path, l: Path, r: Path)
    ensures Lex(p + l, p + r) <==> Lex(l, r)
  {
    if p == [] {
      assert p + l == l && p + r == r;
    } else {
      LexBelow(p[1..], l, r);
      assert (p + l)[1..] == p[1..] + l && (p + r)[1..] == p[1..] + r;
    }
  }

  /** The order of two paths that differ first at position k. */
  lemma LexAt(l: Path, r: Path, k: nat)
    requires k < |l| && k < |r| && l[..k] == r[..k] && l[k] != r[k]
    ensures Lex(l, r) <==> l[k] < r[k]
  {
    LexBelow(l[..k], l[k..], r[k..]);
    assert l == l[..k] + l[k..] && r == l[..k] + r[k..];
  }

  lemma LexPrefix(l: Path, r: Path)
    requires l <= r && l != r
    ensures Lex(l, r) && !Lex(r, l)
  {
    LexBelow(l, [], r[|l|..]);
    LexBelow(l, r[|l|..], []);
    assert l == l + [] && r == l + r[|l|..];
  }

  // ---------- node_is_before ----------

  method NodeHeight(p: Path) returns (height: nat)
    ensures height == |p| + 1
  {
    height := 0;
    var n := Some(p);
    while n.Some?
      invariant n.Some? ==> n.value <= p && height == |p| - |n.value|
      invariant n.None? ==> height == |p| + 1
      decreases if n.Some? then |n.value| + 1 else 0
    {
      height := height + 1;
      n := Parent(n.value);
    }
  }

  /** Climb the given number of levels. */
  method Climb(p: Path, from: nat, to: nat) returns (q: Path)
    requires to - from <= |p|
    ensures q == p[..if to <= from then |p| else |p| - (to - from)]
  {
    q := p;
    var i := from;
    while i < to
      invariant from <= to ==> from <= i <= to && q == p[..|p| - (i - from)]
      invariant from > to ==> q == p
    {
      q := q[..|q| - 1];
      i := i + 1;
    }
  }

  /** Both are levelled, their common ancestor is found, and the siblings below it decide. */
  method NodeIsBefore(t: Tree, l: Path, lh: nat, r: Path, rh: nat) returns (before: bool)
    requires Has(t, l) && Has(t, r) && lh == |l| + 1 && rh == |r| + 1
    ensures before <==> Lex(l, r)
  {
    var ln := Climb(l, rh, lh);
    var rn := Climb(r, lh, rh);
    if ln == rn {
      LevelledEqual(l, r, ln);
      return lh < rh;
    }
    while Parent(ln) != Parent(rn)
      invariant ln <= l && rn <= r && |ln| == |rn| && ln != rn
      decreases |ln|
    {
      ln, rn := ln[..|ln| - 1], rn[..|rn| - 1];
    }
    LevelledSiblings(l, r, ln, rn);
    before := IsLaterSibling(t, ln, rn) by { PrefixHas(t, l, ln); PrefixHas(t, r, rn); }
  }

  lemma LevelledEqual(l: Path, r: Path, common: Path)
    requires common <= l && common <= r && (common == l || common == r)
    ensures Lex(l, r) <==> |l| < |r|
  {
    if l != r {
      if common == l {
        LexPrefix(l, r);
      } else {
        LexPrefix(r, l);
      }
    } else {
      LexIrreflexive(l);
    }
  }

  lemma LevelledSiblings(l: Path, r: Path, ln: Path, rn: Path)
    requires ln <= l && rn <= r && |ln| == |rn| && ln != rn && Parent(ln) == Parent(rn)
    ensures ln != [] && ln[..|ln| - 1] == rn[..|rn| - 1] && ln[|ln| - 1] != rn[|rn| - 1]
    ensures Lex(l, r) <==> ln[|ln| - 1] < rn[|rn| - 1]
  {
    var k := |ln| - 1;
    assert ln == ln[..k] + [ln[k]] && rn == rn[..k] + [rn[k]];
    assert l[..k] == ln[..k] && r[..k] == rn[..k];
    LexAt(l, r, k);
  }

  lemma {:induction false} PrefixHas(t: Tree, p: Path, q: Path)
    requires Has(t, p) && q <= p
    ensures Has(t, q)
  {
    if q != [] {
      assert q[1..] <= p[1..];
      PrefixHas(t.children[p[0]], p[1..], q[1..]);
    }
  }

  lemma NextInRange(t: Tree, q: Path, k: nat)
    requires Has(t, q) && k < |Get(t, q).children|
    ensures Has(t, q + [k])
    ensures NextSibling(t, q + [k]) == if k + 1 < |Get(t, q).children| then Some(q + [k + 1]) else None
    ensures k + 1 < |Get(t, q).children| ==> Has(t, q + [k + 1])
  {
    hide Has, Get;
    HasChild(t, q, k);
    assert (q + [k])[..|q|] == q;
    if k + 1 < |Get(t, q).children| {
      HasChild(t, q, k + 1);
    }
  }

  /** Walk along the siblings from ln on. */
  method IsLaterSibling(t: Tree, ln: Path, rn: Path) returns (later: bool)
    requires Has(t, ln) && Has(t, rn) && ln != [] && rn != [] && ln[..|ln| - 1] == rn[..|rn| - 1]
    ensures later <==> ln[|ln| - 1] <= rn[|rn| - 1]
  {
    hide Has, Get, NextSibling;
    var cur := Some(ln);
    ghost var q := ln[..|ln| - 1];
    ghost var i, j := ln[|ln| - 1], rn[|rn| - 1];
    HasFront(t, ln);
    HasFront(t, rn);
    assert ln == q + [i] && rn == q + [j];
    ghost var n, k := |Get(t, q).children|, i;
    while cur.Some?
      invariant i <= k <= n && (cur.Some? ==> k < n && cur.value == q + [k] && Has(t, cur.value)) &&
        (cur.None? ==> k == n)
      invariant i <= j ==> k <= j
      decreases n - k
    {
      if cur.value == rn {
        assert cur.value[|q|] == k && rn[|q|] == j;
        return true;
      }
      NextInRange(t, q, k);
      cur := NextSibling(t, cur.value);
      k := k + 1;
    }
    return false;
  }
}
