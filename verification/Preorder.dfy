/** Lists of the nodes of a tree: document order, its reverse, and what comes before and after a node. */
module Preorder {
  import opened Tree

  /** The subtree of p in document order. */
  function Pre(t: Tree, p: Path): seq<Path>
    decreases t, 0
  {
    [p] + PreKids(t.children, p, 0)
  }

  /** The children of p from position i on, each with its subtree. */
  function PreKids(ts: seq<Tree>, p: Path, i: nat): seq<Path>
    requires i <= |ts|
    decreases ts, 1, |ts| - i
  {
    if i == |ts| then [] else Pre(ts[i], p + [i]) + PreKids(ts, p, i + 1)
  }

  /** The subtree of p in reverse document order. */
  function Back(t: Tree, p: Path): seq<Path>
    decreases t, 0
  {
    BackKids(t.children, p, |t.children|) + [p]
  }

  /** The children of p before position i, the last first. */
  function BackKids(ts: seq<Tree>, p: Path, i: nat): seq<Path>
    requires i <= |ts|
    decreases ts, 1, i
  {
    if i == 0 then [] else Back(ts[i - 1], p + [i - 1]) + BackKids(ts, p, i - 1)
  }

  /** Everything after the subtree of p, up to the end of the subtree of stop. */
  function After(t: Tree, stop: Path, p: Path): seq<Path>
    requires Has(t, p) && stop <= p
    decreases |p|
  {
    if p == stop then []
    else
      HasFront(t, p);
      var q := p[..|p| - 1];
      PreKids(Get(t, q).children, q, p[|p| - 1] + 1) + After(t, stop, q)
  }

  /** Everything before the subtree of p in reverse document order, without the ancestors of n. */
  function Before(t: Tree, n: Path, p: Path): seq<Path>
    requires Has(t, p)
    decreases |p|
  {
    if p == [] then []
    else
      HasFront(t, p);
      var q := p[..|p| - 1];
      BackKids(Get(t, q).children, q, p[|p| - 1]) + (if q <= n then [] else [q]) + Before(t, n, q)
  }

  /** The ancestors of p, the nearest first. */
  function Ancestors(p: Path): (r: seq<Path>)
    decreases |p|
  {
    if p == [] then [] else [p[..|p| - 1]] + Ancestors(p[..|p| - 1])
  }

  // ---------- What the lists hold ----------

  /** q is below p in the list of children, at position i or later. */
  predicate InKids(ts: seq<Tree>, p: Path, q: Path, from: int, to: int) {
    p < q && 0 <= from <= q[|p|] < to <= |ts| && Has(ts[q[|p|]], q[|p| + 1..])
  }

  lemma {:induction false} PreMembers(t: Tree, p: Path, q: Path)
    ensures q in Pre(t, p) <==> p <= q && Has(t, q[|p|..])
    decreases t, 0
  {
    PreKidsMembers(t.children, p, 0, q);
    if p < q {
      assert q[|p|..][0] == q[|p|] && q[|p|..][1..] == q[|p| + 1..];
    }
    if p <= q && !(p < q) {
      assert q == p && q[|p|..] == [];
    }
  }

  lemma {:induction false} PreKidsMembers(ts: seq<Tree>, p: Path, i: nat, q: Path)
    requires i <= |ts|
    ensures q in PreKids(ts, p, i) <==> InKids(ts, p, q, i, |ts|)
    decreases ts, 1, |ts| - i
  {
    if i < |ts| {
      PreMembers(ts[i], p + [i], q);
      PreKidsMembers(ts, p, i + 1, q);
      ChildPrefix(p, i, q);
    }
  }

  lemma ChildPrefix(p: Path, i: int, q: Path)
    ensures p + [i] <= q <==> p < q && q[|p|] == i
  {
    if p < q && q[|p|] == i {
      assert p + [i] == q[..|p| + 1];
    }
  }

  lemma {:induction false} BackMembers(t: Tree, p: Path, q: Path)
    ensures q in Back(t, p) <==> p <= q && Has(t, q[|p|..])
    decreases t, 0
  {
    BackKidsMembers(t.children, p, |t.children|, q);
    if p < q {
      assert q[|p|..][0] == q[|p|] && q[|p|..][1..] == q[|p| + 1..];
    }
    if p <= q && !(p < q) {
      assert q == p && q[|p|..] == [];
    }
  }

  lemma {:induction false} BackKidsMembers(ts: seq<Tree>, p: Path, i: nat, q: Path)
    requires i <= |ts|
    ensures q in BackKids(ts, p, i) <==> InKids(ts, p, q, 0, i)
    decreases ts, 1, i
  {
    if i > 0 {
      BackMembers(ts[i - 1], p + [i - 1], q);
      BackKidsMembers(ts, p, i - 1, q);
      ChildPrefix(p, i - 1, q);
    }
  }

  // ---------- The lists are in order ----------

  ghost predicate Increasing(s: seq<Path>) {
    forall i, j :: 0 <= i < j < |s| ==> Lex(s[i], s[j])
  }

  ghost predicate Decreasing(s: seq<Path>) {
    forall i, j :: 0 <= i < j < |s| ==> Lex(s[j], s[i])
  }

  /** Everything in x comes before everything in y. */
  ghost predicate AllBefore(x: seq<Path>, y: seq<Path>) {
    forall a, b :: a in x && b in y ==> Lex(a, b)
  }

  lemma IncreasingConcat(x: seq<Path>, y: seq<Path>)
    requires Increasing(x) && Increasing(y) && AllBefore(x, y)
    ensures Increasing(x + y)
  {
    var z := x + y;
    forall i, j | 0 <= i < j < |z|
      ensures Lex(z[i], z[j])
    {
      if i < |x| <= j {
        assert z[i] in x && z[j] in y;
      }
    }
  }

  lemma DecreasingConcat(x: seq<Path>, y: seq<Path>)
    requires Decreasing(x) && Decreasing(y) && AllBefore(y, x)
    ensures Decreasing(x + y)
  {
    var z := x + y;
    forall i, j | 0 <= i < j < |z|
      ensures Lex(z[j], z[i])
    {
      if i < |x| <= j {
        assert z[i] in x && z[j] in y;
      }
    }
  }

  lemma LexSiblings(p: Path, a: Path, b: Path)
    requires p < a && p < b && a[|p|] < b[|p|]
    ensures Lex(a, b)
  {
    LexAt(a, b, |p|);
  }

  lemma {:induction false} PreIncreasing(t: Tree, p: Path)
    ensures Increasing(Pre(t, p))
    decreases t, 0
  {
    PreKidsIncreasing(t.children, p, 0);
    var kids := PreKids(t.children, p, 0);
    forall b | b in kids
      ensures Lex(p, b)
    {
      PreKidsMembers(t.children, p, 0, b);
      LexPrefix(p, b);
    }
    IncreasingConcat([p], kids);
  }

  lemma {:induction false} PreKidsIncreasing(ts: seq<Tree>, p: Path, i: nat)
    requires i <= |ts|
    ensures Increasing(PreKids(ts, p, i))
    decreases ts, 1, |ts| - i
  {
    if i < |ts| {
      PreIncreasing(ts[i], p + [i]);
      PreKidsIncreasing(ts, p, i + 1);
      var x, y := Pre(ts[i], p + [i]), PreKids(ts, p, i + 1);
      forall a, b | a in x && b in y
        ensures Lex(a, b)
      {
        PreMembers(ts[i], p + [i], a);
        ChildPrefix(p, i, a);
        PreKidsMembers(ts, p, i + 1, b);
        LexSiblings(p, a, b);
      }
      IncreasingConcat(x, y);
    }
  }

  lemma {:induction false} BackDecreasing(t: Tree, p: Path)
    ensures Decreasing(Back(t, p))
    decreases t, 0
  {
    var n := |t.children|;
    BackKidsDecreasing(t.children, p, n);
    var kids := BackKids(t.children, p, n);
    forall b | b in kids
      ensures Lex(p, b)
    {
      BackKidsMembers(t.children, p, n, b);
      LexPrefix(p, b);
    }
    DecreasingConcat(kids, [p]);
  }

  lemma {:induction false} BackKidsDecreasing(ts: seq<Tree>, p: Path, i: nat)
    requires i <= |ts|
    ensures Decreasing(BackKids(ts, p, i))
    decreases ts, 1, i
  {
    if i > 0 {
      BackDecreasing(ts[i - 1], p + [i - 1]);
      BackKidsDecreasing(ts, p, i - 1);
      var x, y := Back(ts[i - 1], p + [i - 1]), BackKids(ts, p, i - 1);
      forall a, b | a in y && b in x
        ensures Lex(a, b)
      {
        BackMembers(ts[i - 1], p + [i - 1], b);
        ChildPrefix(p, i - 1, b);
        BackKidsMembers(ts, p, i - 1, a);
        LexSiblings(p, a, b);
      }
      DecreasingConcat(x, y);
    }
  }

  // ---------- Document order is preorder ----------

  /** Two nodes compare as their places in the preorder list of the document. */
  lemma OrderIsPreorder(t: Tree, l: Path, r: Path) returns (i: nat, j: nat)
    requires Has(t, l) && Has(t, r)
    ensures i < |Pre(t, [])| && j < |Pre(t, [])| && Pre(t, [])[i] == l && Pre(t, [])[j] == r
    ensures Lex(l, r) <==> i < j
  {
    PreMembers(t, [], l);
    PreMembers(t, [], r);
    PreIncreasing(t, []);
    assert l[0..] == l && r[0..] == r;
    var all := Pre(t, []);
    i :| 0 <= i < |all| && all[i] == l;
    j :| 0 <= j < |all| && all[j] == r;
    LexTotal(l, r);
    LexIrreflexive(l);
  }
}
