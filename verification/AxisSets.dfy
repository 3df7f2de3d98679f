/** The node lists of the axes: what is in them, and in which order. */
module AxisSets {
  import opened Tree
  import opened Preorder

  lemma {:induction false} HasBelow(t: Tree, p: Path, r: Path)
    ensures Has(t, p + r) <==> Has(t, p) && Has(Get(t, p), r)
  {
    if p == [] {
      assert p + r == r;
    } else {
      assert (p + r)[1..] == p[1..] + r;
      if 0 <= p[0] < |t.children| {
        HasBelow(t.children[p[0]], p[1..], r);
      }
    }
  }

  /** Two paths, neither a prefix of the other, part somewhere. */
  lemma {:induction false} Part(a: Path, b: Path) returns (k: nat)
    requires !(a <= b) && !(b <= a)
    ensures k < |a| && k < |b| && a[..k] == b[..k] && a[k] != b[k]
  {
    if a[0] != b[0] {
      k := 0;
    } else {
      assert a == [a[0]] + a[1..] && b == [b[0]] + b[1..];
      k := Part(a[1..], b[1..]);
      k := k + 1;
      assert a[..k] == [a[0]] + a[1..][..k - 1] && b[..k] == [b[0]] + b[1..][..k - 1];
    }
  }

  /** What lies outside a subtree lies on the same side of everything in it. */
  lemma LexOutside(p: Path, a: Path, q: Path)
    requires p <= a && !(p <= q)
    ensures Lex(p, q) <==> Lex(a, q)
    ensures !(q <= p) ==> (Lex(q, p) <==> Lex(q, a))
  {
    if q <= p {
      LexPrefix(q, p);
      LexPrefix(q, a);
    } else {
      var k := Part(p, q);
      assert a[..k] == p[..k] && a[k] == p[k];
      LexAt(p, q, k);
      LexAt(a, q, k);
      LexAt(q, p, k);
      LexAt(q, a, k);
    }
  }

  lemma InKidsHas(t: Tree, p: Path, q: Path, from: nat, to: nat)
    requires Has(t, p) && to <= |Get(t, p).children|
    ensures InKids(Get(t, p).children, p, q, from, to) <==> Has(t, q) && p < q && from <= q[|p|] < to
  {
    if p < q {
      var r := q[|p|..];
      assert q == p + r && r[0] == q[|p|] && r[1..] == q[|p| + 1..];
      HasBelow(t, p, r);
    }
  }

  // ---------- descendant ----------

  function Descendants(t: Tree, p: Path): seq<Path>
    requires Has(t, p)
  {
    PreKids(Get(t, p).children, p, 0)
  }

  lemma DescendantsAre(t: Tree, p: Path)
    requires Has(t, p)
    ensures Increasing(Descendants(t, p)) && forall q :: q in Descendants(t, p) <==> Has(t, q) && p < q
  {
    var ts := Get(t, p).children;
    PreKidsIncreasing(ts, p, 0);
    forall q: Path
      ensures q in Descendants(t, p) <==> Has(t, q) && p < q
    {
      PreKidsMembers(ts, p, 0, q);
      InKidsHas(t, p, q, 0, |ts|);
      if Has(t, q) && p < q {
        PrefixHas(t, q, q[..|p| + 1]);
        HasFront(t, q[..|p| + 1]);
        assert q[..|p| + 1][..|p|] == p;
      }
    }
  }

  // ---------- ancestor ----------

  lemma {:induction false} AncestorsAre(p: Path)
    ensures Decreasing(Ancestors(p)) && forall q :: q in Ancestors(p) <==> q < p
    decreases |p|
  {
    if p != [] {
      var q := p[..|p| - 1];
      AncestorsAre(q);
      forall a | a in Ancestors(q)
        ensures Lex(a, q)
      {
        LexPrefix(a, q);
      }
      DecreasingConcat([q], Ancestors(q));
      forall a: Path
        ensures a in [q] + Ancestors(q) <==> a < p
      {
        if a < p && |a| == |q| {
          assert a == q;
        }
      }
    }
  }

  // ---------- following ----------

  lemma AfterStep(t: Tree, stop: Path, p: Path, q: Path, x: Path)
    requires Has(t, p) && p != [] && q == p[..|p| - 1] && stop <= q
    ensures Has(t, x) && stop <= x && Lex(p, x) && !(p <= x)
       <==> (Has(t, x) && q < x && p[|q|] < x[|q|]) || (Has(t, x) && stop <= x && Lex(q, x) && !(q <= x))
  {
    var n := |q|;
    assert p == q + [p[n]];
    if q < x {
      if p[n] != x[n] {
        assert p[..n] == x[..n];
        LexAt(p, x, n);
        assert !(p <= x);
      } else {
        assert p == x[..n + 1];
      }
    } else if q == x {
      LexPrefix(q, p);
    } else {
      LexOutside(q, p, x);
    }
  }

  lemma {:induction false} AfterAre(t: Tree, stop: Path, p: Path)
    requires Has(t, p) && stop <= p
    ensures Increasing(After(t, stop, p))
    ensures forall x :: x in After(t, stop, p) <==> Has(t, x) && stop <= x && Lex(p, x) && !(p <= x)
    decreases |p|
  {
    hide Has, Get, Lex;
    if p != stop {
      HasFront(t, p);
      var q, i := p[..|p| - 1], p[|p| - 1];
      var ts := Get(t, q).children;
      var kids, rest := PreKids(ts, q, i + 1), After(t, stop, q);
      AfterAre(t, stop, q);
      PreKidsIncreasing(ts, q, i + 1);
      KidsFrom(t, q, i + 1);
      forall x: Path
        ensures x in kids + rest <==> Has(t, x) && stop <= x && Lex(p, x) && !(p <= x)
      {
        AfterStep(t, stop, p, q, x);
      }
      forall a, b | a in kids && b in rest
        ensures Lex(a, b)
      {
        LexOutside(q, a, b);
      }
      IncreasingConcat(kids, rest);
    }
  }

  lemma KidsFrom(t: Tree, q: Path, i: nat)
    requires Has(t, q) && i <= |Get(t, q).children|
    ensures forall x :: x in PreKids(Get(t, q).children, q, i) <==> Has(t, x) && q < x && i <= x[|q|]
  {
    var ts := Get(t, q).children;
    forall x: Path
      ensures x in PreKids(ts, q, i) <==> Has(t, x) && q < x && i <= x[|q|]
    {
      PreKidsMembers(ts, q, i, x);
      InKidsHas(t, q, x, i, |ts|);
      if Has(t, x) && q < x {
        ChildIndex(t, q, x);
      }
    }
  }

  lemma ChildIndex(t: Tree, q: Path, x: Path)
    requires Has(t, x) && q < x
    ensures Has(t, q) && 0 <= x[|q|] < |Get(t, q).children|
  {
    var y := x[..|q| + 1];
    PrefixHas(t, x, y);
    HasFront(t, y);
    assert y[..|q|] == q;
  }

  lemma KidsTo(t: Tree, q: Path, i: nat)
    requires Has(t, q) && i <= |Get(t, q).children|
    ensures forall x :: x in BackKids(Get(t, q).children, q, i) <==> Has(t, x) && q < x && x[|q|] < i
  {
    var ts := Get(t, q).children;
    forall x: Path
      ensures x in BackKids(ts, q, i) <==> Has(t, x) && q < x && x[|q|] < i
    {
      BackKidsMembers(ts, q, i, x);
      InKidsHas(t, q, x, 0, i);
      if Has(t, x) && q < x {
        ChildIndex(t, q, x);
      }
    }
  }

  // ---------- preceding ----------

  /** Below q: only the subtrees of earlier children come before p, and n is in none of them. */
  lemma BeforeBelow(n: Path, p: Path, q: Path, x: Path)
    requires p != [] && q == p[..|p| - 1] && (p == n || Lex(p, n)) && q < x
    ensures Lex(x, p) && !(x <= n) <==> x[|q|] < p[|q|]
  {
    hide Lex;
    var k := |q|;
    assert p == q + [p[k]];
    if p[k] != x[k] {
      assert p[..k] == x[..k];
      LexAt(x, p, k);
      if x[k] < p[k] && x <= n {
        LexAt(n, p, k);
        LexTotal(p, n);
      }
    } else {
      assert p == x[..k + 1];
      LexTotal(p, x);
      if p != x {
        LexPrefix(p, x);
      }
    }
  }

  /** Outside q: what comes before p is what comes before q. */
  lemma BeforeOutside(p: Path, q: Path, x: Path)
    requires p != [] && q == p[..|p| - 1] && !(q <= x)
    ensures Lex(x, p) <==> Lex(x, q)
  {
    hide Lex;
    assert q <= p;
    if x <= q {
      LexPrefix(x, q);
      LexPrefix(x, p);
    } else {
      LexOutside(q, p, x);
    }
  }

  lemma BeforeStep(t: Tree, n: Path, p: Path, q: Path, x: Path)
    requires Has(t, p) && p != [] && q == p[..|p| - 1] && (p == n || Lex(p, n))
    ensures Has(t, x) && Lex(x, p) && !(x <= n)
       <==> (Has(t, x) && q < x && x[|q|] < p[|q|]) || (x == q && !(q <= n) && Has(t, x)) ||
            (Has(t, x) && Lex(x, q) && !(x <= n))
  {
    hide Lex, Has;
    LexIrreflexive(q);
    if q < x {
      LexPrefix(q, x);
      BeforeBelow(n, p, q, x);
    } else if q == x {
      LexPrefix(q, p);
    } else {
      BeforeOutside(p, q, x);
    }
  }

  lemma ParentBefore(p: Path, n: Path)
    requires p != [] && (p == n || Lex(p, n))
    ensures var q := p[..|p| - 1]; q == n || Lex(q, n)
  {
    var q := p[..|p| - 1];
    LexPrefix(q, p);
    if p != n {
      LexTrans(q, p, n);
    }
  }

  lemma {:induction false} BeforeAre(t: Tree, n: Path, p: Path)
    requires Has(t, p) && (p == n || Lex(p, n))
    ensures Decreasing(Before(t, n, p))
    ensures forall x :: x in Before(t, n, p) <==> Has(t, x) && Lex(x, p) && !(x <= n)
    decreases |p|
  {
    if p != [] {
      HasFront(t, p);
      var q, i := p[..|p| - 1], p[|p| - 1];
      var ts := Get(t, q).children;
      var kids, own, rest := BackKids(ts, q, i), if q <= n then [] else [q], Before(t, n, q);
      ParentBefore(p, n);
      BeforeAre(t, n, q);
      BackKidsDecreasing(ts, q, i);
      KidsTo(t, q, i);
      forall x: Path
        ensures x in kids + own + rest <==> Has(t, x) && Lex(x, p) && !(x <= n)
      {
        BeforeStep(t, n, p, q, x);
      }
      DecreasingParts(q, kids, own, rest);
    }
  }

  lemma DecreasingParts(q: Path, kids: seq<Path>, own: seq<Path>, rest: seq<Path>)
    requires Decreasing(kids) && Decreasing(rest) && (own == [] || own == [q])
    requires (forall x :: x in kids ==> q < x) && forall x :: x in rest ==> Lex(x, q)
    ensures Decreasing(kids + own + rest)
  {
    forall a, b | a in rest && b in kids
      ensures Lex(a, b)
    {
      LexPrefix(q, b);
      LexTrans(a, q, b);
    }
    forall b | b in kids
      ensures Lex(q, b)
    {
      LexPrefix(q, b);
    }
    DecreasingConcat(kids, own);
    DecreasingConcat(kids + own, rest);
  }

  // ---------- The axes of one node ----------

  function Following(t: Tree, n: Path): seq<Path>
    requires Has(t, n)
  {
    After(t, [], n)
  }

  function Preceding(t: Tree, n: Path): seq<Path>
    requires Has(t, n)
  {
    Before(t, n, n)
  }

  /** How many of the five axes hold a node. */
  function Holding(t: Tree, n: Path, q: Path): nat
    requires Has(t, n)
  {
    (if q == n then 1 else 0) + (if q in Ancestors(n) then 1 else 0) + (if q in Descendants(t, n) then 1 else 0) +
    (if q in Following(t, n) then 1 else 0) + (if q in Preceding(t, n) then 1 else 0)
  }

  /** Every node is on exactly one of the axes self, ancestor, descendant, following and preceding; nothing else is. */
  lemma AxesPartition(t: Tree, n: Path, q: Path)
    requires Has(t, n)
    ensures Holding(t, n, q) == if Has(t, q) then 1 else 0
  {
    hide Lex, Has, Get;
    AncestorsAre(n);
    DescendantsAre(t, n);
    AfterAre(t, [], n);
    BeforeAre(t, n, n);
    LexTotal(n, q);
    if q < n {
      LexPrefix(q, n);
      PrefixHas(t, n, q);
    } else if n < q {
      LexPrefix(n, q);
    }
  }
}
