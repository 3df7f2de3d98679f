/** Node sets stay sets and their tags stay true through every expression. */
module XPathSets {
  import opened Common
  import opened Tree
  import opened Axes
  import opened DocOrder
  import opened NodeSet
  import opened XPath

  /** Variables hold well formed sets, and different nodes have different addresses. */
  ghost predicate GoodInterp(I: Interp, t: Tree) {
    Injective(I.address) &&
        forall ret, name :: I.variables(ret, name).SetValue? ==> Truthful(t, I.variables(ret, name).ns)
  }

  /** x is in the order of the tag kind. */
  ghost predicate Ordered(t: Tree, kind: SetKind, s: seq<XNode>) {
    (kind == SortedUp ==> Ascending(t, s)) && (kind == SortedDown ==> Descending(t, s))
  }

  // ---------- Filters ----------

  /** A part of the nodes, each once, in the same order. */
  ghost predicate PartOf(t: Tree, r: seq<XNode>, nodes: seq<XNode>) {
    (forall x :: x in r ==> x in nodes) && (NoRepeats(nodes) ==> NoRepeats(r)) &&
    (Ascending(t, nodes) ==> Ascending(t, r)) && (Descending(t, nodes) ==> Descending(t, r))
  }

  /** One more node in front, taken or not. */
  lemma PartCons(t: Tree, r: seq<XNode>, x: XNode, nodes: seq<XNode>)
    requires PartOf(t, r, nodes)
    ensures PartOf(t, [x] + r, [x] + nodes) && PartOf(t, [] + r, [x] + nodes)
  {
    hide DocLess, Ascending, Descending, NoRepeats;
    assert [] + r == r;
    assert forall k :: 0 <= k < |r| ==> r[k] in nodes;
    ConsApart(x, nodes);
    ConsApart(x, r);
    ConsAscending(t, x, nodes);
    ConsAscending(t, x, r);
    ConsDescending(t, x, nodes);
    ConsDescending(t, x, r);
  }

  lemma ConsApart(x: XNode, s: seq<XNode>)
    ensures NoRepeats([x] + s) <==> NoRepeats(s) && x !in s
  {
    var all := [x] + s;
    assert all[1..] == s && all[0] == x;
    if NoRepeats(all) {
      forall i, j | 0 <= i < j < |s|
        ensures s[i] != s[j]
      {
        assert all[i + 1] != all[j + 1];
      }
      forall k | 0 <= k < |s|
        ensures s[k] != x
      {
        assert all[0] != all[k + 1];
      }
    }
  }

  lemma ConsAscending(t: Tree, x: XNode, s: seq<XNode>)
    ensures Ascending(t, [x] + s) <==> Ascending(t, s) && forall k :: 0 <= k < |s| ==> DocLess(t, x, s[k])
  {
    hide DocLess;
    var all := [x] + s;
    if Ascending(t, all) {
      forall i, j | 0 <= i < j < |s|
        ensures DocLess(t, s[i], s[j])
      {
        assert all[i + 1] == s[i] && all[j + 1] == s[j];
      }
      forall k | 0 <= k < |s|
        ensures DocLess(t, x, s[k])
      {
        assert all[0] == x && all[k + 1] == s[k];
      }
    }
    if Ascending(t, s) && forall k :: 0 <= k < |s| ==> DocLess(t, x, s[k]) {
      forall i, j | 0 <= i < j < |all|
        ensures DocLess(t, all[i], all[j])
      {
        assert all[j] == s[j - 1] && (i > 0 ==> all[i] == s[i - 1]);
      }
    }
  }

  lemma ConsDescending(t: Tree, x: XNode, s: seq<XNode>)
    ensures Descending(t, [x] + s) <==> Descending(t, s) && forall k :: 0 <= k < |s| ==> DocLess(t, s[k], x)
  {
    hide DocLess;
    var all := [x] + s;
    if Descending(t, all) {
      forall i, j | 0 <= i < j < |s|
        ensures DocLess(t, s[j], s[i])
      {
        assert all[i + 1] == s[i] && all[j + 1] == s[j];
      }
      forall k | 0 <= k < |s|
        ensures DocLess(t, s[k], x)
      {
        assert all[0] == x && all[k + 1] == s[k];
      }
    }
    if Descending(t, s) && forall k :: 0 <= k < |s| ==> DocLess(t, s[k], x) {
      forall i, j | 0 <= i < j < |all|
        ensures DocLess(t, all[j], all[i])
      {
        assert all[j] == s[j - 1] && (i > 0 ==> all[i] == s[i - 1]);
      }
    }
  }

  lemma {:induction false} FilterByKeeps(I: Interp, t: Tree, condition: Expr, nodes: seq<XNode>, i: nat)
    requires i <= |nodes|
    ensures PartOf(t, FilterBy(I, t, condition, nodes, i), nodes[i..])
    decreases |nodes| - i
  {
    hide Holds, FilterBy, PartOf;
    FilterByStep(I, t, condition, nodes, i);
    if i < |nodes| {
      FilterByKeeps(I, t, condition, nodes, i + 1);
      PartCons(t, FilterBy(I, t, condition, nodes, i + 1), nodes[i], nodes[i + 1..]);
      assert nodes[i..] == [nodes[i]] + nodes[i + 1..];
    } else {
      assert nodes[i..] == [];
      NoPart(t);
    }
  }

  lemma NoPart(t: Tree)
    ensures PartOf(t, [], [])
  {
  }

  lemma FilterByPart(I: Interp, t: Tree, condition: Expr, nodes: seq<XNode>)
    ensures PartOf(t, FilterBy(I, t, condition, nodes, 0), nodes)
  {
    hide PartOf;
    FilterByKeeps(I, t, condition, nodes, 0);
    assert nodes[0..] == nodes;
  }

  lemma {:induction false} FilterAllPart(I: Interp, t: Tree, e: Expr, j: nat, nodes: seq<XNode>)
    requires e.Step? && j <= |e.predicates|
    ensures PartOf(t, FilterAll(I, t, e, j, nodes), nodes)
    decreases |e.predicates| - j
  {
    hide Ascending, Descending, NoRepeats, FilterBy;
    if j < |e.predicates| {
      FilterByPart(I, t, e.predicates[j], nodes);
      FilterAllPart(I, t, e, j + 1, FilterBy(I, t, e.predicates[j], nodes, 0));
    }
  }

  lemma PartIn(t: Tree, r: seq<XNode>, nodes: seq<XNode>)
    requires PartOf(t, r, nodes) && AllIn(t, nodes)
    ensures AllIn(t, r)
  {
    hide Ascending, Descending, NoRepeats, In;
    forall i | 0 <= i < |r|
      ensures In(t, r[i])
    {
      assert r[i] in nodes;
    }
  }

  /** Filtering keeps the truth of a tag. */
  lemma FilterTruthful(I: Interp, t: Tree, condition: Expr, s: NodeSet)
    requires Truthful(t, s)
    ensures Truthful(t, NodeSet(s.kind, FilterBy(I, t, condition, s.nodes, 0)))
  {
    hide Ascending, Descending, NoRepeats, FilterBy, AllIn;
    FilterByPart(I, t, condition, s.nodes);
    PartIn(t, FilterBy(I, t, condition, s.nodes, 0), s.nodes);
  }

  // ---------- Steps ----------

  lemma OrderedNoRepeats(t: Tree, s: seq<XNode>)
    requires Ascending(t, s) || Descending(t, s)
    ensures NoRepeats(s)
  {
    hide Lex;
    forall i, j | 0 <= i < j < |s|
      ensures s[i] != s[j]
    {
      LexIrreflexive(Key(t, s[i]));
    }
  }

  /** The contribution of one context node. */
  function Contribution(I: Interp, t: Tree, e: Expr, x: XNode): seq<XNode>
    requires e.Step?
  {
    FilterAll(I, t, e, 0, StepNodes(t, e.axis, e.test, x))
  }

  ghost predicate Contributed(t: Tree, axis: Axis, x: XNode, r: seq<XNode>) {
    AllIn(t, r) && NoRepeats(r) && Ordered(t, if IsReverse(axis) then SortedDown else SortedUp, r) &&
    (axis == AxisSelf ==> r == [] || r == [x]) &&
        (Distinguishes(axis) && axis != AxisSelf ==> forall y :: y in r ==> ChildOf(y, x))
  }

  /** A child or an attribute of the node. */
  predicate ChildOf(y: XNode, x: XNode) {
    x.Node? && match y case Node(p) => p != [] && p[..|p| - 1] == x.path case Attr(p, _) => p == x.path
  }

  lemma ContributionIs(I: Interp, t: Tree, e: Expr, x: XNode)
    requires e.Step? && In(t, x)
    ensures Contributed(t, e.axis, x, Contribution(I, t, e, x))
  {
    hide Ascending, Descending, NoRepeats, In, AxisNodes, FilterAll, ChildOf;
    var nodes, r := AxisNodes(t, e.axis, e.test, x), Contribution(I, t, e, x);
    AxisOrder(t, e.axis, e.test, x);
    OrderedNoRepeats(t, nodes);
    FilterAllPart(I, t, e, 0, nodes);
    PartIn(t, r, nodes);
    NearNodes(t, e.axis, e.test, x);
    if e.axis == AxisSelf {
      PartOfOne(r, nodes, x);
    }
  }

  lemma FirstTwoDiffer(r: seq<XNode>)
    requires NoRepeats(r)
    ensures |r| >= 2 ==> r[0] != r[1]
  {
  }

  lemma PartOfOne(r: seq<XNode>, nodes: seq<XNode>, x: XNode)
    requires NoRepeats(r) && (nodes == [] || nodes == [x]) && forall y :: y in r ==> y in nodes
    ensures r == [] || r == [x]
  {
    FirstTwoDiffer(r);
    forall i | 0 <= i < |r|
      ensures r[i] == x
    {
      assert r[i] in nodes;
    }
  }

  lemma NearNodes(t: Tree, axis: Axis, test: Test, x: XNode)
    requires In(t, x)
    ensures axis == AxisSelf ==> AxisNodes(t, axis, test, x) in [[], [x]]
    ensures axis == AxisChild || axis == AxisAttribute ==>
      forall y :: y in AxisNodes(t, axis, test, x) ==> ChildOf(y, x)
  {
    hide Has, Get, Picked, PickedAttrs, Passes, DeclaresNamespace, Range;
    if x.Node? {
      var p := x.path;
      if axis == AxisSelf {
        PickedOne(t, test, p);
      } else if axis == AxisChild {
        PickedMembers(t, test, Children(t, p));
        forall y | y in Picked(t, test, Children(t, p))
          ensures ChildOf(y, x)
        {
          var k :| 0 <= k < |Children(t, p)| && Children(t, p)[k] == y.path;
          assert (p + [0 + k])[..|p|] == p;
        }
      } else if axis == AxisAttribute {
        PickedAttrsOrder(t, test, p, 0);
      }
    }
  }

  /** What the fold over the context nodes has gathered. */
  ghost predicate Gathered(t: Tree, axis: Axis, start: SetKind, contexts: seq<XNode>, s: NodeSet) {
    AllIn(t, s.nodes) && Ordered(t, s.kind, s.nodes) &&
    (axis != AxisSelf ==> s.kind == Unsorted || s.kind == start) && (axis == AxisSelf ==> s.kind == start) &&
    (axis == AxisSelf ==> forall y :: y in s.nodes ==> y in contexts) &&
    (Distinguishes(axis) && axis != AxisSelf ==>
        forall y :: y in s.nodes ==> exists x :: x in contexts && ChildOf(y, x)) &&
    (Distinguishes(axis) ==> NoRepeats(s.nodes))
  }

  lemma OneParent(y: XNode, x: XNode, x': XNode)
    requires ChildOf(y, x) && ChildOf(y, x')
    ensures x == x'
  {
  }

  lemma NoRepeatsConcat(x: seq<XNode>, y: seq<XNode>)
    requires NoRepeats(x) && NoRepeats(y) && forall a :: a in x ==> a !in y
    ensures NoRepeats(x + y)
  {
    var z := x + y;
    forall i, j | 0 <= i < j < |z|
      ensures z[i] != z[j]
    {
      if i < |x| <= j {
        assert z[i] in x && z[j] in y;
      }
    }
  }

  /** Children and attributes of different nodes are different. */
  lemma GatherNear(t: Tree, axis: Axis, start: SetKind, front: seq<XNode>, x: XNode, s: NodeSet, r: seq<XNode>)
    requires Gathered(t, axis, start, front, s) && Contributed(t, axis, x, r) && x !in front
    requires (axis == AxisChild || axis == AxisAttribute) && start == SortedUp
    ensures Gathered(t, axis, start, front + [x], NodeSet(if s.nodes != [] then Unsorted else s.kind, s.nodes + r))
  {
    hide Ascending, Descending, NoRepeats, In, ChildOf;
    forall a | a in s.nodes
      ensures a !in r
    {
      if a in r {
        var x' :| x' in front && ChildOf(a, x');
        OneParent(a, x', x);
      }
    }
    NoRepeatsConcat(s.nodes, r);
    assert s.nodes == [] ==> s.nodes + r == r;
    assert x in front + [x];
  }

  /** On the self axis the order of the context nodes is kept. */
  lemma GatherSelf(t: Tree, start: SetKind, front: seq<XNode>, x: XNode, s: NodeSet, r: seq<XNode>)
    requires Gathered(t, AxisSelf, start, front, s) && Contributed(t, AxisSelf, x, r) && x !in front
    requires Ordered(t, start, front + [x])
    ensures Gathered(t, AxisSelf, start, front + [x], NodeSet(s.kind, s.nodes + r))
  {
    hide DocLess, NoRepeats, In, ChildOf;
    NoRepeatsConcat(s.nodes, r);
    forall a | a in s.nodes
      ensures start == SortedUp ==> DocLess(t, a, x)
      ensures start == SortedDown ==> DocLess(t, x, a)
    {
      var i :| 0 <= i < |front| && front[i] == a;
      assert (front + [x])[i] == a && (front + [x])[|front|] == x;
    }
    var z := s.nodes + r;
    forall i, j | 0 <= i < j < |z|
      ensures start == SortedUp ==> DocLess(t, z[i], z[j])
      ensures start == SortedDown ==> DocLess(t, z[j], z[i])
    {
      assert z[i] in s.nodes;
    }
  }

  lemma GatherFar(t: Tree, axis: Axis, start: SetKind, front: seq<XNode>, x: XNode, s: NodeSet, r: seq<XNode>)
    requires Gathered(t, axis, start, front, s) && Contributed(t, axis, x, r)
    requires !Distinguishes(axis) && start == if IsReverse(axis) then SortedDown else SortedUp
    ensures Gathered(t, axis, start, front + [x], NodeSet(if s.nodes != [] then Unsorted else s.kind, s.nodes + r))
  {
    hide Ascending, Descending, NoRepeats, In, ChildOf;
    assert s.nodes == [] ==> s.nodes + r == r;
  }

  lemma GatherNothing(t: Tree, axis: Axis, start: SetKind)
    ensures Gathered(t, axis, start, [], NodeSet(start, []))
  {
  }

  lemma {:induction false} FoldGathers(I: Interp, t: Tree, e: Expr, start: SetKind, contexts: seq<XNode>)
    requires e.Step? && AllIn(t, contexts) && NoRepeats(contexts)
    requires if e.axis == AxisSelf then Ordered(t, start, contexts)
             else start == if IsReverse(e.axis) then SortedDown else SortedUp
    ensures Gathered(t, e.axis, start, contexts, StepFold(I, t, e, start, contexts))
    decreases |contexts|
  {
    hide Gathered, Contributed, In, DocLess, FilterAll;
    if contexts == [] {
      GatherNothing(t, e.axis, start);
    } else {
      var n := |contexts| - 1;
      var front, x := contexts[..n], contexts[n];
      assert contexts == front + [x];
      FoldGathers(I, t, e, start, front);
      ContributionIs(I, t, e, x);
      var s := StepFold(I, t, e, start, front);
      var r := Contribution(I, t, e, x);
      if e.axis == AxisSelf {
        GatherSelf(t, start, front, x, s, r);
      } else if Distinguishes(e.axis) {
        GatherNear(t, e.axis, start, front, x, s, r);
      } else {
        GatherFar(t, e.axis, start, front, x, s, r);
      }
    }
  }

  lemma GatheredTruthful(t: Tree, axis: Axis, start: SetKind, contexts: seq<XNode>, s: NodeSet)
    requires Gathered(t, axis, start, contexts, s) && (Distinguishes(axis) || s.kind != Unsorted)
    ensures Truthful(t, s)
  {
    hide Ascending, Descending, NoRepeats, In, ChildOf;
    if !Distinguishes(axis) {
      OrderedNoRepeats(t, s.nodes);
    }
  }

  /** A step over a true set gives a true set: through several context nodes, predicates, and removal of duplicates. */
  lemma StepTruthful(I: Interp, t: Tree, e: Expr, contexts: NodeSet)
    requires e.Step? && Truthful(t, contexts) && Injective(I.address)
    ensures Truthful(t, StepDo(I, t, e, contexts))
  {
    hide Gathered, In, Ascending, Descending, NoRepeats, StepFold, Truthful, Merged, Injective;
    var start := StartKind(e.axis, contexts);
    TruthfulParts(t, contexts);
    FoldGathers(I, t, e, start, contexts.nodes);
    var s := StepFold(I, t, e, start, contexts.nodes);
    if !Distinguishes(e.axis) && s.kind == Unsorted {
      GatheredIn(t, e.axis, start, contexts.nodes, s);
      MergedTruthful(t, I.address, s.nodes);
    } else {
      GatheredTruthful(t, e.axis, start, contexts.nodes, s);
    }
  }

  lemma TruthfulParts(t: Tree, s: NodeSet)
    requires Truthful(t, s)
    ensures AllIn(t, s.nodes) && NoRepeats(s.nodes) && Ordered(t, s.kind, s.nodes)
  {
  }

  lemma GatheredIn(t: Tree, axis: Axis, start: SetKind, contexts: seq<XNode>, s: NodeSet)
    requires Gathered(t, axis, start, contexts, s)
    ensures AllIn(t, s.nodes)
  {
  }

  // ---------- Every expression ----------

  lemma SingleTruthful(t: Tree, x: XNode)
    requires In(t, x)
    ensures Truthful(t, NodeSet(SortedUp, [x]))
  {
  }

  lemma EmptyTruthful(t: Tree)
    ensures Truthful(t, NO_NODES)
  {
  }

  /**
   * The value of an expression, if it is a node set, holds no node twice and its tag is true: through steps,
   * predicates, filters that sort and filters that do not, and unions.
   */
  lemma {:induction false} EvalTruthful(I: Interp, t: Tree, e: Expr, c: Context)
    requires GoodInterp(I, t) && In(t, c.node)
    ensures Truthful(t, SetOf(Eval(I, t, e, c)))
    decreases e
  {
    hide Truthful, In, Has, StepDo, FilterBy, Arranged, Merged, Injective;
    EmptyTruthful(t);
    match e {
      case Root =>
        DocumentIn(t);
        SingleTruthful(t, Node([]));
      case Step(_, _, from, _) =>
        if from.None? {
          SingleTruthful(t, c.node);
          StepTruthful(I, t, e, NodeSet(SortedUp, [c.node]));
        } else {
          EvalTruthful(I, t, from.value, c);
          StepTruthful(I, t, e, SetOf(Eval(I, t, from.value, c)));
        }
      case Filter(left, condition) =>
        EvalTruthful(I, t, left, c);
        var s := SetOf(Eval(I, t, left, c));
        ArrangedTruthful(t, s, false);
        FilterTruthful(I, t, condition, Arranged(t, s, false));
      case FilterPosinv(left, condition) =>
        EvalTruthful(I, t, left, c);
        FilterTruthful(I, t, condition, SetOf(Eval(I, t, left, c)));
      case Union(one, other) =>
        EvalTruthful(I, t, one, c);
        EvalTruthful(I, t, other, c);
        UnionTruthful(I, t, SetOf(Eval(I, t, one, c)), SetOf(Eval(I, t, other, c)));
      case _ =>
    }
  }

  lemma DocumentIn(t: Tree)
    ensures In(t, Node([]))
  {
  }

  lemma UnionTruthful(I: Interp, t: Tree, ls: NodeSet, rs: NodeSet)
    requires Truthful(t, ls) && Truthful(t, rs) && Injective(I.address)
    ensures Truthful(t, Merged(I.address, NodeSet(Unsorted, rs.nodes + ls.nodes)))
    ensures forall x :: x in Merged(I.address, NodeSet(Unsorted, rs.nodes + ls.nodes)).nodes <==>
      x in ls.nodes || x in rs.nodes
  {
    hide In, Ascending, Descending, NoRepeats, Injective, Merged;
    MergedTruthful(t, I.address, rs.nodes + ls.nodes);
  }
}
