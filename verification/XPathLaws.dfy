/** What predicates, steps, filters and unions select: which nodes, and in what order. */
module XPathLaws {
  import opened Common
  import opened Tree
  import opened Axes
  import opened AxisLaws
  import opened DocOrder
  import opened NodeSet
  import opened XPath
  import opened XPathSets
  import opened Posinv

  /** Numbers that count: a number is a position exactly when it is that number. */
  ghost predicate Counts(I: Interp) {
    forall n: nat, p: nat :: I.isPosition(NumValue(I.ofNat(n)), p) <==> n == p
  }

  // ---------- Predicates ----------

  /** A number selects the node at that position, any other value is taken as a boolean. */
  predicate Accepts(I: Interp, t: Tree, condition: Expr, nodes: seq<XNode>, k: nat)
    requires k < |nodes|
  {
    var value := Eval(I, t, condition, Context(nodes[k], k + 1, |nodes|));
    if RetTypeOf(condition) == NumberType then I.isPosition(value, k + 1) else I.truth(value)
  }

  /** The nodes at the given positions. */
  function At(nodes: seq<XNode>, ks: seq<nat>): (r: seq<XNode>)
    requires forall i :: 0 <= i < |ks| ==> ks[i] < |nodes|
    ensures |r| == |ks| && forall i :: 0 <= i < |r| ==> r[i] == nodes[ks[i]]
  {
    seq(|ks|, i requires 0 <= i < |ks| => nodes[ks[i]])
  }

  /** The positions ks in order are those from position i on that the predicate accepts. */
  predicate Accepted(I: Interp, t: Tree, condition: Expr, nodes: seq<XNode>, i: nat, ks: seq<nat>) {
    (forall a, b :: 0 <= a < b < |ks| ==> ks[a] < ks[b]) && (forall a :: 0 <= a < |ks| ==> i <= ks[a] < |nodes|) &&
    forall k: nat :: i <= k < |nodes| ==> (k in ks <==> Accepts(I, t, condition, nodes, k))
  }

  /** A filter keeps the nodes at the positions its predicate accepts, and no others, in order. */
  lemma {:induction false} FilterIs(I: Interp, t: Tree, condition: Expr, nodes: seq<XNode>, i: nat)
    returns (ks: seq<nat>)
    requires i <= |nodes|
    ensures Accepted(I, t, condition, nodes, i, ks) && FilterBy(I, t, condition, nodes, i) == At(nodes, ks)
    decreases |nodes| - i
  {
    hide FilterBy, Accepts, Accepted, Holds, At;
    FilterByStep(I, t, condition, nodes, i);
    if i == |nodes| {
      ks := [];
      NoneAccepted(I, t, condition, nodes);
    } else {
      var rest := FilterIs(I, t, condition, nodes, i + 1);
      var kept := Holds(I, t, condition, Context(nodes[i], i + 1, |nodes|));
      HoldsAccepts(I, t, condition, nodes, i);
      ks := if kept then [i] + rest else rest;
      AcceptedCons(I, t, condition, nodes, i, rest);
      AtCons(nodes, i, rest);
    }
  }

  lemma AtCons(nodes: seq<XNode>, i: nat, rest: seq<nat>)
    requires i < |nodes| && forall a :: 0 <= a < |rest| ==> rest[a] < |nodes|
    ensures At(nodes, [i] + rest) == [nodes[i]] + At(nodes, rest)
  {
  }

  lemma NoneAccepted(I: Interp, t: Tree, condition: Expr, nodes: seq<XNode>)
    ensures Accepted(I, t, condition, nodes, |nodes|, [])
  {
  }

  lemma HoldsAccepts(I: Interp, t: Tree, condition: Expr, nodes: seq<XNode>, k: nat)
    requires k < |nodes|
    ensures Holds(I, t, condition, Context(nodes[k], k + 1, |nodes|)) <==> Accepts(I, t, condition, nodes, k)
  {
    hide Eval;
  }

  lemma AcceptedCons(I: Interp, t: Tree, condition: Expr, nodes: seq<XNode>, i: nat, rest: seq<nat>)
    requires i < |nodes| && Accepted(I, t, condition, nodes, i + 1, rest)
    ensures Accepts(I, t, condition, nodes, i) ==> Accepted(I, t, condition, nodes, i, [i] + rest)
    ensures !Accepts(I, t, condition, nodes, i) ==> Accepted(I, t, condition, nodes, i, rest)
    ensures forall a :: 0 <= a < |rest| ==> rest[a] < |nodes|
  {
    hide Accepts;
    forall k: nat | i <= k < |nodes|
      ensures k in [i] + rest <==> k == i || k in rest
    {
    }
    assert i !in rest;
  }

  /** A constant selects the node at that position, or none. */
  lemma {:induction false} NthFrom(I: Interp, t: Tree, n: nat, nodes: seq<XNode>, i: nat)
    requires Counts(I) && i <= |nodes|
    ensures FilterBy(I, t, NumberConst(I.ofNat(n)), nodes, i) == if i < n <= |nodes| then [nodes[n - 1]] else []
    decreases |nodes| - i
  {
    hide FilterBy;
    FilterByStep(I, t, NumberConst(I.ofNat(n)), nodes, i);
    if i < |nodes| {
      NthFrom(I, t, n, nodes, i + 1);
    }
  }

  lemma {:induction false} LastFrom(I: Interp, t: Tree, nodes: seq<XNode>, i: nat)
    requires Counts(I) && i <= |nodes|
    ensures FilterBy(I, t, Last, nodes, i) == if i < |nodes| then [nodes[|nodes| - 1]] else []
    decreases |nodes| - i
  {
    hide FilterBy;
    FilterByStep(I, t, Last, nodes, i);
    if i < |nodes| {
      LastFrom(I, t, nodes, i + 1);
    }
  }

  lemma {:induction false} PositionFrom(I: Interp, t: Tree, nodes: seq<XNode>, i: nat)
    requires Counts(I) && i <= |nodes|
    ensures FilterBy(I, t, Position, nodes, i) == nodes[i..]
    decreases |nodes| - i
  {
    hide FilterBy;
    FilterByStep(I, t, Position, nodes, i);
    if i < |nodes| {
      PositionFrom(I, t, nodes, i + 1);
    }
  }

  /** [n], [last()] and [position()]. */
  lemma NumberPredicates(I: Interp, t: Tree, n: nat, nodes: seq<XNode>)
    requires Counts(I)
    ensures FilterBy(I, t, NumberConst(I.ofNat(n)), nodes, 0) == if 1 <= n <= |nodes| then [nodes[n - 1]] else []
    ensures FilterBy(I, t, Last, nodes, 0) == if nodes == [] then [] else [nodes[|nodes| - 1]]
    ensures FilterBy(I, t, Position, nodes, 0) == nodes
  {
    NthFrom(I, t, n, nodes, 0);
    LastFrom(I, t, nodes, 0);
    PositionFrom(I, t, nodes, 0);
    assert nodes[0..] == nodes;
  }

  // ---------- Steps ----------

  /** One step from one context node. */
  lemma StepFromOne(I: Interp, t: Tree, axis: Axis, test: Test, predicates: seq<Expr>, c: Context)
    requires In(t, c.node)
    ensures var e := Step(axis, test, None, predicates);
      SetOf(Eval(I, t, e, c))
      == NodeSet(if IsReverse(axis) then SortedDown else SortedUp,
                 FilterAll(I, t, e, 0, AxisNodes(t, axis, test, c.node)))
  {
    hide FilterAll, AxisNodes, In, StepFold, Merged;
    var e := Step(axis, test, None, predicates);
    FoldOne(I, t, e, StartKind(axis, NodeSet(SortedUp, [c.node])), c.node);
  }

  lemma FoldOne(I: Interp, t: Tree, e: Expr, kind: SetKind, x: XNode)
    requires e.Step?
    ensures StepFold(I, t, e, kind, [x]) == NodeSet(kind, FilterAll(I, t, e, 0, StepNodes(t, e.axis, e.test, x)))
  {
    hide FilterAll, StepNodes;
    var one := [x];
    assert one[..0] == [];
    assert StepFold(I, t, e, kind, []) == NodeSet(kind, []);
    var all := FilterAll(I, t, e, 0, StepNodes(t, e.axis, e.test, x));
    assert [] + all == all;
  }

  /**
   * With the predicate [n] a step selects the n-th node of its axis: n - 1 of the others come before it in the
   * document, or after it when the axis runs backwards.
   */
  lemma StepNth(I: Interp, t: Tree, axis: Axis, test: Test, n: nat, c: Context)
    requires Counts(I) && In(t, c.node)
    ensures
      var e, on := Step(axis, test, None, [NumberConst(I.ofNat(n))]), AxisNodes(t, axis, test, c.node);
      var r := SetOf(Eval(I, t, e, c)).nodes;
      if 1 <= n <= |on| then
        r == [on[n - 1]] &&
        (forall j :: 0 <= j < n - 1 ==> if IsReverse(axis) then DocLess(t, r[0], on[j]) else DocLess(t, on[j], r[0])) &&
        (forall j :: n <= j < |on| ==> if IsReverse(axis) then DocLess(t, on[j], r[0]) else DocLess(t, r[0], on[j]))
      else r == []
  {
    hide AxisNodes, In, DocLess, Eval, FilterBy;
    var e := Step(axis, test, None, [NumberConst(I.ofNat(n))]);
    var on := AxisNodes(t, axis, test, c.node);
    StepFromOne(I, t, axis, test, e.predicates, c);
    OnePredicate(I, t, e, on);
    NumberPredicates(I, t, n, on);
    AxisOrder(t, axis, test, c.node);
  }

  lemma OnePredicate(I: Interp, t: Tree, e: Expr, nodes: seq<XNode>)
    requires e.Step? && |e.predicates| == 1
    ensures FilterAll(I, t, e, 0, nodes) == FilterBy(I, t, e.predicates[0], nodes, 0)
  {
    hide FilterBy;
    var r := FilterBy(I, t, e.predicates[0], nodes, 0);
    assert FilterAll(I, t, e, 1, r) == r;
  }

  /** The predicates of a step apply in the order written: the last one to what the others leave. */
  lemma {:induction false} PredicateLast(I: Interp, t: Tree, e: Expr, q: Expr, j: nat, nodes: seq<XNode>)
    requires e.Step? && j <= |e.predicates|
    ensures FilterAll(I, t, e.(predicates := e.predicates + [q]), j, nodes)
         == FilterBy(I, t, q, FilterAll(I, t, e, j, nodes), 0)
    decreases |e.predicates| - j
  {
    hide FilterBy;
    var longer := e.(predicates := e.predicates + [q]);
    if j < |e.predicates| {
      PredicateLast(I, t, e, q, j + 1, FilterBy(I, t, e.predicates[j], nodes, 0));
    } else {
      var r := FilterBy(I, t, q, nodes, 0);
      assert FilterAll(I, t, longer, j + 1, r) == r;
    }
  }

  /** A step selects what its context nodes select, each for itself. */
  lemma {:induction false} FoldMembers(I: Interp, t: Tree, e: Expr, kind: SetKind, contexts: seq<XNode>, y: XNode)
    requires e.Step?
    ensures y in StepFold(I, t, e, kind, contexts).nodes <==>
      exists k :: 0 <= k < |contexts| && y in FilterAll(I, t, e, 0, StepNodes(t, e.axis, e.test, contexts[k]))
    decreases |contexts|
  {
    hide FilterAll, StepNodes;
    if contexts != [] {
      var n := |contexts| - 1;
      var front := contexts[..n];
      FoldMembers(I, t, e, kind, front, y);
      if k :| 0 <= k < |contexts| && y in FilterAll(I, t, e, 0, StepNodes(t, e.axis, e.test, contexts[k])) {
        assert k < n ==> front[k] == contexts[k];
      }
      if k :| 0 <= k < n && y in FilterAll(I, t, e, 0, StepNodes(t, e.axis, e.test, front[k])) {
        assert front[k] == contexts[k];
      }
    }
  }

  lemma StepDoMembers(I: Interp, t: Tree, e: Expr, contexts: NodeSet, y: XNode)
    requires e.Step? && AllIn(t, contexts.nodes) && NoRepeats(contexts.nodes) && Injective(I.address) &&
      Truthful(t, contexts)
    ensures y in StepDo(I, t, e, contexts).nodes <==>
      exists k :: 0 <= k < |contexts.nodes| &&
        y in FilterAll(I, t, e, 0, StepNodes(t, e.axis, e.test, contexts.nodes[k]))
  {
    hide FilterAll, StepNodes, StepFold, Merged, In, Truthful, Injective, Gathered;
    var start := StartKind(e.axis, contexts);
    FoldMembers(I, t, e, start, contexts.nodes, y);
    var s := StepFold(I, t, e, start, contexts.nodes);
    if !Distinguishes(e.axis) && s.kind == Unsorted {
      TruthfulParts(t, contexts);
      FoldGathers(I, t, e, start, contexts.nodes);
      GatheredIn(t, e.axis, start, contexts.nodes, s);
      MergedTruthful(t, I.address, s.nodes);
      assert s == NodeSet(Unsorted, s.nodes);
    }
  }

  /** A step without predicates: the nodes some context node selects by axis and node test. */
  lemma StepSelects(I: Interp, t: Tree, e: Expr, contexts: NodeSet, y: XNode)
    requires e.Step? && e.predicates == [] && Truthful(t, contexts) && Injective(I.address)
    ensures y in StepDo(I, t, e, contexts).nodes <==>
      exists x :: x in contexts.nodes && In(t, x) && Selects(t, e.axis, e.test, x, y)
  {
    hide FilterAll, AxisNodes, In, StepDo, Selects, Truthful, Injective;
    TruthfulParts(t, contexts);
    StepDoMembers(I, t, e, contexts, y);
    forall k | 0 <= k < |contexts.nodes|
      ensures contexts.nodes[k] in contexts.nodes && In(t, contexts.nodes[k]) &&
        (y in FilterAll(I, t, e, 0, StepNodes(t, e.axis, e.test, contexts.nodes[k])) <==>
         Selects(t, e.axis, e.test, contexts.nodes[k], y))
    {
      AxisMembers(t, e.axis, e.test, contexts.nodes[k], y);
      NoPredicates(I, t, e, AxisNodes(t, e.axis, e.test, contexts.nodes[k]));
    }
  }

  lemma NoPredicates(I: Interp, t: Tree, e: Expr, nodes: seq<XNode>)
    requires e.Step? && e.predicates == []
    ensures FilterAll(I, t, e, 0, nodes) == nodes
  {
  }

  // ---------- Filters and unions ----------

  /** A filter keeps what its predicate accepts of the set in document order. */
  lemma FilterSelects(I: Interp, t: Tree, left: Expr, condition: Expr, c: Context)
    returns (sorted: seq<XNode>, ks: seq<nat>)
    requires GoodInterp(I, t) && In(t, c.node)
    ensures Ascending(t, sorted) && forall x :: x in sorted <==> x in SetOf(Eval(I, t, left, c)).nodes
    ensures Accepted(I, t, condition, sorted, 0, ks)
    ensures SetOf(Eval(I, t, Filter(left, condition), c)) == NodeSet(SortedUp, At(sorted, ks))
  {
    hide Ascending, FilterBy, Arranged, Injective, In, Truthful, Accepted;
    EvalTruthful(I, t, left, c);
    var s := SetOf(Eval(I, t, left, c));
    ArrangedTruthful(t, s, false);
    ArrangedKind(t, s, false);
    TruthfulParts(t, Arranged(t, s, false));
    sorted := Arranged(t, s, false).nodes;
    ks := FilterIs(I, t, condition, sorted, 0);
  }

  /** (left)[n] is the n-th node of the set in document order, whatever order the set was in. */
  lemma FilterNth(I: Interp, t: Tree, left: Expr, n: nat, c: Context) returns (sorted: seq<XNode>)
    requires GoodInterp(I, t) && Counts(I) && In(t, c.node)
    ensures Ascending(t, sorted) && forall x :: x in sorted <==> x in SetOf(Eval(I, t, left, c)).nodes
    ensures SetOf(Eval(I, t, Filter(left, NumberConst(I.ofNat(n))), c))
         == NodeSet(SortedUp, if 1 <= n <= |sorted| then [sorted[n - 1]] else [])
  {
    hide Ascending, FilterBy, Arranged, Injective, In, Truthful;
    EvalTruthful(I, t, left, c);
    var s := SetOf(Eval(I, t, left, c));
    ArrangedTruthful(t, s, false);
    ArrangedKind(t, s, false);
    TruthfulParts(t, Arranged(t, s, false));
    sorted := Arranged(t, s, false).nodes;
    NumberPredicates(I, t, n, sorted);
  }

  /** Sorting gives the order asked for. */
  lemma ArrangedKind(t: Tree, s: NodeSet, reverse: bool)
    ensures Arranged(t, s, reverse).kind == if reverse then SortedDown else SortedUp
  {
  }

  /** A union holds the nodes of both operands and no others. */
  lemma UnionSelects(I: Interp, t: Tree, one: Expr, other: Expr, c: Context, x: XNode)
    requires GoodInterp(I, t) && In(t, c.node)
    ensures x in SetOf(Eval(I, t, Union(one, other), c)).nodes <==>
      x in SetOf(Eval(I, t, one, c)).nodes || x in SetOf(Eval(I, t, other, c)).nodes
  {
    hide In, Truthful, Merged, Injective;
    EvalTruthful(I, t, one, c);
    EvalTruthful(I, t, other, c);
    UnionTruthful(I, t, SetOf(Eval(I, t, one, c)), SetOf(Eval(I, t, other, c)));
  }

  /** A step from the nodes another expression gives. */
  lemma StepFromMany(I: Interp, t: Tree, axis: Axis, test: Test, from: Expr, c: Context, y: XNode)
    requires GoodInterp(I, t) && In(t, c.node)
    ensures y in SetOf(Eval(I, t, Step(axis, test, Some(from), []), c)).nodes <==>
      exists x :: x in SetOf(Eval(I, t, from, c)).nodes && In(t, x) && Selects(t, axis, test, x, y)
  {
    hide In, Truthful, StepDo, Selects, Injective;
    EvalTruthful(I, t, from, c);
    StepSelects(I, t, Step(axis, test, Some(from), []), SetOf(Eval(I, t, from, c)), y);
  }

  /** A path that starts at the root starts at the document, wherever the context node is. */
  lemma FromTheRoot(I: Interp, t: Tree, axis: Axis, test: Test, c: Context, y: XNode)
    requires GoodInterp(I, t) && In(t, c.node)
    ensures y in SetOf(Eval(I, t, Step(axis, test, Some(Root), []), c)).nodes <==> Selects(t, axis, test, Node([]), y)
  {
    hide Truthful, StepDo, Selects, Injective;
    StepFromMany(I, t, axis, test, Root, c, y);
    assert Node([]) in [Node([])];
  }

  /** The path "//node()" selects every node of the document, and no attribute. */
  lemma Everywhere(I: Interp, t: Tree, c: Context, y: XNode)
    requires GoodInterp(I, t) && In(t, c.node)
    ensures y in SetOf(Eval(I, t, Step(AxisDescendantOrSelf, TestNode, Some(Root), []), c)).nodes <==>
      y.Node? && Has(t, y.path)
  {
    hide Eval, Has, Get;
    FromTheRoot(I, t, AxisDescendantOrSelf, TestNode, c, y);
  }

  // ---------- Values ----------

  predicate HasType(v: Value, ret: RetType) {
    match ret
    case BooleanType => v.BoolValue?
    case NumberType => v.NumValue?
    case StringType => v.StrValue?
    case NodeSetType => v.SetValue?
  }

  /** An expression has a value of its type, if variables do. */
  lemma EvalTyped(I: Interp, t: Tree, e: Expr, c: Context)
    requires WellTyped(e) && forall ret, name :: HasType(I.variables(ret, name), ret)
    ensures HasType(Eval(I, t, e, c), RetTypeOf(e))
  {
    hide StepDo, FilterBy, Arranged, Merged;
  }

  /** Operators and functions see the values their operands have in the context of the call, and the context node. */
  lemma SameOperands(I: Interp, t: Tree, ret: RetType, op: int, args: seq<Expr>, others: seq<Expr>, c: Context,
      c': Context)
    requires c.node == c'.node && |args| == |others|
    requires forall i :: 0 <= i < |args| ==> Eval(I, t, args[i], c) == Eval(I, t, others[i], c')
    ensures Eval(I, t, Apply(ret, op, args), c) == Eval(I, t, Apply(ret, op, others), c')
  {
    hide StepDo, FilterBy, Arranged, Merged;
    assert seq(|args|, i requires 0 <= i < |args| => Eval(I, t, args[i], c))
        == seq(|others|, i requires 0 <= i < |others| => Eval(I, t, others[i], c'));
  }

  /** position() and last() are those of the context. */
  lemma ContextNumbers(I: Interp, t: Tree, c: Context)
    requires Counts(I)
    ensures forall n: nat :: I.isPosition(Eval(I, t, Position, c), n) <==> n == c.position
    ensures forall n: nat :: I.isPosition(Eval(I, t, Last, c), n) <==> n == c.size
  {
  }
}
