/** Filters that skip the sort: when the predicate does not ask for a position, the result is the same. */
module Posinv {
  import opened Common
  import opened Tree
  import opened Axes
  import opened DocOrder
  import opened Perm
  import opened NodeSet
  import opened XPath
  import opened XPathSets

  /** is_posinv: no call of position() outside steps and filters. */
  predicate IsPosinv(e: Expr) {
    match e
    case Position => false
    case Id(arg) => IsPosinv(arg)
    case Union(one, other) => IsPosinv(one) && IsPosinv(other)
    case Apply(_, _, args) => forall i :: 0 <= i < |args| ==> IsPosinv(args[i])
    case _ => true
  }

  /** The filter the parser makes of a node set and a predicate. */
  function MakeFilter(left: Expr, condition: Expr): Expr {
    if RetTypeOf(condition) != NumberType && IsPosinv(condition) then FilterPosinv(left, condition)
    else Filter(left, condition)
  }

  /** What the parser accepts: steps, filters and unions over node sets, and filters as it makes them. */
  predicate WellTyped(e: Expr) {
    match e
    case Id(arg) => WellTyped(arg)
    case Step(_, _, from, predicates) =>
      (from.Some? ==> RetTypeOf(from.value) == NodeSetType && WellTyped(from.value)) &&
      forall i :: 0 <= i < |predicates| ==> WellTyped(predicates[i])
    case Filter(left, condition) =>
      RetTypeOf(left) == NodeSetType && WellTyped(left) && WellTyped(condition) && e == MakeFilter(left, condition)
    case FilterPosinv(left, condition) =>
      RetTypeOf(left) == NodeSetType && WellTyped(left) && WellTyped(condition) && e == MakeFilter(left, condition)
    case Union(one, other) => RetTypeOf(one) == RetTypeOf(other) == NodeSetType && WellTyped(one) && WellTyped(other)
    case Apply(ret, _, args) => ret != NodeSetType && forall i :: 0 <= i < |args| ==> WellTyped(args[i])
    case _ => true
  }

  // ---------- Values do not depend on the position ----------

  /** A node-set expression depends on the context node alone. */
  lemma {:induction false} NodeSetFree(I: Interp, t: Tree, e: Expr, c: Context, c': Context)
    requires WellTyped(e) && RetTypeOf(e) == NodeSetType && c.node == c'.node
    ensures Eval(I, t, e, c) == Eval(I, t, e, c')
  {
    hide StepDo, FilterBy, Arranged, Merged;
    match e {
      case Step(_, _, from, _) =>
        if from.Some? {
          NodeSetFree(I, t, from.value, c, c');
        }
      case Filter(left, _) => NodeSetFree(I, t, left, c, c');
      case FilterPosinv(left, _) => NodeSetFree(I, t, left, c, c');
      case Union(one, other) =>
        NodeSetFree(I, t, one, c, c');
        NodeSetFree(I, t, other, c, c');
      case _ =>
    }
  }

  /** Without position() the value does not depend on the context position. */
  lemma {:induction false} PosinvFree(I: Interp, t: Tree, e: Expr, c: Context, c': Context)
    requires WellTyped(e) && IsPosinv(e) && c.node == c'.node && c.size == c'.size
    ensures Eval(I, t, e, c) == Eval(I, t, e, c')
  {
    hide StepDo, FilterBy, Arranged, Merged;
    match e {
      case Apply(ret, op, args) =>
        forall i | 0 <= i < |args|
          ensures Eval(I, t, args[i], c) == Eval(I, t, args[i], c')
        {
          PosinvFree(I, t, args[i], c, c');
        }
        assert seq(|args|, i requires 0 <= i < |args| => Eval(I, t, args[i], c)) ==
            seq(|args|, i requires 0 <= i < |args| => Eval(I, t, args[i], c'));
      case Step(_, _, _, _) => NodeSetFree(I, t, e, c, c');
      case Filter(_, _) => NodeSetFree(I, t, e, c, c');
      case FilterPosinv(_, _) => NodeSetFree(I, t, e, c, c');
      case Union(_, _) => NodeSetFree(I, t, e, c, c');
      case _ =>
    }
  }

  /** The parts of an expression that are evaluated in its own context: operands and arguments, not steps. */
  function OwnParts(e: Expr): seq<Expr> {
    match e
    case Id(arg) => [e] + OwnParts(arg)
    case Union(one, other) => [e] + OwnParts(one) + OwnParts(other)
    case Apply(_, _, args) => [e] + PartsOfAll(args)
    case _ => [e]
  }

  function PartsOfAll(es: seq<Expr>): seq<Expr> {
    if es == [] then [] else OwnParts(es[0]) + PartsOfAll(es[1..])
  }

  /** is_posinv says no exactly when position() is called in the context of the expression itself. */
  lemma {:induction false} PosinvExactly(e: Expr)
    ensures IsPosinv(e) <==> Position !in OwnParts(e)
    decreases e, 0
  {
    match e
    case Id(arg) => PosinvExactly(arg);
    case Union(one, other) =>
      PosinvExactly(one);
      PosinvExactly(other);
    case Apply(_, _, args) => PosinvOfAll(args);
    case _ =>
  }

  lemma {:induction false} PosinvOfAll(es: seq<Expr>)
    ensures (forall i :: 0 <= i < |es| ==> IsPosinv(es[i])) <==> Position !in PartsOfAll(es)
    decreases es, 1
  {
    if es != [] {
      PosinvExactly(es[0]);
      PosinvOfAll(es[1..]);
      assert forall i :: 1 <= i < |es| ==> es[i] == es[1..][i - 1];
    }
  }

  // ---------- Skipping the sort ----------

  /** The nodes that satisfy a condition of their own, in the order given. */
  function Selected(nodes: seq<XNode>, chosen: XNode -> bool): seq<XNode> {
    if nodes == [] then [] else (if chosen(nodes[0]) then [nodes[0]] else []) + Selected(nodes[1..], chosen)
  }

  /** The predicate asked of one node of a set of the given size. */
  function Asks(I: Interp, t: Tree, condition: Expr, size: nat): XNode -> bool {
    x => Holds(I, t, condition, Context(x, 1, size))
  }

  lemma {:induction false} FilterSelects(I: Interp, t: Tree, condition: Expr, nodes: seq<XNode>, i: nat)
    requires WellTyped(condition) && IsPosinv(condition) && RetTypeOf(condition) != NumberType && i <= |nodes|
    ensures FilterBy(I, t, condition, nodes, i) == Selected(nodes[i..], Asks(I, t, condition, |nodes|))
    decreases |nodes| - i
  {
    hide Eval;
    if i < |nodes| {
      FilterSelects(I, t, condition, nodes, i + 1);
      PosinvFree(I, t, condition, Context(nodes[i], i + 1, |nodes|), Context(nodes[i], 1, |nodes|));
      assert nodes[i..][1..] == nodes[i + 1..];
    }
  }

  lemma {:induction false} SelectedMembers(nodes: seq<XNode>, chosen: XNode -> bool)
    ensures forall x :: x in Selected(nodes, chosen) <==> x in nodes && chosen(x)
  {
    if nodes != [] {
      SelectedMembers(nodes[1..], chosen);
    }
  }

  lemma {:induction false} AscendingUnique(t: Tree, x: seq<XNode>, y: seq<XNode>)
    requires Ascending(t, x) && Ascending(t, y) && forall n :: n in x <==> n in y
    ensures x == y
  {
    hide DocLess;
    OrderedNoRepeats(t, x);
    OrderedNoRepeats(t, y);
    SameMembers(x, y);
    AscendingSorted(t, x);
    AscendingSorted(t, y);
    DocOrderStrict(t);
    SameOrder(t);
    SortedUnique(x, y, Before(t));
  }

  lemma AscendingSorted(t: Tree, x: seq<XNode>)
    requires Ascending(t, x)
    ensures Sorted(x, Before(t), 0, |x|)
  {
    hide Lex;
    forall i, j | 0 <= i < j < |x|
      ensures !Before(t)(x[j], x[i])
    {
      assert DocLess(t, x[i], x[j]);
      LexTotal(Key(t, x[i]), Key(t, x[j]));
      LexIrreflexive(Key(t, x[i]));
    }
  }

  lemma SameMembers(x: seq<XNode>, y: seq<XNode>)
    requires NoRepeats(x) && NoRepeats(y) && forall n :: n in x <==> n in y
    ensures multiset(x) == multiset(y)
  {
    hide NoRepeats;
    NoDoubles(x);
    NoDoubles(y);
    forall n
      ensures multiset(x)[n] == multiset(y)[n]
    {
      assert n in x <==> n in multiset(x);
      assert n in y <==> n in multiset(y);
    }
  }

  lemma SameSize(x: seq<XNode>, y: seq<XNode>)
    requires NoRepeats(x) && NoRepeats(y) && forall n :: n in x <==> n in y
    ensures |x| == |y|
  {
    SameMembers(x, y);
    assert |multiset(x)| == |multiset(y)|;
  }

  /** Sorting after filtering is filtering after sorting. */
  lemma FilterThenSort(I: Interp, t: Tree, condition: Expr, s: NodeSet)
    requires Truthful(t, s) && WellTyped(condition) && IsPosinv(condition) && RetTypeOf(condition) != NumberType
    ensures Arranged(t, NodeSet(s.kind, FilterBy(I, t, condition, s.nodes, 0)), false)
         == NodeSet(SortedUp, FilterBy(I, t, condition, Arranged(t, s, false).nodes, 0))
  {
    hide Arranged, Ascending, Descending, NoRepeats, AllIn, FilterBy, Asks;
    var u := Arranged(t, s, false);
    ArrangedTruthful(t, s, false);
    ArrangedUp(t, s);
    SameSize(s.nodes, u.nodes);
    var f := NodeSet(s.kind, FilterBy(I, t, condition, s.nodes, 0));
    var g := FilterBy(I, t, condition, u.nodes, 0);
    FilterTruthful(I, t, condition, s);
    FilterTruthful(I, t, condition, u);
    ArrangedTruthful(t, f, false);
    ArrangedUp(t, f);
    FilterSelects(I, t, condition, s.nodes, 0);
    FilterSelects(I, t, condition, u.nodes, 0);
    assert s.nodes[0..] == s.nodes && u.nodes[0..] == u.nodes;
    SelectedMembers(s.nodes, Asks(I, t, condition, |s.nodes|));
    SelectedMembers(u.nodes, Asks(I, t, condition, |u.nodes|));
    AscendingUnique(t, Arranged(t, f, false).nodes, g);
  }

  lemma ArrangedUp(t: Tree, s: NodeSet)
    ensures Arranged(t, s, false).kind == SortedUp
  {
  }

  /** What the two filters evaluate to. */
  lemma FiltersAre(I: Interp, t: Tree, left: Expr, condition: Expr, c: Context)
    ensures var s, u := SetOf(Eval(I, t, left, c)), Arranged(t, SetOf(Eval(I, t, left, c)), false);
      SetOf(Eval(I, t, FilterPosinv(left, condition), c)) == NodeSet(s.kind, FilterBy(I, t, condition, s.nodes, 0)) &&
      SetOf(Eval(I, t, Filter(left, condition), c)) == NodeSet(u.kind, FilterBy(I, t, condition, u.nodes, 0))
  {
    hide Arranged, FilterBy;
  }

  /**
   * The filter the parser makes without a sort selects exactly what it would with one: the same nodes, and
   * once put in document order the same sequence.
   */
  lemma SkippingTheSort(I: Interp, t: Tree, left: Expr, condition: Expr, c: Context)
    requires GoodInterp(I, t) && In(t, c.node) && WellTyped(MakeFilter(left, condition))
    ensures
      var made := SetOf(Eval(I, t, MakeFilter(left, condition), c));
      var sorted := SetOf(Eval(I, t, Filter(left, condition), c));
      Arranged(t, made, false) == sorted && forall x :: x in made.nodes <==> x in sorted.nodes
  {
    hide GoodInterp, Arranged, Truthful, FilterBy, In, Eval;
    var s := SetOf(Eval(I, t, left, c));
    EvalTruthful(I, t, left, c);
    EvalTruthful(I, t, MakeFilter(left, condition), c);
    var made := SetOf(Eval(I, t, MakeFilter(left, condition), c));
    ArrangedTruthful(t, made, false);
    ArrangedUp(t, s);
    FiltersAre(I, t, left, condition, c);
    if MakeFilter(left, condition).FilterPosinv? {
      FilterThenSort(I, t, condition, s);
    } else {
      AlreadyUp(t, made);
    }
  }

  lemma AlreadyUp(t: Tree, s: NodeSet)
    ensures s.kind == SortedUp ==> Arranged(t, s, false) == s
  {
  }
}
