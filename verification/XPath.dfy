/**
 * Evaluation of XPath expressions over a document. Node-set operations are modelled in full; operators and
 * functions on booleans, numbers and strings are left to an interpretation, as is the arithmetic of doubles.
 */
module XPath {
  import opened Common
  import opened Tree
  import opened Axes
  import opened DocOrder
  import opened NodeSet

  datatype RetType = BooleanType | NumberType | StringType | NodeSetType

  /** Doubles are codes that only the interpretation understands. */
  datatype Value = BoolValue(b: bool) | NumValue(n: int) | StrValue(s: string) | SetValue(ns: NodeSet)

  datatype Expr =
    | Position
    | Last
    | NumberConst(n: int)
    | StringConst(s: string)
    | Variable(ret: RetType, name: string)
    | Id(arg: Expr)
    | Root
    | Step(axis: Axis, test: Test, from: Option<Expr>, predicates: seq<Expr>)
    | Filter(left: Expr, condition: Expr)
    | FilterPosinv(left: Expr, condition: Expr)
    | Union(one: Expr, other: Expr)
    | Apply(ret: RetType, op: int, args: seq<Expr>)

  datatype Context = Context(node: XNode, position: nat, size: nat)

  datatype Interp = Interp(
    bools: (int, XNode, seq<Value>) -> bool,
    nums: (int, XNode, seq<Value>) -> int,
    strs: (int, XNode, seq<Value>) -> string,
    truth: Value -> bool,
    isPosition: (Value, nat) -> bool,
    ofNat: nat -> int,
    variables: (RetType, string) -> Value,
    address: XNode -> int)

  function RetTypeOf(e: Expr): RetType {
    match e
    case Position => NumberType
    case Last => NumberType
    case NumberConst(_) => NumberType
    case StringConst(_) => StringType
    case Variable(ret, _) => ret
    case Apply(ret, _, _) => ret
    case _ => NodeSetType
  }

  const NO_NODES := NodeSet(Unsorted, [])

  function SetOf(v: Value): NodeSet {
    if v.SetValue? then v.ns else NO_NODES
  }

  // ---------- Evaluation ----------

  function Eval(I: Interp, t: Tree, e: Expr, c: Context): Value
    decreases e, 4, 0
  {
    match e
    case Position => NumValue(I.ofNat(c.position))
    case Last => NumValue(I.ofNat(c.size))
    case NumberConst(n) => NumValue(n)
    case StringConst(s) => StrValue(s)
    case Variable(ret, name) => I.variables(ret, name)
    case Id(_) => SetValue(NO_NODES)
    case Root => SetValue(NodeSet(SortedUp, [Node([])]))
    case Step(_, _, from, _) =>
      SetValue(StepDo(I, t, e, if from.None? then NodeSet(SortedUp, [c.node]) else SetOf(Eval(I, t, from.value, c))))
    case Filter(left, condition) =>
      var s := Arranged(t, SetOf(Eval(I, t, left, c)), false);
      SetValue(NodeSet(s.kind, FilterBy(I, t, condition, s.nodes, 0)))
    case FilterPosinv(left, condition) =>
      var s := SetOf(Eval(I, t, left, c));
      SetValue(NodeSet(s.kind, FilterBy(I, t, condition, s.nodes, 0)))
    case Union(one, other) =>
      var ls, rs := SetOf(Eval(I, t, one, c)), SetOf(Eval(I, t, other, c));
      SetValue(Merged(I.address, NodeSet(Unsorted, rs.nodes + ls.nodes)))
    case Apply(ret, op, args) =>
      Applied(I, ret, op, c.node, seq(|args|, i requires 0 <= i < |args| => Eval(I, t, args[i], c)))
  }

  /** No function but id() returns nodes. */
  function Applied(I: Interp, ret: RetType, op: int, node: XNode, args: seq<Value>): Value {
    match ret
    case BooleanType => BoolValue(I.bools(op, node, args))
    case NumberType => NumValue(I.nums(op, node, args))
    case StringType => StrValue(I.strs(op, node, args))
    case NodeSetType => SetValue(NO_NODES)
  }

  /** A number predicate asks for a position, any other is taken as a boolean. */
  function Holds(I: Interp, t: Tree, condition: Expr, c: Context): bool
    decreases condition, 5, 0
  {
    if RetTypeOf(condition) == NumberType then I.isPosition(Eval(I, t, condition, c), c.position)
    else I.truth(Eval(I, t, condition, c))
  }

  /** The nodes from position i on for which the predicate holds; positions count from one. */
  function FilterBy(I: Interp, t: Tree, condition: Expr, nodes: seq<XNode>, i: nat): seq<XNode>
    requires i <= |nodes|
    decreases condition, 6, |nodes| - i
  {
    if i == |nodes| then []
    else
      var chosen := if Holds(I, t, condition, Context(nodes[i], i + 1, |nodes|)) then [nodes[i]] else [];
      chosen + FilterBy(I, t, condition, nodes, i + 1)
  }

  /** The predicates of a step from the j-th on, one after the other. */
  function FilterAll(I: Interp, t: Tree, e: Expr, j: nat, nodes: seq<XNode>): seq<XNode>
    requires e.Step? && j <= |e.predicates|
    decreases e, 1, |e.predicates| - j
  {
    if j == |e.predicates| then nodes else FilterAll(I, t, e, j + 1, FilterBy(I, t, e.predicates[j], nodes, 0))
  }

  function StepNodes(t: Tree, axis: Axis, test: Test, x: XNode): seq<XNode> {
    if In(t, x) then AxisNodes(t, axis, test, x) else []
  }

  function StartKind(axis: Axis, contexts: NodeSet): SetKind {
    if axis == AxisSelf then contexts.kind else if IsReverse(axis) then SortedDown else SortedUp
  }

  /** What the context nodes select, one after the other; a second contribution loses the order. */
  function StepFold(I: Interp, t: Tree, e: Expr, kind: SetKind, contexts: seq<XNode>): NodeSet
    requires e.Step?
    decreases e, 2, |contexts|
  {
    if contexts == [] then NodeSet(kind, [])
    else
      var s := StepFold(I, t, e, kind, contexts[..|contexts| - 1]);
      NodeSet(if e.axis != AxisSelf && s.nodes != [] then Unsorted else s.kind,
              s.nodes + FilterAll(I, t, e, 0, StepNodes(t, e.axis, e.test, contexts[|contexts| - 1])))
  }

  predicate Distinguishes(axis: Axis) {
    axis == AxisChild || axis == AxisAttribute || axis == AxisSelf
  }

  function StepDo(I: Interp, t: Tree, e: Expr, contexts: NodeSet): NodeSet
    requires e.Step?
    decreases e, 3, 0
  {
    var s := StepFold(I, t, e, StartKind(e.axis, contexts), contexts.nodes);
    if !Distinguishes(e.axis) && s.kind == Unsorted then Merged(I.address, s) else s
  }

  // ---------- The loops ----------

  /** The nodes from first on for which the predicate holds are moved together and the rest is cut off. */
  method ApplyPredicate(I: Interp, t: Tree, ns: seq<XNode>, first: nat, condition: Expr) returns (r: seq<XNode>)
    requires first <= |ns|
    ensures r == ns[..first] + FilterBy(I, t, condition, ns[first..], 0)
  {
    hide Holds, FilterBy;
    r := ns;
    ghost var tail, kept := ns[first..], ns[..first];
    var size := |ns| - first;
    var last, it, i := first, first, 1;
    while it < |ns|
      invariant |r| == |ns| && first <= last <= it <= |ns| && i == it - first + 1 && r[it..] == ns[it..] &&
          r[..last] == kept
      invariant kept + FilterBy(I, t, condition, tail, it - first) == ns[..first] + FilterBy(I, t, condition, tail, 0)
    {
      assert r[it] == r[it..][0] == ns[it..][0] == tail[it - first];
      FilterByStep(I, t, condition, tail, it - first);
      if Holds(I, t, condition, Context(r[it], i, size)) {
        kept := kept + [r[it]];
        r := r[last := r[it]];
        last := last + 1;
      }
      assert r[it + 1..] == ns[it + 1..];
      it, i := it + 1, i + 1;
    }
    FilterByStep(I, t, condition, tail, size);
    r := r[..last];
  }

  lemma FilterByStep(I: Interp, t: Tree, condition: Expr, nodes: seq<XNode>, i: nat)
    requires i <= |nodes|
    ensures i == |nodes| ==> FilterBy(I, t, condition, nodes, i) == []
    ensures i < |nodes| ==>
      FilterBy(I, t, condition, nodes, i)
      == (if Holds(I, t, condition, Context(nodes[i], i + 1, |nodes|)) then [nodes[i]] else []) +
          FilterBy(I, t, condition, nodes, i + 1)
  {
    hide Holds;
  }

  method ApplyPredicates(I: Interp, t: Tree, ns: seq<XNode>, first: nat, e: Expr) returns (r: seq<XNode>)
    requires first <= |ns| && e.Step?
    ensures r == ns[..first] + FilterAll(I, t, e, 0, ns[first..])
  {
    hide FilterBy;
    r := ns;
    if |ns| == first {
      FilterNothing(I, t, e, 0);
      assert ns[first..] == [] && ns[..first] == ns;
      return;
    }
    var j := 0;
    while j < |e.predicates|
      invariant j <= |e.predicates| && first <= |r| && r[..first] == ns[..first]
      invariant FilterAll(I, t, e, j, r[first..]) == FilterAll(I, t, e, 0, ns[first..])
    {
      ghost var before := r;
      r := ApplyPredicate(I, t, r, first, e.predicates[j]);
      assert r[..first] == before[..first] && r[first..] == FilterBy(I, t, e.predicates[j], before[first..], 0);
      j := j + 1;
    }
  }

  lemma {:induction false} FilterNothing(I: Interp, t: Tree, e: Expr, j: nat)
    requires e.Step? && j <= |e.predicates|
    ensures FilterAll(I, t, e, j, []) == []
    decreases |e.predicates| - j
  {
    if j < |e.predicates| {
      FilterNothing(I, t, e, j + 1);
    }
  }

  /** step_do: the axis is walked from each context node and the predicates applied to what it added. */
  method StepMethod(I: Interp, t: Tree, e: Expr, contexts: NodeSet) returns (r: NodeSet)
    requires e.Step? && AllIn(t, contexts.nodes)
    ensures r == StepDo(I, t, e, contexts)
  {
    hide FilterAll, AxisNodes, Merged;
    var kind := StartKind(e.axis, contexts);
    var start := kind;
    var ns := [];
    var i := 0;
    while i < |contexts.nodes|
      invariant i <= |contexts.nodes| && NodeSet(kind, ns) == StepFold(I, t, e, start, contexts.nodes[..i])
    {
      var x := contexts.nodes[i];
      var size := |ns|;
      if e.axis != AxisSelf && size != 0 {
        kind := Unsorted;
      }
      ghost var before := ns;
      if x.Node? {
        ns := StepFillNode(ns, t, e.axis, e.test, x.path);
      } else {
        ns := StepFillAttr(ns, t, e.axis, e.test, x);
      }
      assert ns[..size] == before && ns[size..] == AxisNodes(t, e.axis, e.test, x);
      ns := ApplyPredicates(I, t, ns, size, e);
      assert contexts.nodes[..i + 1][..i] == contexts.nodes[..i];
      i := i + 1;
    }
    assert contexts.nodes[..i] == contexts.nodes;
    r := NodeSet(kind, ns);
    if !Distinguishes(e.axis) && kind == Unsorted {
      r := Merged(I.address, r);
    }
  }
}
