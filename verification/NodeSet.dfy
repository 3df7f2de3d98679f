/** Node sets with a tag that says in which order the nodes are. */
module NodeSet {
  import opened Common
  import opened Tree
  import opened Axes
  import opened DocOrder
  import opened Perm
  import opened Sort

  datatype SetKind = Unsorted | SortedUp | SortedDown

  datatype NodeSet = NodeSet(kind: SetKind, nodes: seq<XNode>)

  /** No node twice, and the tag tells the truth. */
  ghost predicate Truthful(t: Tree, s: NodeSet) {
    AllIn(t, s.nodes) && NoRepeats(s.nodes) && (s.kind == SortedUp ==> Ascending(t, s.nodes)) &&
        (s.kind == SortedDown ==> Descending(t, s.nodes))
  }

  function Before(t: Tree): (XNode, XNode) -> bool {
    (x, y) => DocLess(t, x, y)
  }

  /** What the comparator computes: document order, but true of an attribute and itself. */
  function Comparator(t: Tree): (XNode, XNode) -> bool {
    (x, y) => DocLess(t, x, y) || (x == y && x.Attr?)
  }

  function Reversed<T>(s: seq<T>): (r: seq<T>)
    ensures |r| == |s| && forall i :: 0 <= i < |s| ==> r[i] == s[|s| - 1 - i]
  {
    seq(|s|, i requires 0 <= i < |s| => s[|s| - 1 - i])
  }

  /** The set put in document order, or in reverse. */
  function Arranged(t: Tree, s: NodeSet, reverse: bool): NodeSet {
    var kind := if reverse then SortedDown else SortedUp;
    var sorted := if s.kind == Unsorted then NodeSet(SortedUp, Isort(s.nodes, Before(t))) else s;
    NodeSet(kind, if sorted.kind != kind then Reversed(sorted.nodes) else sorted.nodes)
  }

  lemma ComparatorFits(t: Tree, s: seq<XNode>)
    requires NoRepeats(s)
    ensures Fits(Comparator(t), Before(t), multiset(s)) && StrictOrder(Before(t))
  {
    hide DocLess;
    DocOrderStrict(t);
    SameOrder(t);
    NoDoubles(s);
  }

  lemma SameOrder(t: Tree)
    ensures StrictOrder((x, y) => DocLess(t, x, y)) ==> StrictOrder(Before(t))
  {
    hide DocLess;
    var f := (x, y) => DocLess(t, x, y);
    assert forall x, y :: f(x, y) == Before(t)(x, y);
  }

  lemma {:induction false} RepeatedTwice<T>(s: seq<T>, x: T)
    requires multiset(s)[x] >= 2
    ensures !NoRepeats(s)
  {
    assert s == [s[0]] + s[1..];
    if s[0] == x {
      assert x in multiset(s[1..]);
      var j :| 0 <= j < |s[1..]| && s[1..][j] == x;
      assert s[0] == s[j + 1];
    } else {
      RepeatedTwice(s[1..], x);
      var i, j :| 0 <= i < j < |s[1..]| && s[1..][i] == s[1..][j];
      assert s[i + 1] == s[j + 1];
    }
  }

  lemma NoDoubles<T>(s: seq<T>)
    requires NoRepeats(s)
    ensures forall x :: multiset(s)[x] <= 1
  {
    forall x
      ensures multiset(s)[x] <= 1
    {
      if multiset(s)[x] >= 2 {
        RepeatedTwice(s, x);
      }
    }
  }

  /** xpath_sort on the array of a set. */
  method XpathSort(t: Tree, a: array<XNode>, begin: nat, end: nat, kind: SetKind,
      reverse: bool) returns (kind': SetKind)
    requires begin <= end <= a.Length && NoRepeats(a[begin..end])
    modifies a
    ensures NodeSet(kind', a[begin..end]) == Arranged(t, NodeSet(kind, old(a[begin..end])), reverse)
    ensures forall k :: 0 <= k < a.Length && (k < begin || end <= k) ==> a[k] == old(a[k])
  {
    hide Isort, StrictOrder, Fits, Before, Comparator, NoRepeats, Rearranged, Sorted, Shallow;
    kind' := if reverse then SortedDown else SortedUp;
    var now := kind;
    ghost var s := a[..];
    assert s[begin..end] == a[begin..end];
    if kind == Unsorted {
      ComparatorFits(t, a[begin..end]);
      ghost var depth := Sort.Sort(a, Comparator(t), Before(t), begin, end);
      SortedIsIsort(s, a[..], Before(t), begin, end);
      RestKept(s, a[..], begin, end);
      now := SortedUp;
    }
    ghost var u := a[begin..end];
    if now != kind' {
      Reverse(a, begin, end);
      assert a[begin..end] == Reversed(u);
    }
  }

  lemma RestKept<T>(s: seq<T>, t: seq<T>, begin: nat, end: nat)
    requires Rearranged(s, t, begin, end)
    ensures forall k :: 0 <= k < |s| && (k < begin || end <= k) ==> t[k] == s[k]
  {
    forall k: nat | k < |s| && (k < begin || end <= k)
      ensures t[k] == s[k]
    {
      Outside(s, t, begin, end, k);
    }
  }

  lemma SortedAscending(t: Tree, s: seq<XNode>)
    requires Sorted(s, Before(t), 0, |s|) && NoRepeats(s)
    ensures Ascending(t, s)
  {
    hide DocLess;
    DocOrderStrict(t);
    SameOrder(t);
    forall i, j | 0 <= i < j < |s|
      ensures DocLess(t, s[i], s[j])
    {
      assert !Before(t)(s[j], s[i]) && s[i] != s[j];
    }
  }

  lemma {:induction false} SameMultisetNoRepeats<T>(s: seq<T>, r: seq<T>)
    requires multiset(s) == multiset(r) && NoRepeats(s)
    ensures NoRepeats(r)
  {
    forall i, j | 0 <= i < j < |r|
      ensures r[i] != r[j]
    {
      if r[i] == r[j] {
        Twice(r, i, j);
        RepeatedTwice(s, r[i]);
      }
    }
  }

  lemma ReversedOrder(t: Tree, s: seq<XNode>)
    ensures Ascending(t, s) ==> Descending(t, Reversed(s))
    ensures Descending(t, s) ==> Ascending(t, Reversed(s))
    ensures NoRepeats(s) ==> NoRepeats(Reversed(s))
    ensures AllIn(t, s) ==> AllIn(t, Reversed(s))
    ensures forall x :: x in Reversed(s) <==> x in s
  {
    hide DocLess, In;
    forall x
      ensures x in Reversed(s) <==> x in s
    {
      if x in s {
        var i :| 0 <= i < |s| && s[i] == x;
        assert Reversed(s)[|s| - 1 - i] == x;
      }
    }
  }

  lemma IsortTruthful(t: Tree, s: seq<XNode>)
    requires AllIn(t, s) && NoRepeats(s)
    ensures var r := Isort(s, Before(t));
      AllIn(t, r) && NoRepeats(r) && Ascending(t, r) && forall x :: x in r <==> x in s
  {
    hide DocLess, In, Isort, NoRepeats;
    var r := Isort(s, Before(t));
    DocOrderStrict(t);
    SameOrder(t);
    IsortSorted(s, Before(t));
    SameMultisetNoRepeats(s, r);
    assert forall x :: x in r <==> x in multiset(r);
    assert forall x :: x in s <==> x in multiset(s);
    forall i | 0 <= i < |r|
      ensures In(t, r[i])
    {
      assert r[i] in s;
    }
    SortedAscending(t, r);
  }

  /** Sorting keeps the set and makes its tag come true. */
  lemma ArrangedTruthful(t: Tree, s: NodeSet, reverse: bool)
    requires Truthful(t, s)
    ensures Truthful(t, Arranged(t, s, reverse)) && forall x :: x in Arranged(t, s, reverse).nodes <==> x in s.nodes
  {
    hide Isort, NoRepeats, Ascending, Descending, AllIn, Before;
    if s.kind == Unsorted {
      IsortTruthful(t, s.nodes);
      ReversedOrder(t, Isort(s.nodes, Before(t)));
    } else {
      ReversedOrder(t, s.nodes);
    }
  }

  // ---------- Duplicates ----------

  /** Attributes first, then nodes, each by address. */
  function ByAddress(address: XNode -> int): (XNode, XNode) -> bool {
    (x: XNode, y: XNode) =>
      if x.Attr? then (if y.Attr? then address(x) < address(y) else true)
      else if y.Attr? then false else address(x) < address(y)
  }

  ghost predicate Injective(address: XNode -> int) {
    forall x, y :: address(x) == address(y) ==> x == y
  }

  lemma ByAddressStrict(address: XNode -> int)
    requires Injective(address)
    ensures StrictOrder(ByAddress(address))
  {
  }

  function Merged(address: XNode -> int, s: NodeSet): NodeSet {
    NodeSet(s.kind, Dedup(if s.kind == Unsorted then Isort(s.nodes, ByAddress(address)) else s.nodes))
  }

  /** Of any list of nodes tagged unsorted a set remains. */
  lemma MergedTruthful(t: Tree, address: XNode -> int, nodes: seq<XNode>)
    requires AllIn(t, nodes) && Injective(address)
    ensures Truthful(t, Merged(address, NodeSet(Unsorted, nodes)))
    ensures forall x :: x in Merged(address, NodeSet(Unsorted, nodes)).nodes <==> x in nodes
  {
    hide Isort, In, Dedup, StrictOrder, NoRepeats, Grouped, ByAddress;
    var r := Isort(nodes, ByAddress(address));
    ByAddressStrict(address);
    IsortSorted(nodes, ByAddress(address));
    SortedGrouped(r, ByAddress(address));
    DedupNoRepeats(r);
    DedupElements(r);
    assert forall x :: x in r <==> x in multiset(r);
    assert forall x :: x in nodes <==> x in multiset(nodes);
    forall i | 0 <= i < |Dedup(r)|
      ensures In(t, Dedup(r)[i])
    {
      assert Dedup(r)[i] in nodes;
    }
  }

  // ---------- The first node ----------

  /** The node that comes first in the document, found by the tag. */
  method First(t: Tree, s: NodeSet) returns (first: Option<XNode>)
    requires Truthful(t, s)
    ensures first.None? <==> s.nodes == []
    ensures first.Some? ==>
      first.value in s.nodes && forall y :: y in s.nodes ==> y == first.value || DocLess(t, first.value, y)
  {
    hide DocLess, In;
    if s.nodes == [] {
      return None;
    }
    match s.kind {
      case SortedUp => first := Some(s.nodes[0]);
      case SortedDown => first := Some(s.nodes[|s.nodes| - 1]);
      case Unsorted =>
        var m := MinElement(t, s.nodes);
        first := Some(m);
    }
  }

  method MinElement(t: Tree, s: seq<XNode>) returns (m: XNode)
    requires s != [] && NoRepeats(s)
    ensures m in s && forall y :: y in s ==> y == m || DocLess(t, m, y)
  {
    hide DocLess;
    DocOrderStrict(t);
    var f := (x, y) => DocLess(t, x, y);
    var at := 0;
    var i := 1;
    while i < |s|
      invariant 0 <= at < i <= |s| && forall j :: 0 <= j < i ==> j == at || DocLess(t, s[at], s[j])
    {
      assert s[i] != s[at];
      if Comparator(t)(s[i], s[at]) {
        assert f(s[i], s[at]);
        forall j | 0 <= j < i
          ensures DocLess(t, s[i], s[j])
        {
          assert j == at || f(s[at], s[j]);
        }
        at := i;
      } else {
        assert !f(s[i], s[at]);
        assert f(s[at], s[i]);
      }
      i := i + 1;
    }
    m := s[at];
  }
}
