/** Rearrangements of a range of a sequence, and order within ranges. */
module Perm {

  /** Strict total order consistent with equality. */
  ghost predicate StrictOrder<T(!new)>(less: (T, T) -> bool) {
    (forall x :: !less(x, x)) && (forall x, y :: x == y || less(x, y) || less(y, x)) &&
    forall x, y, z :: less(x, y) && less(y, z) ==> less(x, z)
  }

  /**
   * A comparison that agrees with a strict order on any two of the given elements; it may hold of an element
   * and itself as long as there is only one of it.
   */
  ghost predicate Fits<T(!new)>(less: (T, T) -> bool, order: (T, T) -> bool, m: multiset<T>) {
    (forall x, y :: x in m && y in m && x != y ==> (less(x, y) <==> order(x, y))) &&
        forall x :: m[x] >= 2 ==> !less(x, x)
  }

  /** t is s with the range [lo, hi) rearranged. */
  ghost predicate Rearranged<T>(s: seq<T>, t: seq<T>, lo: nat, hi: nat) {
    lo <= hi <= |s| == |t| && s[..lo] == t[..lo] && s[hi..] == t[hi..] && multiset(s[lo..hi]) == multiset(t[lo..hi])
  }

  /** Non-decreasing on [lo, hi). */
  ghost predicate Sorted<T>(s: seq<T>, less: (T, T) -> bool, lo: nat, hi: nat) {
    hi <= |s| && forall i, j :: lo <= i < j < hi ==> !less(s[j], s[i])
  }

  /** Nothing in [lo, mid) is greater than anything in [mid, hi). */
  ghost predicate Below<T>(s: seq<T>, less: (T, T) -> bool, lo: nat, mid: nat, hi: nat) {
    hi <= |s| && forall i, j :: lo <= i < mid <= j < hi ==> !less(s[j], s[i])
  }

  function Swapped<T>(s: seq<T>, i: nat, j: nat): (t: seq<T>)
    requires i < |s| && j < |s|
    ensures |t| == |s| && t[i] == s[j] && t[j] == s[i] && forall k :: 0 <= k < |s| && k != i && k != j ==> t[k] == s[k]
  {
    s[i := s[j]][j := s[i]]
  }

  lemma Cut<T>(s: seq<T>, lo: nat, hi: nat)
    requires lo <= hi <= |s|
    ensures s == s[..lo] + s[lo..hi] + s[hi..]
  {
  }

  /** Rearrangement within a range can be judged on the whole sequence. */
  lemma RearrangedWhole<T>(s: seq<T>, t: seq<T>, lo: nat, hi: nat)
    requires lo <= hi <= |s| == |t| && s[..lo] == t[..lo] && s[hi..] == t[hi..]
    ensures Rearranged(s, t, lo, hi) <==> multiset(s) == multiset(t)
  {
    Cut(s, lo, hi);
    Cut(t, lo, hi);
    assert multiset(s) == multiset(s[..lo]) + multiset(s[lo..hi]) + multiset(s[hi..]);
    assert multiset(t) == multiset(t[..lo]) + multiset(t[lo..hi]) + multiset(t[hi..]);
    if multiset(s) == multiset(t) {
      assert multiset(s[lo..hi]) == multiset(s) - multiset(s[..lo]) - multiset(s[hi..]);
    }
  }

  lemma RearrangedRefl<T>(s: seq<T>, lo: nat, hi: nat)
    requires lo <= hi <= |s|
    ensures Rearranged(s, s, lo, hi)
  {
  }

  lemma RearrangedTrans<T>(s: seq<T>, t: seq<T>, u: seq<T>, lo: nat, hi: nat)
    requires Rearranged(s, t, lo, hi) && Rearranged(t, u, lo, hi)
    ensures Rearranged(s, u, lo, hi)
  {
  }

  lemma RearrangedWiden<T>(s: seq<T>, t: seq<T>, lo: nat, hi: nat, lo': nat, hi': nat)
    requires Rearranged(s, t, lo, hi) && lo' <= lo && hi <= hi' <= |s|
    ensures Rearranged(s, t, lo', hi')
  {
    RearrangedWhole(s, t, lo, hi);
    assert s[..lo'] == s[..lo][..lo'] && t[..lo'] == t[..lo][..lo'];
    assert s[hi'..] == s[hi..][hi' - hi..] && t[hi'..] == t[hi..][hi' - hi..];
    RearrangedWhole(s, t, lo', hi');
  }

  lemma SwapRearranges<T>(s: seq<T>, i: nat, j: nat, lo: nat, hi: nat)
    requires lo <= i < hi <= |s| && lo <= j < hi
    ensures Rearranged(s, Swapped(s, i, j), lo, hi)
  {
    var t := Swapped(s, i, j);
    assert s[..lo] == t[..lo] && s[hi..] == t[hi..];
    assert multiset(t) == multiset(s);
    RearrangedWhole(s, t, lo, hi);
  }

  /** Every element of a rearranged range was in the range before. */
  lemma Origin<T>(s: seq<T>, t: seq<T>, lo: nat, hi: nat, i: nat) returns (j: nat)
    requires Rearranged(s, t, lo, hi) && lo <= i < hi
    ensures lo <= j < hi && s[j] == t[i]
  {
    assert t[lo..hi][i - lo] in multiset(t[lo..hi]);
    assert t[i] in multiset(s[lo..hi]);
    j :| 0 <= j < hi - lo && s[lo..hi][j] == t[i];
    j := j + lo;
  }

  lemma Outside<T>(s: seq<T>, t: seq<T>, lo: nat, hi: nat, i: nat)
    requires Rearranged(s, t, lo, hi) && i < |s| && (i < lo || hi <= i)
    ensures t[i] == s[i]
  {
    if i < lo {
      assert s[..lo][i] == t[..lo][i];
    } else {
      assert s[hi..][i - hi] == t[hi..][i - hi];
    }
  }

  /** What lies between sorted margins: everything left of b is done, and so is everything from e on. */
  ghost predicate Margins<T>(s: seq<T>, less: (T, T) -> bool, lo: nat, b: nat, e: nat, hi: nat) {
    lo <= b <= e <= hi <= |s| && Sorted(s, less, lo, b) && Sorted(s, less, e, hi) && Below(s, less, lo, b, hi) &&
        Below(s, less, lo, e, hi)
  }

  lemma MarginsKept<T>(s: seq<T>, t: seq<T>, less: (T, T) -> bool, lo: nat, b: nat, e: nat, hi: nat)
    requires Margins(s, less, lo, b, e, hi) && Rearranged(s, t, b, e)
    ensures Margins(t, less, lo, b, e, hi)
  {
    hide Rearranged;
    Lengths(s, t, b, e);
    forall i, j | lo <= i < j < b
      ensures !less(t[j], t[i])
    {
      Outside(s, t, b, e, i);
      Outside(s, t, b, e, j);
    }
    forall i, j | e <= i < j < hi
      ensures !less(t[j], t[i])
    {
      Outside(s, t, b, e, i);
      Outside(s, t, b, e, j);
    }
    BelowKept(s, t, less, lo, b, b, e, hi);
    BelowKept(s, t, less, lo, e, b, e, hi);
  }

  lemma Lengths<T>(s: seq<T>, t: seq<T>, lo: nat, hi: nat)
    requires Rearranged(s, t, lo, hi)
    ensures |s| == |t| && lo <= hi <= |s|
  {
  }

  lemma BelowKept<T>(s: seq<T>, t: seq<T>, less: (T, T) -> bool, lo: nat, mid: nat, b: nat, e: nat, hi: nat)
    requires Below(s, less, lo, mid, hi) && Rearranged(s, t, b, e) && lo <= b <= e <= hi && (mid == b || mid == e)
    ensures Below(t, less, lo, mid, hi)
  {
    hide Rearranged;
    Lengths(s, t, b, e);
    forall i, j | lo <= i < mid <= j < hi
      ensures !less(t[j], t[i])
    {
      var i0, j0 := i, j;
      if b <= i < e {
        i0 := Origin(s, t, b, e, i);
      } else {
        Outside(s, t, b, e, i);
      }
      if b <= j < e {
        j0 := Origin(s, t, b, e, j);
      } else {
        Outside(s, t, b, e, j);
      }
      assert !less(s[j0], s[i0]);
    }
  }

  lemma MarginsClosed<T>(s: seq<T>, less: (T, T) -> bool, lo: nat, b: nat, e: nat, hi: nat)
    requires Margins(s, less, lo, b, e, hi) && Sorted(s, less, b, e)
    ensures Sorted(s, less, lo, hi)
  {
  }

  lemma FitsSelf<T(!new)>(less: (T, T) -> bool, m: multiset<T>)
    requires StrictOrder(less)
    ensures Fits(less, less, m)
  {
  }

  /** Elements at different places compare as the order says. */
  lemma FitsAt<T(!new)>(s: seq<T>, less: (T, T) -> bool, order: (T, T) -> bool, lo: nat, hi: nat, i: nat, j: nat)
    requires lo <= i < hi <= |s| && lo <= j < hi && i != j && StrictOrder(order) &&
        Fits(less, order, multiset(s[lo..hi]))
    ensures less(s[i], s[j]) <==> order(s[i], s[j])
  {
    var u, x, y := s[lo..hi], i - lo, j - lo;
    assert u[x] in multiset(u) && u[y] in multiset(u);
    if u[x] == u[y] {
      Twice(u, x, y);
    }
  }

  lemma Twice<T>(u: seq<T>, x: nat, y: nat)
    requires x < |u| && y < |u| && x != y && u[x] == u[y]
    ensures multiset(u)[u[x]] >= 2
  {
    var i, j := if x < y then x else y, if x < y then y else x;
    assert u == u[..j] + u[j..];
    assert multiset(u) == multiset(u[..j]) + multiset(u[j..]);
    assert u[..j][i] in multiset(u[..j]) && u[j..][0] in multiset(u[j..]);
  }

  lemma FitsPart<T(!new)>(s: seq<T>, less: (T, T) -> bool, order: (T, T) -> bool, lo: nat, hi: nat, b: nat, e: nat)
    requires lo <= b <= e <= hi <= |s| && Fits(less, order, multiset(s[lo..hi]))
    ensures Fits(less, order, multiset(s[b..e]))
  {
    assert s[lo..hi] == s[lo..b] + s[b..e] + s[e..hi];
    assert multiset(s[lo..hi]) == multiset(s[lo..b]) + multiset(s[b..e]) + multiset(s[e..hi]);
  }

  lemma FitsNow<T(!new)>(s: seq<T>, t: seq<T>, less: (T, T) -> bool, order: (T, T) -> bool, lo: nat, hi: nat, i: nat,
      j: nat)
    requires StrictOrder(order) && lo <= hi <= |s| && Fits(less, order, multiset(s[lo..hi])) && Rearranged(s, t, lo, hi)
    requires lo <= i < hi && lo <= j < hi && i != j
    ensures less(t[i], t[j]) <==> order(t[i], t[j])
  {
    hide StrictOrder, Fits;
    FitsAt(t, less, order, lo, hi, i, j);
  }

  lemma FitsRearranged<T(!new)>(s: seq<T>, t: seq<T>, less: (T, T) -> bool, order: (T, T) -> bool, lo: nat, hi: nat,
      b: nat, e: nat)
    requires lo <= b <= e <= hi <= |s| && Fits(less, order, multiset(s[lo..hi])) && Rearranged(s, t, lo, hi)
    ensures Fits(less, order, multiset(t[b..e]))
  {
    FitsPart(t, less, order, lo, hi, b, e);
  }

  // ---------- There is only one sorted arrangement ----------

  lemma SortedHead<T(!new)>(s: seq<T>, t: seq<T>, less: (T, T) -> bool)
    requires StrictOrder(less) && s != [] && t != [] && s[0] in t && t[0] in s
    requires Sorted(s, less, 0, |s|) && Sorted(t, less, 0, |t|)
    ensures s[0] == t[0]
  {
    var i :| 0 <= i < |s| && s[i] == t[0];
    var j :| 0 <= j < |t| && t[j] == s[0];
    assert i == 0 || !less(s[i], s[0]);
    assert j == 0 || !less(t[j], t[0]);
  }

  lemma SameHead<T>(s: seq<T>, t: seq<T>)
    requires multiset(s) == multiset(t) && s != []
    ensures t != [] && s[0] in t && t[0] in s
    ensures s[0] == t[0] ==> multiset(s[1..]) == multiset(t[1..])
  {
    assert s[0] in multiset(t);
    assert t[0] in multiset(s);
    WithoutHead(s);
    WithoutHead(t);
  }

  lemma WithoutHead<T>(s: seq<T>)
    requires s != []
    ensures multiset(s[1..]) == multiset(s) - multiset{s[0]}
  {
    assert s == [s[0]] + s[1..];
    assert multiset(s) == multiset([s[0]]) + multiset(s[1..]);
  }

  lemma {:induction false} SortedUnique<T(!new)>(s: seq<T>, t: seq<T>, less: (T, T) -> bool)
    requires StrictOrder(less) && multiset(s) == multiset(t) && Sorted(s, less, 0, |s|) && Sorted(t, less, 0, |t|)
    ensures s == t
    decreases |s|
  {
    hide StrictOrder;
    if s == [] {
      assert |multiset(t)| == 0;
    } else {
      SameHead(s, t);
      SortedHead(s, t, less);
      SortedUnique(s[1..], t[1..], less);
      assert s == [s[0]] + s[1..] && t == [t[0]] + t[1..];
    }
  }

  /** An element put where it belongs. */
  function InsertBy<T>(x: T, s: seq<T>, less: (T, T) -> bool): (r: seq<T>)
    ensures multiset(r) == multiset(s) + multiset{x} && |r| == |s| + 1
  {
    if s == [] || !less(s[0], x) then [x] + s
    else
      assert s == [s[0]] + s[1..];
      [s[0]] + InsertBy(x, s[1..], less)
  }

  /** The sorted arrangement of a sequence. */
  function Isort<T>(s: seq<T>, less: (T, T) -> bool): (r: seq<T>)
    ensures multiset(r) == multiset(s) && |r| == |s|
  {
    if s == [] then []
    else
      assert s == [s[0]] + s[1..];
      InsertBy(s[0], Isort(s[1..], less), less)
  }

  lemma {:induction false} InsertBySorted<T(!new)>(x: T, s: seq<T>, less: (T, T) -> bool)
    requires StrictOrder(less) && Sorted(s, less, 0, |s|)
    ensures var r := InsertBy(x, s, less); Sorted(r, less, 0, |r|)
  {
    var r := InsertBy(x, s, less);
    if s != [] && less(s[0], x) {
      var tail := InsertBy(x, s[1..], less);
      InsertBySorted(x, s[1..], less);
      forall k | 0 <= k < |tail|
        ensures !less(tail[k], s[0])
      {
        assert tail[k] in multiset(tail);
        assert tail[k] == x || tail[k] in s[1..];
      }
      assert r == [s[0]] + tail;
    } else {
      assert forall k :: 0 < k < |s| ==> !less(s[k], s[0]);
    }
  }

  lemma {:induction false} IsortSorted<T(!new)>(s: seq<T>, less: (T, T) -> bool)
    requires StrictOrder(less)
    ensures Sorted(Isort(s, less), less, 0, |s|)
  {
    hide StrictOrder;
    if s != [] {
      IsortSorted(s[1..], less);
      InsertBySorted(s[0], Isort(s[1..], less), less);
    }
  }

  /** A sorted rearrangement of a range is the sorted arrangement of what was there. */
  lemma SortedIsIsort<T(!new)>(s: seq<T>, t: seq<T>, less: (T, T) -> bool, lo: nat, hi: nat)
    requires StrictOrder(less) && Rearranged(s, t, lo, hi) && Sorted(t, less, lo, hi)
    ensures t[lo..hi] == Isort(s[lo..hi], less)
  {
    hide StrictOrder;
    var u := t[lo..hi];
    assert forall i :: 0 <= i < |u| ==> u[i] == t[lo + i];
    IsortSorted(s[lo..hi], less);
    SortedUnique(u, Isort(s[lo..hi], less), less);
  }
}
