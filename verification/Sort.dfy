/** Sorting of node arrays: insertion sort, three-way quicksort, and removal of duplicates. */
module Sort {
  import opened Common
  import opened Perm

  method Swap<T>(a: array<T>, i: nat, j: nat)
    requires i < a.Length && j < a.Length
    modifies a
    ensures a[..] == Swapped(old(a[..]), i, j)
  {
    a[i], a[j] := a[j], a[i];
  }

  // ---------- Insertion sort ----------

  /** The element at position i moved to position hole, those between shifted up. */
  function Inserted<T>(s: seq<T>, hole: nat, i: nat): (t: seq<T>)
    requires hole <= i < |s|
    ensures |t| == |s|
  {
    s[..hole] + [s[i]] + s[hole..i] + s[i + 1..]
  }

  lemma InsertedAt<T>(s: seq<T>, hole: nat, i: nat)
    requires hole <= i < |s|
    ensures var t := Inserted(s, hole, i);
      t[hole] == s[i] && (forall k {:trigger t[k]} :: hole < k <= i ==> t[k] == s[k - 1]) &&
      (forall k {:trigger t[k]} :: 0 <= k < |s| && (k < hole || i < k) ==> t[k] == s[k])
  {
  }

  lemma IsInserted<T>(s: seq<T>, t: seq<T>, hole: nat, i: nat)
    requires hole <= i < |s| == |t| && t[hole] == s[i]
    requires forall k :: hole < k <= i ==> t[k] == s[k - 1]
    requires forall k :: 0 <= k < |s| && (k < hole || i < k) ==> t[k] == s[k]
    ensures t == Inserted(s, hole, i)
  {
    InsertedAt(s, hole, i);
    assert forall k :: 0 <= k < |s| ==> t[k] == Inserted(s, hole, i)[k];
  }

  lemma InsertedRearranges<T>(s: seq<T>, hole: nat, i: nat, lo: nat)
    requires lo <= hole <= i < |s|
    ensures Rearranged(s, Inserted(s, hole, i), lo, i + 1)
  {
    var t := Inserted(s, hole, i);
    assert s == s[..hole] + s[hole..i] + [s[i]] + s[i + 1..];
    assert multiset(t) == multiset(s);
    assert t[..lo] == s[..lo] && t[i + 1..] == s[i + 1..];
    RearrangedWhole(s, t, lo, i + 1);
  }

  lemma InsertedSorted<T(!new)>(s: seq<T>, less: (T, T) -> bool, lo: nat, hole: nat, i: nat)
    requires StrictOrder(less) && lo <= hole <= i < |s| && Sorted(s, less, lo, i)
    requires hole > lo ==> !less(s[i], s[hole - 1])
    requires forall k :: hole <= k < i ==> less(s[i], s[k])
    ensures Sorted(Inserted(s, hole, i), less, lo, i + 1)
  {
    var t := Inserted(s, hole, i);
    InsertedAt(s, hole, i);
    forall x, y | lo <= x < y < i + 1
      ensures !less(t[y], t[x])
    {
      if y == hole {
        assert t[x] == s[x];
        assert x < hole - 1 ==> !less(s[hole - 1], s[x]);
      } else if x == hole {
        assert t[y] == s[y - 1] && less(s[i], s[y - 1]);
      } else {
        var x0, y0 := if x < hole then x else x - 1, if y < hole then y else y - 1;
        assert t[x] == s[x0] && t[y] == s[y0] && x0 < y0;
      }
    }
  }

  /** The elements of [begin, end) move so that the last of them comes to stand before target. */
  method CopyBackwards<T>(a: array<T>, begin: nat, end: nat, target: nat)
    requires begin <= end < target <= a.Length && target == end + 1
    modifies a
    ensures forall k :: begin < k <= end ==> a[k] == old(a[..])[k - 1]
    ensures forall k :: 0 <= k < a.Length && (k <= begin || end < k) ==> a[k] == old(a[..])[k]
  {
    ghost var s := a[..];
    var e := end;
    while begin != e
      invariant begin <= e <= end
      invariant forall k :: e < k <= end ==> a[k] == s[k - 1]
      invariant forall k :: 0 <= k < a.Length && (k <= e || end < k) ==> a[k] == s[k]
    {
      e := e - 1;
      a[e + 1] := a[e];
    }
  }

  method InsertionSort<T(==, !new)>(a: array<T>, less: (T, T) -> bool, ghost order: (T, T) -> bool, begin: nat,
      end: nat)
    requires StrictOrder(order) && begin < end <= a.Length && Fits(less, order, multiset(a[begin..end]))
    modifies a
    ensures Rearranged(old(a[..]), a[..], begin, end) && Sorted(a[..], order, begin, end)
  {
    hide Rearranged, Inserted, StrictOrder, Fits;
    ghost var s := a[..];
    var it := begin + 1;
    RearrangedRefl(s, begin, end);
    while it != end
      invariant begin < it <= end && Rearranged(s, a[..], begin, end) && Sorted(a[..], order, begin, it)
      decreases end - it
    {
      ghost var t := a[..];
      FitsRearranged(s, t, less, order, begin, end, begin, end);
      assert a[begin..end] == t[begin..end];
      InsertOne(a, less, order, begin, it, end);
      RearrangedWiden(t, a[..], begin, it + 1, begin, end);
      RearrangedTrans(s, t, a[..], begin, end);
      it := it + 1;
    }
  }

  /** The loop that moves the hole has no bound of its own: the first element stops it. */
  method InsertOne<T(==, !new)>(a: array<T>, less: (T, T) -> bool, ghost order: (T, T) -> bool, begin: nat, it: nat,
      ghost end: nat)
    requires StrictOrder(order) && begin < it < end <= a.Length && Sorted(a[..], order, begin, it) &&
        Fits(less, order, multiset(a[begin..end]))
    modifies a
    ensures Rearranged(old(a[..]), a[..], begin, it + 1) && Sorted(a[..], order, begin, it + 1)
  {
    hide StrictOrder, Rearranged, Inserted, Sorted, Fits;
    ghost var s := a[..];
    FitsAt(s, less, order, begin, end, it, begin) by { assert s[begin..end] == a[begin..end]; }
    var val := a[it];
    var hole := begin;
    if less(val, a[begin]) {
      FrontLess(s, order, begin, it);
      CopyBackwards(a, begin, it, it + 1);
    } else {
      hole := MoveHole(a, less, order, begin, it, val, end);
    }
    PutDown(a, s, hole, it, val);
    InsertedRearranges(s, hole, it, begin);
    InsertedSorted(s, order, begin, hole, it);
  }

  method PutDown<T>(a: array<T>, ghost s: seq<T>, hole: nat, ghost it: nat, val: T)
    requires hole <= it < a.Length == |s| && val == s[it]
    requires forall k :: hole < k <= it ==> a[k] == s[k - 1]
    requires forall k :: 0 <= k < a.Length && (k < hole || it < k) ==> a[k] == s[k]
    modifies a
    ensures a[..] == Inserted(s, hole, it)
  {
    a[hole] := val;
    IsInserted(s, a[..], hole, it);
  }

  lemma FrontLess<T(!new)>(s: seq<T>, less: (T, T) -> bool, begin: nat, it: nat)
    requires StrictOrder(less) && begin < it < |s| && Sorted(s, less, begin, it) && less(s[it], s[begin])
    ensures forall k :: begin <= k < it ==> less(s[it], s[k])
  {
    forall k | begin <= k < it
      ensures less(s[it], s[k])
    {
      assert k == begin || !less(s[k], s[begin]);
      assert k == begin || s[k] == s[begin] || less(s[begin], s[k]);
    }
  }

  method MoveHole<T(==, !new)>(a: array<T>, less: (T, T) -> bool, ghost order: (T, T) -> bool, begin: nat, it: nat,
      val: T, ghost end: nat)
    returns (hole: nat)
    requires begin < it < end <= a.Length && val == a[it] && !less(val, a[begin])
    requires StrictOrder(order) && Fits(less, order, multiset(a[begin..end]))
    modifies a
    ensures begin < hole <= it && !order(val, old(a[..])[hole - 1]) &&
      forall k :: hole <= k < it ==> order(val, old(a[..])[k])
    ensures forall k :: hole < k <= it ==> a[k] == old(a[..])[k - 1]
    ensures forall k :: 0 <= k < a.Length && (k < hole || it < k) ==> a[k] == old(a[..])[k]
  {
    hide StrictOrder, Fits;
    ghost var s := a[..];
    assert s[begin..end] == a[begin..end];
    forall k: nat | begin <= k < it
      ensures less(val, s[k]) <==> order(val, s[k])
    {
      FitsAt(s, less, order, begin, end, it, k);
    }
    hole := it;
    while less(val, a[hole - 1])
      invariant begin < hole <= it && forall k :: hole <= k < it ==> order(val, s[k])
      invariant forall k :: hole < k <= it ==> a[k] == s[k - 1]
      invariant forall k :: 0 <= k < a.Length && (k <= hole || it < k) ==> a[k] == s[k]
      decreases hole
    {
      a[hole] := a[hole - 1];
      hole := hole - 1;
    }
  }

  // ---------- Partition ----------

  /** Unseen, less than v, equal to v, greater than v, unseen; there is always something equal. */
  ghost predicate Regions<T>(s: seq<T>, less: (T, T) -> bool, v: T, begin: nat, ltend: nat, eqbeg: nat, eqend: nat,
      gtbeg: nat, end: nat) {
    begin <= ltend <= eqbeg < eqend <= gtbeg <= end <= |s| &&
    (forall k :: ltend <= k < eqbeg ==> less(s[k], v)) && (forall k :: eqbeg <= k < eqend ==> s[k] == v) &&
    (forall k :: eqend <= k < gtbeg ==> less(v, s[k]))
  }

  method SwapWithin<T>(a: array<T>, i: nat, j: nat, begin: nat, end: nat, ghost s: seq<T>)
    requires begin <= i < end <= a.Length && begin <= j < end && Rearranged(s, a[..], begin, end)
    modifies a
    ensures a[..] == Swapped(old(a[..]), i, j) && Rearranged(s, a[..], begin, end)
  {
    hide Rearranged;
    ghost var t := a[..];
    Swap(a, i, j);
    SwapRearranges(t, i, j, begin, end);
    RearrangedTrans(s, t, a[..], begin, end);
  }

  /** The elements equal to the middle one that are next to it. */
  method ExpandEqual<T(==)>(a: array<T>, begin: nat, middle: nat, end: nat) returns (eqbeg: nat, eqend: nat)
    requires begin <= middle < end <= a.Length
    ensures begin <= eqbeg <= middle < eqend <= end && forall k :: eqbeg <= k < eqend ==> a[k] == a[middle]
  {
    eqbeg, eqend := middle, middle + 1;
    while eqbeg != begin && a[eqbeg - 1] == a[eqbeg]
      invariant begin <= eqbeg <= middle && forall k :: eqbeg <= k <= middle ==> a[k] == a[middle]
    {
      eqbeg := eqbeg - 1;
    }
    while eqend != end && a[eqend] == a[eqbeg]
      invariant middle < eqend <= end && forall k :: eqbeg <= k < eqend ==> a[k] == a[middle]
      decreases end - eqend
    {
      eqend := eqend + 1;
    }
  }

  /** Look on the right for an element that belongs to the left. */
  method ScanRight<T(==, !new)>(a: array<T>, less: (T, T) -> bool, ghost order: (T, T) -> bool, begin: nat,
      ltend: nat, eqbeg: nat, eqend: nat, gtbeg: nat, end: nat,
                                ghost v: T, ghost s: seq<T>) returns (eqend': nat, gtbeg': nat)
    requires StrictOrder(order) && begin <= end <= a.Length == |s| && Rearranged(s, a[..], begin, end) &&
        Fits(less, order, multiset(s[begin..end]))
    requires Regions(a[..], order, v, begin, ltend, eqbeg, eqend, gtbeg, end)
    modifies a
    ensures Rearranged(s, a[..], begin, end) && Regions(a[..], order, v, begin, ltend, eqbeg, eqend', gtbeg', end) &&
        gtbeg <= gtbeg'
    ensures gtbeg' < end ==> order(a[gtbeg'], v)
    ensures forall k :: begin <= k < ltend ==> a[k] == old(a[k])
  {
    hide Rearranged, Fits;
    eqend', gtbeg' := eqend, gtbeg;
    while gtbeg' != end
      invariant Rearranged(s, a[..], begin, end) &&
          Regions(a[..], order, v, begin, ltend, eqbeg, eqend', gtbeg', end) && gtbeg <= gtbeg'
      invariant forall k :: begin <= k < ltend ==> a[k] == old(a[k])
      decreases end - gtbeg'
    {
      FitsNow(s, a[..], less, order, begin, end, eqbeg, gtbeg');
      if !less(a[eqbeg], a[gtbeg']) {
        if a[gtbeg'] == a[eqbeg] {
          SwapWithin(a, gtbeg', eqend', begin, end, s);
          eqend' := eqend' + 1;
        } else {
          break;
        }
      }
      gtbeg' := gtbeg' + 1;
    }
  }

  /** Look on the left for an element that belongs to the right. */
  method ScanLeft<T(==, !new)>(a: array<T>, less: (T, T) -> bool, ghost order: (T, T) -> bool, begin: nat,
      ltend: nat, eqbeg: nat, eqend: nat, gtbeg: nat, end: nat,
                               ghost v: T, ghost s: seq<T>) returns (ltend': nat, eqbeg': nat)
    requires StrictOrder(order) && begin <= end <= a.Length == |s| && Rearranged(s, a[..], begin, end) &&
        Fits(less, order, multiset(s[begin..end]))
    requires Regions(a[..], order, v, begin, ltend, eqbeg, eqend, gtbeg, end)
    modifies a
    ensures Rearranged(s, a[..], begin, end) && Regions(a[..], order, v, begin, ltend', eqbeg', eqend, gtbeg, end) &&
        ltend' <= ltend
    ensures begin < ltend' ==> order(v, a[ltend' - 1])
    ensures forall k :: gtbeg <= k < end ==> a[k] == old(a[k])
  {
    hide Rearranged, Fits;
    ltend', eqbeg' := ltend, eqbeg;
    while ltend' != begin
      invariant Rearranged(s, a[..], begin, end) &&
          Regions(a[..], order, v, begin, ltend', eqbeg', eqend, gtbeg, end) && ltend' <= ltend
      invariant forall k :: gtbeg <= k < end ==> a[k] == old(a[k])
      decreases ltend'
    {
      FitsNow(s, a[..], less, order, begin, end, ltend' - 1, eqbeg');
      if !less(a[ltend' - 1], a[eqbeg']) {
        if a[eqbeg'] == a[ltend' - 1] {
          eqbeg' := eqbeg' - 1;
          SwapWithin(a, ltend' - 1, eqbeg', begin, end, s);
        } else {
          break;
        }
      }
      ltend' := ltend' - 1;
    }
  }

  /** The equal elements move one to the left, around a greater element found on the left. */
  method ShiftLeft<T(!new)>(a: array<T>, ghost order: (T, T) -> bool, begin: nat, ltend: nat, eqbeg: nat, eqend: nat,
      end: nat, ghost v: T, ghost s: seq<T>)
    requires end <= a.Length && Rearranged(s, a[..], begin, end) &&
        Regions(a[..], order, v, begin, ltend, eqbeg, eqend, end, end)
    requires begin < ltend && order(v, a[ltend - 1])
    modifies a
    ensures Rearranged(s, a[..], begin, end) &&
        Regions(a[..], order, v, begin, ltend - 1, eqbeg - 1, eqend - 1, end, end)
  {
    hide Rearranged;
    if ltend - 1 != eqbeg - 1 {
      SwapWithin(a, ltend - 1, eqbeg - 1, begin, end, s);
    }
    SwapWithin(a, eqbeg - 1, eqend - 1, begin, end, s);
  }

  /** The equal elements move one to the right, around a smaller element found on the right. */
  method ShiftRight<T(!new)>(a: array<T>, ghost order: (T, T) -> bool, begin: nat, eqbeg: nat, eqend: nat,
      gtbeg: nat, end: nat, ghost v: T, ghost s: seq<T>)
    requires end <= a.Length && Rearranged(s, a[..], begin, end) &&
        Regions(a[..], order, v, begin, begin, eqbeg, eqend, gtbeg, end)
    requires gtbeg < end && order(a[gtbeg], v)
    modifies a
    ensures Rearranged(s, a[..], begin, end) &&
        Regions(a[..], order, v, begin, begin, eqbeg + 1, eqend + 1, gtbeg + 1, end)
  {
    hide Rearranged;
    if eqend != gtbeg {
      SwapWithin(a, eqbeg, eqend, begin, end, s);
    }
    SwapWithin(a, gtbeg, eqbeg, begin, end, s);
  }

  /** Three parts: less than some value, equal to it, and greater; the middle part is never empty. */
  ghost predicate Partitioned<T(!new)>(s: seq<T>, less: (T, T) -> bool, begin: nat, eqbeg: nat, eqend: nat, end: nat) {
    exists v :: Regions(s, less, v, begin, begin, eqbeg, eqend, end, end)
  }

  method Partition<T(==, !new)>(a: array<T>, less: (T, T) -> bool, ghost order: (T, T) -> bool, begin: nat,
      middle: nat, end: nat) returns (eqbeg: nat, eqend: nat)
    requires StrictOrder(order) && begin <= middle < end <= a.Length && Fits(less, order, multiset(a[begin..end]))
    modifies a
    ensures Rearranged(old(a[..]), a[..], begin, end) && Partitioned(a[..], order, begin, eqbeg, eqend, end)
  {
    hide StrictOrder, Rearranged, Fits;
    ghost var s, v := a[..], a[middle];
    assert s[begin..end] == a[begin..end];
    RearrangedRefl(s, begin, end);
    eqbeg, eqend := ExpandEqual(a, begin, middle, end);
    var ltend: nat, gtbeg: nat := eqbeg, eqend;
    while true
      invariant Rearranged(s, a[..], begin, end) && Regions(a[..], order, v, begin, ltend, eqbeg, eqend, gtbeg, end)
      decreases ltend - begin + end - gtbeg
    {
      eqend, gtbeg := ScanRight(a, less, order, begin, ltend, eqbeg, eqend, gtbeg, end, v, s);
      ltend, eqbeg := ScanLeft(a, less, order, begin, ltend, eqbeg, eqend, gtbeg, end, v, s);
      if gtbeg == end && ltend == begin {
        return;
      }
      ltend, eqbeg, eqend, gtbeg := Exchange(a, order, begin, ltend, eqbeg, eqend, gtbeg, end, v, s);
    }
  }

  /** Both scans have stopped: the misplaced element moves, or the two of them change places. */
  method Exchange<T(!new)>(a: array<T>, ghost order: (T, T) -> bool, begin: nat, ltend: nat, eqbeg: nat, eqend: nat,
      gtbeg: nat, end: nat, ghost v: T, ghost s: seq<T>)
    returns (ltend': nat, eqbeg': nat, eqend': nat, gtbeg': nat)
    requires StrictOrder(order) && Regions(a[..], order, v, begin, ltend, eqbeg, eqend, gtbeg, end)
    requires |s| == a.Length && Rearranged(s, a[..], begin, end) && !(gtbeg == end && ltend == begin)
    requires gtbeg < end ==> order(a[gtbeg], v)
    requires begin < ltend ==> order(v, a[ltend - 1])
    modifies a
    ensures Rearranged(s, a[..], begin, end) && Regions(a[..], order, v, begin, ltend', eqbeg', eqend', gtbeg', end)
    ensures ltend' - begin + end - gtbeg' < ltend - begin + end - gtbeg
  {
    hide StrictOrder, Rearranged;
    ltend', eqbeg', eqend', gtbeg' := ltend, eqbeg, eqend, gtbeg;
    if gtbeg == end {
      ShiftLeft(a, order, begin, ltend, eqbeg, eqend, end, v, s);
      ltend', eqbeg', eqend' := ltend - 1, eqbeg - 1, eqend - 1;
    } else if ltend == begin {
      ShiftRight(a, order, begin, eqbeg, eqend, gtbeg, end, v, s);
      eqbeg', eqend', gtbeg' := eqbeg + 1, eqend + 1, gtbeg + 1;
    } else {
      SwapWithin(a, gtbeg, ltend - 1, begin, end, s);
      gtbeg', ltend' := gtbeg + 1, ltend - 1;
    }
  }

  // ---------- Pivot ----------

  /** Three elements in order; the rest of the array does not change. */
  method Median3<T(==, !new)>(a: array<T>, less: (T, T) -> bool, ghost order: (T, T) -> bool, first: nat,
      middle: nat, last: nat, begin: nat, end: nat, ghost s: seq<T>)
    requires StrictOrder(order) && begin <= first < middle < last < end <= a.Length == |s| &&
        Rearranged(s, a[..], begin, end)
    requires Fits(less, order, multiset(s[begin..end]))
    modifies a
    ensures Rearranged(s, a[..], begin, end) && !order(a[middle], a[first]) && !order(a[last], a[middle])
  {
    hide Rearranged, Fits;
    FitsNow(s, a[..], less, order, begin, end, middle, first);
    if less(a[middle], a[first]) {
      SwapWithin(a, middle, first, begin, end, s);
    }
    FitsNow(s, a[..], less, order, begin, end, last, middle);
    if less(a[last], a[middle]) {
      SwapWithin(a, last, middle, begin, end, s);
    }
    FitsNow(s, a[..], less, order, begin, end, middle, first);
    if less(a[middle], a[first]) {
      SwapWithin(a, middle, first, begin, end, s);
    }
  }

  /** The median of three, or of nine, comes to stand in the middle. */
  method Median<T(==, !new)>(a: array<T>, less: (T, T) -> bool, ghost order: (T, T) -> bool, first: nat, middle: nat,
      last: nat)
    requires StrictOrder(order) && last - first >= 32 && middle == first + (last + 1 - first) / 2 && last < a.Length
    requires Fits(less, order, multiset(a[first..last + 1]))
    modifies a
    ensures Rearranged(old(a[..]), a[..], first, last + 1)
    ensures exists i, j :: first <= i < middle < j <= last && !order(a[middle], a[i]) && !order(a[j], a[middle])
  {
    hide StrictOrder, Rearranged, Fits;
    ghost var s := a[..];
    assert s[first..last + 1] == a[first..last + 1];
    var end := last + 1;
    RearrangedRefl(s, first, end);
    if last - first <= 40 {
      Median3(a, less, order, first, middle, last, first, end, s);
    } else {
      var step := (last - first + 1) / 8;
      Median3(a, less, order, first, first + step, first + 2 * step, first, end, s);
      Median3(a, less, order, middle - step, middle, middle + step, first, end, s);
      Median3(a, less, order, last - 2 * step, last - step, last, first, end, s);
      Median3(a, less, order, first + step, middle, last - step, first, end, s);
    }
  }

  // ---------- Sort ----------

  function Pow2(n: nat): (r: nat)
    ensures r > 0
  {
    if n == 0 then 1 else 2 * Pow2(n - 1)
  }

  /** Calls nest no deeper than this allows: 32 * 2^(depth - 1) < size. */
  predicate Shallow(depth: nat, size: int) {
    depth == 0 || 32 * Pow2(depth - 1) < size
  }

  lemma ShallowStep(depth: nat, size: nat, whole: nat)
    requires Shallow(depth, size) && 2 * size < whole && whole > 32
    ensures Shallow(depth + 1, whole)
  {
  }

  /** With every chunk over 32 elements the nesting is at most the binary logarithm of the size. */
  lemma ShallowLog(depth: nat, size: nat)
    requires Shallow(depth, size) && size > 0
    ensures Pow2(depth) <= size
  {
  }

  /** The parts left and right of the equal elements are what remains to be sorted. */
  lemma PartsRemain<T(!new)>(s: seq<T>, less: (T, T) -> bool, lo: nat, begin: nat, eqbeg: nat, eqend: nat, end: nat,
      hi: nat)
    requires StrictOrder(less) && Margins(s, less, lo, begin, end, hi) && Partitioned(s, less, begin, eqbeg, eqend, end)
    ensures begin <= eqbeg < eqend <= end
    ensures Sorted(s, less, begin, eqbeg) ==> Margins(s, less, lo, eqend, end, hi)
    ensures Sorted(s, less, eqend, end) ==> Margins(s, less, lo, begin, eqbeg, hi)
  {
    var v :| Regions(s, less, v, begin, begin, eqbeg, eqend, end, end);
    Ordered(s, less, v, begin, eqbeg, eqend, end);
    if Sorted(s, less, begin, eqbeg) {
      LeftDone(s, less, lo, begin, eqbeg, eqend, end, hi);
    }
    if Sorted(s, less, eqend, end) {
      RightDone(s, less, lo, begin, eqbeg, eqend, end, hi);
    }
  }

  /** Across the parts, order; within the equal part, equality. */
  ghost predicate Parts<T>(s: seq<T>, less: (T, T) -> bool, begin: nat, eqbeg: nat, eqend: nat, end: nat) {
    begin <= eqbeg < eqend <= end <= |s| && Below(s, less, begin, eqbeg, end) && Below(s, less, begin, eqend, end) &&
        Sorted(s, less, eqbeg, eqend)
  }

  lemma Ordered<T(!new)>(s: seq<T>, less: (T, T) -> bool, v: T, begin: nat, eqbeg: nat, eqend: nat, end: nat)
    requires StrictOrder(less) && Regions(s, less, v, begin, begin, eqbeg, eqend, end, end)
    ensures Parts(s, less, begin, eqbeg, eqend, end)
  {
  }

  lemma LeftDone<T(!new)>(s: seq<T>, less: (T, T) -> bool, lo: nat, begin: nat, eqbeg: nat, eqend: nat, end: nat,
      hi: nat)
    requires Margins(s, less, lo, begin, end, hi) && Parts(s, less, begin, eqbeg, eqend, end) &&
        Sorted(s, less, begin, eqbeg)
    ensures Margins(s, less, lo, eqend, end, hi)
  {
  }

  lemma RightDone<T(!new)>(s: seq<T>, less: (T, T) -> bool, lo: nat, begin: nat, eqbeg: nat, eqend: nat, end: nat,
      hi: nat)
    requires Margins(s, less, lo, begin, end, hi) && Parts(s, less, begin, eqbeg, eqend, end) &&
        Sorted(s, less, eqend, end)
    ensures Margins(s, less, lo, begin, eqbeg, hi)
  {
  }

  /** Sorts [begin, end) and says how deep the recursive calls nested. */
  method Sort<T(==, !new)>(a: array<T>, less: (T, T) -> bool, ghost order: (T, T) -> bool, begin: nat,
      end: nat) returns (ghost depth: nat)
    requires StrictOrder(order) && begin <= end <= a.Length && Fits(less, order, multiset(a[begin..end]))
    modifies a
    ensures Rearranged(old(a[..]), a[..], begin, end) && Sorted(a[..], order, begin, end)
    ensures Shallow(depth, end - begin)
    decreases end - begin
  {
    hide StrictOrder, Rearranged, Partitioned, Sorted, Below, Margins, Fits;
    ghost var s := a[..];
    assert s[begin..end] == a[begin..end];
    var b: nat, e: nat := begin, end;
    depth := 0;
    RearrangedRefl(s, begin, end);
    NoMargins(s, order, begin, end);
    while e - b > 32
      invariant begin <= b <= e <= end && Rearranged(s, a[..], begin, end) && Margins(a[..], order, begin, b, e, end)
      invariant Shallow(depth, end - begin)
    {
      ghost var inner;
      b, e, inner := SortSmaller(a, less, order, begin, b, e, end, s);
      depth := if inner + 1 > depth then inner + 1 else depth;
    }
    if b != e {
      ghost var t := a[..];
      FitsRearranged(s, t, less, order, begin, end, b, e);
      assert t[b..e] == a[b..e];
      InsertionSort(a, less, order, b, e);
      MarginsKept(t, a[..], order, begin, b, e, end);
      RearrangedWiden(t, a[..], b, e, begin, end);
      RearrangedTrans(s, t, a[..], begin, end);
    } else {
      EmptySorted(a[..], order, b);
    }
    MarginsClosed(a[..], order, begin, b, e, end);
  }

  lemma NoMargins<T>(s: seq<T>, less: (T, T) -> bool, lo: nat, hi: nat)
    requires lo <= hi <= |s|
    ensures Margins(s, less, lo, lo, hi, hi)
  {
  }

  lemma EmptySorted<T>(s: seq<T>, less: (T, T) -> bool, b: nat)
    requires b <= |s|
    ensures Sorted(s, less, b, b)
  {
  }

  /** One round: partition, sort the smaller side, keep the larger. */
  method SortSmaller<T(==, !new)>(a: array<T>, less: (T, T) -> bool, ghost order: (T, T) -> bool, lo: nat,
      begin: nat, end: nat, hi: nat, ghost s: seq<T>)
    returns (begin': nat, end': nat, ghost inner: nat)
    requires StrictOrder(order) && lo <= begin && end <= hi <= a.Length && end - begin > 32
    requires Rearranged(s, a[..], lo, hi) && Margins(a[..], order, lo, begin, end, hi)
    requires |s| == a.Length && Fits(less, order, multiset(s[lo..hi]))
    modifies a
    ensures begin <= begin' <= end' <= end && end' - begin' < end - begin
    ensures Rearranged(s, a[..], lo, hi) && Margins(a[..], order, lo, begin', end', hi)
    ensures Shallow(inner + 1, end - begin)
    decreases end - begin, 0
  {
    hide StrictOrder, Rearranged, Partitioned, Sorted, Below, Margins, Fits;
    ghost var t := a[..];
    FitsRearranged(s, t, less, order, lo, hi, begin, end);
    assert t[begin..end] == a[begin..end];
    var middle := begin + (end - begin) / 2;
    Median(a, less, order, begin, middle, end - 1);
    ghost var u := a[..];
    FitsRearranged(t, u, less, order, begin, end, begin, end);
    assert u[begin..end] == a[begin..end];
    var eqbeg, eqend := Partition(a, less, order, begin, middle, end);
    RearrangedTrans(t, u, a[..], begin, end);
    MarginsKept(t, a[..], order, lo, begin, end, hi);
    RearrangedWiden(t, a[..], begin, end, lo, hi);
    RearrangedTrans(s, t, a[..], lo, hi);
    PartsRemain(a[..], order, lo, begin, eqbeg, eqend, end, hi);
    u := a[..];
    begin', end' := begin, end;
    FitsRearranged(s, u, less, order, lo, hi, eqend, end);
    FitsRearranged(s, u, less, order, lo, hi, begin, eqbeg);
    assert u[eqend..end] == a[eqend..end] && u[begin..eqbeg] == a[begin..eqbeg];
    if eqbeg - begin > end - eqend {
      inner := Sort(a, less, order, eqend, end);
      AfterPart(s, u, a[..], order, lo, begin, eqbeg, eqend, end, hi, eqend, end);
      end' := eqbeg;
      ShallowStep(inner, end - eqend, end - begin);
    } else {
      inner := Sort(a, less, order, begin, eqbeg);
      AfterPart(s, u, a[..], order, lo, begin, eqbeg, eqend, end, hi, begin, eqbeg);
      begin' := eqend;
      ShallowStep(inner, eqbeg - begin, end - begin);
    }
  }

  /** Sorting one part of a partition keeps the partition. */
  lemma AfterPart<T(!new)>(s: seq<T>, u: seq<T>, t: seq<T>, less: (T, T) -> bool, lo: nat, begin: nat, eqbeg: nat,
      eqend: nat, end: nat, hi: nat,
                           b: nat, e: nat)
    requires StrictOrder(less) && Rearranged(s, u, lo, hi) && Rearranged(u, t, b, e) && Sorted(t, less, b, e)
    requires Margins(u, less, lo, begin, end, hi) && Partitioned(u, less, begin, eqbeg, eqend, end)
    requires lo <= begin <= eqbeg < eqend <= end <= hi && ((b == begin && e == eqbeg) || (b == eqend && e == end))
    ensures Rearranged(s, t, lo, hi)
    ensures b == begin && e == eqbeg ==> Margins(t, less, lo, eqend, end, hi)
    ensures b == eqend && e == end ==> Margins(t, less, lo, begin, eqbeg, hi)
  {
    hide Rearranged, StrictOrder, Partitioned, Margins, Sorted;
    Lengths(s, u, lo, hi);
    RearrangedWiden(u, t, b, e, lo, hi);
    RearrangedTrans(s, u, t, lo, hi);
    RearrangedWiden(u, t, b, e, begin, end);
    MarginsKept(u, t, less, lo, begin, end, hi);
    PartitionKept(u, t, less, begin, eqbeg, eqend, end, b, e);
    PartsRemain(t, less, lo, begin, eqbeg, eqend, end, hi);
  }

  lemma PartitionKept<T(!new)>(u: seq<T>, t: seq<T>, less: (T, T) -> bool, begin: nat, eqbeg: nat, eqend: nat,
      end: nat, b: nat, e: nat)
    requires Rearranged(u, t, b, e) && Partitioned(u, less, begin, eqbeg, eqend, end)
    requires (b == begin && e == eqbeg) || (b == eqend && e == end)
    ensures Partitioned(t, less, begin, eqbeg, eqend, end)
  {
    hide Rearranged;
    Lengths(u, t, b, e);
    var v :| Regions(u, less, v, begin, begin, eqbeg, eqend, end, end);
    forall k | begin <= k < end
      ensures if k < eqbeg then less(t[k], v) else if k < eqend then t[k] == v else less(v, t[k])
    {
      if b <= k < e {
        var j := Origin(u, t, b, e, k);
      } else {
        Outside(u, t, b, e, k);
      }
    }
    assert Regions(t, less, v, begin, begin, eqbeg, eqend, end, end);
  }

  // ---------- Reverse ----------

  /** The elements of a range in the opposite order. */
  method Reverse<T>(a: array<T>, begin: nat, end: nat)
    requires begin <= end <= a.Length
    modifies a
    ensures forall k :: begin <= k < end ==> a[k] == old(a[..])[begin + end - 1 - k]
    ensures forall k :: 0 <= k < a.Length && (k < begin || end <= k) ==> a[k] == old(a[..])[k]
  {
    ghost var s := a[..];
    var b, e := begin, end;
    while b + 1 < e
      invariant begin <= b && e <= end && b + e == begin + end && b <= e + 1
      invariant forall k :: (begin <= k < b || e <= k < end) ==> a[k] == s[begin + end - 1 - k]
      invariant forall k :: b <= k < e ==> a[k] == s[k]
      invariant forall k :: 0 <= k < a.Length && (k < begin || end <= k) ==> a[k] == s[k]
    {
      e := e - 1;
      Swap(a, b, e);
      b := b + 1;
    }
  }

  // ---------- Unique ----------

  /** Of each group of equal neighbours the first. */
  function Dedup<T(==)>(s: seq<T>): (r: seq<T>)
    ensures |r| <= |s| && (s != [] ==> r != [])
    decreases |s|
  {
    if |s| <= 1 then s
    else
      var front, last := Dedup(s[..|s| - 1]), s[|s| - 1];
      if last == s[|s| - 2] then front else front + [last]
  }

  /** Equal elements stand together. */
  predicate Grouped<T(==)>(s: seq<T>) {
    forall i, j, k :: 0 <= i < j < k < |s| && s[i] == s[k] ==> s[i] == s[j]
  }

  lemma {:induction false} DedupElements<T>(s: seq<T>)
    ensures forall x :: x in Dedup(s) <==> x in s
    ensures s != [] ==> Dedup(s)[|Dedup(s)| - 1] == s[|s| - 1]
    decreases |s|
  {
    if |s| > 1 {
      var front := s[..|s| - 1];
      DedupElements(front);
      assert s == front + [s[|s| - 1]];
      assert s[|s| - 2] in front;
    }
  }

  /** Removing equal neighbours leaves no repeats exactly when equal elements stand together. */
  lemma {:induction false} DedupNoRepeats<T>(s: seq<T>)
    ensures NoRepeats(Dedup(s)) <==> Grouped(s)
    decreases |s|
  {
    if |s| > 1 {
      var n := |s| - 1;
      var front := s[..n];
      DedupNoRepeats(front);
      DedupElements(front);
      GroupedSnoc(s);
      var r, last := Dedup(front), s[n];
      if last != s[n - 1] {
        assert NoRepeats(r + [last]) <==> NoRepeats(r) && last !in r by { NoRepeatsSnoc(r, last); }
      }
    }
  }

  lemma NoRepeatsSnoc<T>(r: seq<T>, x: T)
    ensures NoRepeats(r + [x]) <==> NoRepeats(r) && x !in r
  {
    var t := r + [x];
    if NoRepeats(t) {
      assert forall i :: 0 <= i < |r| ==> t[i] == r[i] && t[i] != t[|r|];
    }
  }

  lemma GroupedSnoc<T>(s: seq<T>)
    requires |s| > 1
    ensures var n := |s| - 1; Grouped(s) <==> Grouped(s[..n]) && (s[n] in s[..n] ==> s[n] == s[n - 1])
  {
    var n := |s| - 1;
    if Grouped(s) && s[n] in s[..n] {
      var i :| 0 <= i < n && s[i] == s[n];
      assert i < n - 1 ==> s[i] == s[n - 1];
    }
    if Grouped(s[..n]) && (s[n] in s[..n] ==> s[n] == s[n - 1]) {
      forall i, j, k | 0 <= i < j < k < |s| && s[i] == s[k]
        ensures s[i] == s[j]
      {
        if k == n {
          assert s[..n][i] == s[n];
          assert s[..n][i] == s[..n][n - 1];
          assert j < n - 1 ==> s[..n][i] == s[..n][j];
        } else {
          assert s[..n][i] == s[..n][k];
        }
      }
    }
  }

  lemma SortedGrouped<T(!new)>(s: seq<T>, less: (T, T) -> bool)
    requires StrictOrder(less) && Sorted(s, less, 0, |s|)
    ensures Grouped(s)
  {
  }

  lemma DedupSnoc<T>(s: seq<T>, begin: nat, b: nat)
    requires begin < b < |s|
    ensures Dedup(s[begin..b + 1]) == if s[b] == s[b - 1] then Dedup(s[begin..b]) else Dedup(s[begin..b]) + [s[b]]
  {
    var u := s[begin..b + 1];
    assert u[..|u| - 1] == s[begin..b];
    assert u[|u| - 1] == s[b] && u[|u| - 2] == s[b - 1];
  }

  lemma DedupLast<T>(s: seq<T>, begin: nat, b: nat)
    requires begin < b <= |s|
    ensures var r := Dedup(s[begin..b]); r != [] && r[|r| - 1] == s[b - 1]
  {
    DedupElements(s[begin..b]);
  }

  lemma DedupOne<T>(x: T)
    ensures Dedup([x]) == [x]
  {
  }

  /** The head that has no equal neighbours is left where it is. */
  method SkipHead<T(==)>(a: array<T>, begin: nat, end: nat) returns (b: nat)
    requires begin < end <= a.Length
    ensures begin <= b < end && Dedup(a[..][begin..b + 1]) == a[..][begin..b + 1]
    ensures b + 1 < end ==> a[b] == a[b + 1]
  {
    hide Dedup;
    b := begin;
    ghost var s := a[..];
    DedupOne(s[begin]);
    assert s[begin..begin + 1] == [s[begin]];
    while b + 1 < end && a[b] != a[b + 1]
      invariant begin <= b < end && Dedup(s[begin..b + 1]) == s[begin..b + 1]
      decreases end - b
    {
      DedupSnoc(s, begin, b + 1);
      assert s[begin..b + 2] == s[begin..b + 1] + [s[b + 1]];
      b := b + 1;
    }
  }

  method Unique<T(==)>(a: array<T>, begin: nat, end: nat) returns (end': nat)
    requires begin <= end <= a.Length
    modifies a
    ensures begin <= end' <= end && a[begin..end'] == Dedup(old(a[begin..end]))
    ensures forall k :: 0 <= k < a.Length && (k < begin || end <= k) ==> a[k] == old(a[k])
  {
    if begin == end {
      return begin;
    }
    end' := SkipHead(a, begin, end);
    end' := Merge(a, begin, end', end);
  }

  lemma LastKept<T>(s: seq<T>, t: seq<T>, begin: nat, write: nat, b: nat)
    requires begin <= write < b <= |s| == |t| && t[begin..write + 1] == Dedup(s[begin..b])
    ensures t[write] == s[b - 1]
  {
    hide Dedup;
    DedupLast(s, begin, b);
    assert t[begin..write + 1][write - begin] == t[write];
  }

  method MoveDown<T>(a: array<T>, ghost begin: nat, write: nat, b: nat)
    requires begin <= write <= b < a.Length
    modifies a
    ensures a[..][begin..write + 1] == old(a[..])[begin..write] + [old(a[b])]
    ensures forall k :: 0 <= k < a.Length && k != write ==> a[k] == old(a[k])
  {
    a[write] := a[b];
  }

  /** Elements that differ from the last one written move down behind it. */
  method Merge<T(==)>(a: array<T>, begin: nat, head: nat, end: nat) returns (end': nat)
    requires begin <= head < end <= a.Length && Dedup(a[..][begin..head + 1]) == a[..][begin..head + 1]
    modifies a
    ensures begin <= end' <= end && a[..][begin..end'] == Dedup(old(a[..])[begin..end])
    ensures forall k :: 0 <= k < a.Length && (k < begin || end <= k) ==> a[k] == old(a[k])
  {
    hide Dedup, Grouped;
    ghost var s := a[..];
    var write := head;
    var b := head + 1;
    while b != end
      invariant begin <= write < b <= end && a[..][begin..write + 1] == Dedup(s[begin..b])
      invariant forall k :: 0 <= k < a.Length && (k < begin || b <= k) ==> a[k] == s[k]
    {
      DedupSnoc(s, begin, b);
      LastKept(s, a[..], begin, write, b);
      if a[b] != a[write] {
        write := write + 1;
        MoveDown(a, begin, write, b);
      }
      b := b + 1;
    }
    end' := write + 1;
  }

  /** An unsorted set is sorted first; a set that claims to be sorted is only merged. */
  method RemoveDuplicates<T(==, !new)>(a: array<T>, less: (T, T) -> bool, begin: nat, end: nat,
      unsorted: bool) returns (end': nat)
    requires StrictOrder(less) && begin <= end <= a.Length
    modifies a
    ensures begin <= end' <= end && forall x :: x in a[begin..end'] <==> x in old(a[begin..end])
    ensures NoRepeats(a[begin..end']) <==> unsorted || Grouped(old(a[begin..end]))
    ensures a[begin..end'] == Dedup(if unsorted then Isort(old(a[begin..end]), less) else old(a[begin..end]))
  {
    hide StrictOrder, Dedup, NoRepeats, Grouped;
    ghost var s := a[begin..end];
    if unsorted {
      FitsSelf(less, multiset(a[begin..end]));
      ghost var before := a[..];
      assert before[begin..end] == s;
      ghost var depth := Sort(a, less, less, begin, end);
      SortedIsIsort(before, a[..], less, begin, end);
      SortedRangeGrouped(a[..], less, begin, end);
    }
    ghost var t := a[begin..end];
    assert multiset(t) == multiset(s);
    assert forall x :: x in t <==> x in multiset(t);
    assert forall x :: x in s <==> x in multiset(s);
    end' := Unique(a, begin, end);
    DedupElements(t);
    DedupNoRepeats(t);
  }

  lemma SortedRangeGrouped<T(!new)>(s: seq<T>, less: (T, T) -> bool, begin: nat, end: nat)
    requires StrictOrder(less) && begin <= end <= |s| && Sorted(s, less, begin, end)
    ensures Grouped(s[begin..end])
  {
    hide StrictOrder;
    var t := s[begin..end];
    assert Sorted(t, less, 0, |t|) by {
      assert forall i :: 0 <= i < |t| ==> t[i] == s[begin + i];
    }
    SortedGrouped(t, less);
  }
}
