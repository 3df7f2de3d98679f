/**
 * In-place conversion of text in a zero-terminated buffer. Text that shrinks leaves a gap behind the
 * read position; the gap travels with it and is closed at the end.
 */
module StrConv {
  import opened Chars
  import opened Utf
  import opened Refs

  /** A position in the buffer, or the null pointer a failed scan returns. */
  datatype Pointer = Null | At(index: nat)

  function Shifted(a: seq<byte>, dst: nat, src: nat, n: nat): (r: seq<byte>)
    requires dst <= src && src + n <= |a|
    ensures |r| == |a|
  {
    a[..dst] + a[src..src + n] + a[dst + n..]
  }

  /** b is a with at most the bytes of [lo, hi) changed. */
  predicate Within(a: seq<byte>, b: seq<byte>, lo: nat, hi: nat) {
    |b| == |a| && forall i :: 0 <= i < |a| && !(lo <= i < hi) ==> b[i] == a[i]
  }

  /** Move a[src..src + n] down to dst. */
  method Memmove(a: array<byte>, dst: nat, src: nat, n: nat)
    requires dst <= src && src + n <= a.Length
    modifies a
    ensures a[..] == Shifted(old(a[..]), dst, src, n)
  {
    ghost var was, d := a[..], src - dst;
    var k := 0;
    while k < n
      invariant k <= n
      invariant forall i :: 0 <= i < dst ==> a[i] == was[i]
      invariant forall i {:trigger a[i]} :: dst <= i < dst + k ==> a[i] == was[i + d]
      invariant forall i :: dst + k <= i < a.Length ==> a[i] == was[i]
    {
      assert a[src + k] == was[src + k];
      a[dst + k] := a[src + k];
      k := k + 1;
    }
    ShiftedParts(was, a[..], dst, src, n);
  }

  lemma ShiftedParts(was: seq<byte>, now: seq<byte>, dst: nat, src: nat, n: nat)
    requires dst <= src && src + n <= |was| == |now|
    requires forall i :: 0 <= i < dst ==> now[i] == was[i]
    requires forall i {:trigger now[i]} :: dst <= i < dst + n ==> now[i] == was[i + (src - dst)]
    requires forall i :: dst + n <= i < |now| ==> now[i] == was[i]
    ensures now == Shifted(was, dst, src, n)
  {
    assert now[..dst] == was[..dst];
    assert now[dst..dst + n] == was[src..src + n];
    assert now[dst + n..] == was[dst + n..];
    assert now == now[..dst] + now[dst..dst + n] + now[dst + n..];
  }

  /** The text kept so far: what precedes the gap and what follows it up to the read position. */
  function Kept(a: seq<byte>, start: nat, end: nat, size: nat, s: nat): (r: seq<byte>)
    requires GapFits(start, end, size, s) && s <= |a|
    ensures |r| == s - start - size
  {
    if size == 0 then a[start..s] else a[start..end - size] + a[end..s]
  }

  /** size is zero before the first push; then [end - size, end) is the gap. */
  predicate GapFits(start: nat, end: nat, size: nat, s: nat) {
    if size == 0 then start <= s else start + size <= end <= s
  }

  lemma ShiftedKept(a: seq<byte>, start: nat, end: nat, size: nat, s: nat)
    requires s <= |a| && size > 0 && GapFits(start, end, size, s)
    ensures var r := Shifted(a, end - size, end, s - end);
      r[start..s - size] == Kept(a, start, end, size, s) && Within(a, r, start, s)
  {
  }

  lemma NewGap(a: seq<byte>, start: nat, size: nat, s: nat, count: nat)
    requires start + size <= s && s + count <= |a| && size + count > 0
    ensures Kept(a, start, s + count, size + count, s + count) == a[start..s - size]
  {
  }

  class Gap {
    var end: nat
    var size: nat

    constructor ()
      ensures size == 0
    {
      end, size := 0, 0;
    }

    /** Move the bytes between the gap and s over the gap. */
    method Close(a: array<byte>, ghost start: nat, s: nat)
      requires s <= a.Length && GapFits(start, end, size, s)
      modifies a
      ensures a[start..s - size] == Kept(old(a[..]), start, end, size, s)
      ensures Within(old(a[..]), a[..], start, s)
    {
      hide Shifted;
      if size != 0 {
        ShiftedKept(a[..], start, end, size, s);
        Memmove(a, end - size, end, s - end);
        assert a[start..s - size] == a[..][start..s - size];
      }
    }

    /** Close the gap behind s and open one that also takes the count bytes after s. */
    method Push(a: array<byte>, ghost start: nat, s: nat, count: nat) returns (next: nat)
      requires count > 0 && s + count <= a.Length && GapFits(start, end, size, s)
      modifies this, a
      ensures next == s + count && size == old(size) + count && GapFits(start, end, size, next)
      ensures Kept(a[..], start, end, size, next) == Kept(old(a[..]), start, old(end), old(size), s)
      ensures Within(old(a[..]), a[..], start, s)
    {
      Close(a, start, s);
      NewGap(a[..], start, size, s, count);
      assert a[..][start..s - size] == a[start..s - size];
      next := s + count;
      end := next;
      size := size + count;
    }

    /** Close the gap; the kept text then ends at the returned position. */
    method Flush(a: array<byte>, ghost start: nat, s: nat) returns (next: nat)
      requires s <= a.Length && GapFits(start, end, size, s)
      modifies a
      ensures next == s - size && start <= next
      ensures a[start..next] == Kept(old(a[..]), start, end, size, s)
      ensures Within(old(a[..]), a[..], start, s)
    {
      Close(a, start, s);
      next := s - size;
    }
  }

  lemma KeptExtend(a: seq<byte>, b: seq<byte>, start: nat, end: nat, size: nat, s: nat, k: nat)
    requires GapFits(start, end, size, s) && s + k <= |a| == |b|
    requires forall i :: 0 <= i < s ==> a[i] == b[i]
    ensures Kept(b, start, end, size, s + k) == Kept(a, start, end, size, s) + b[s..s + k]
  {
    if size != 0 {
      assert a[start..end - size] == b[start..end - size] && a[end..s] == b[end..s];
      assert b[end..s + k] == b[end..s] + b[s..s + k];
    } else {
      assert a[start..s] == b[start..s];
      assert b[start..s + k] == b[start..s] + b[s..s + k];
    }
  }

  /** Replace the bytes from s up to stre by a shorter text. */
  method Replace(a: array<byte>, ghost start: nat, s: nat, text: seq<byte>, stre: nat, g: Gap) returns (next: nat)
    requires 0 < |text| < stre - s && stre <= a.Length && GapFits(start, g.end, g.size, s)
    modifies a, g
    ensures next == stre && GapFits(start, g.end, g.size, next)
    ensures Kept(a[..], start, g.end, g.size, next) == Kept(old(a[..]), start, old(g.end), old(g.size), s) + text
    ensures Within(old(a[..]), a[..], start, next)
  {
    hide Kept;
    ghost var was := a[..];
    WriteBytes(a, s, text);
    ghost var now := a[..];
    var k := |text|;
    KeptExtend(was, now, start, g.end, g.size, s, k);
    next := g.Push(a, start, s + k, stre - (s + k));
  }

  method WriteBytes(a: array<byte>, s: nat, text: seq<byte>)
    requires s + |text| <= a.Length
    modifies a
    ensures a[s..s + |text|] == text
    ensures Within(old(a[..]), a[..], s, s + |text|)
  {
    ghost var was := a[..];
    var k := 0;
    while k < |text|
      invariant k <= |text|
      invariant forall i :: 0 <= i < s ==> a[i] == was[i]
      invariant forall i {:trigger a[i]} :: s <= i < s + k ==> a[i] == text[i - s]
      invariant forall i :: s + k <= i < a.Length ==> a[i] == was[i]
    {
      a[s + k] := text[k];
      k := k + 1;
    }
  }

  // ---------- References ----------

  /** Read digits from p on; q is the first byte that is not one. */
  method ScanDigits(a: array<byte>, p: nat, hex: bool, ghost z: nat) returns (q: nat, value: unit32)
    requires p <= z < a.Length && a[z] == NUL
    ensures p <= q <= z && q == p + DigitCount(a[p..], hex)
    ensures value == Accumulate(a[p..q], hex, 0)
  {
    q, value := p, 0;
    while IsDigit(a[q], hex)
      invariant p <= q <= z
      invariant forall i :: p <= i < q ==> IsDigit(a[i], hex)
      invariant value == Accumulate(a[p..q], hex, 0)
      decreases z - q
    {
      AccumulateSnoc(a[p..q], a[q], hex, 0);
      assert a[p..q] + [a[q]] == a[p..q + 1];
      value := AddDigit(value, a[q], hex);
      q := q + 1;
    }
    CountIs(a[p..], q - p, hex);
  }

  lemma {:induction false} AccumulateSnoc(digits: seq<byte>, c: byte, hex: bool, value: unit32)
    requires (forall i :: 0 <= i < |digits| ==> IsDigit(digits[i], hex)) && IsDigit(c, hex)
    ensures forall i :: 0 <= i < |digits + [c]| ==> IsDigit((digits + [c])[i], hex)
    ensures Accumulate(digits + [c], hex, value) == AddDigit(Accumulate(digits, hex, value), c, hex)
  {
    if digits == [] {
      assert Accumulate([c][1..], hex, AddDigit(value, c, hex)) == AddDigit(value, c, hex);
      assert digits + [c] == [c];
    } else {
      AccumulateSnoc(digits[1..], c, hex, AddDigit(value, digits[0], hex));
      assert (digits + [c])[1..] == digits[1..] + [c];
    }
  }

  lemma {:induction false} CountIs(u: seq<byte>, n: nat, hex: bool)
    requires n < |u| && !IsDigit(u[n], hex) && forall i :: 0 <= i < n ==> IsDigit(u[i], hex)
    ensures DigitCount(u, hex) == n
  {
    if n > 0 {
      CountIs(u[1..], n - 1, hex);
    }
  }

  /** Compare the bytes from p on with a tail such as "p;"; q is the first mismatch or the end. */
  method MatchTail(a: array<byte>, p: nat, tail: seq<byte>, ghost z: nat) returns (q: nat, ok: bool)
    requires p <= z < a.Length && a[z] == NUL
    requires forall i :: 0 <= i < |tail| ==> IsRefByte(tail[i])
    ensures p <= q <= z && q - p <= |tail|
    ensures forall i :: p <= i < q ==> IsRefByte(a[i])
    ensures ok <==> tail <= a[p..]
    ensures ok ==> q == p + |tail|
  {
    q := p;
    while q - p < |tail| && a[q] == tail[q - p]
      invariant p <= q <= z && q - p <= |tail|
      invariant forall i :: p <= i < q ==> IsRefByte(a[i]) && a[i] == tail[i - p]
    {
      q := q + 1;
    }
    ok := q - p == |tail|;
    if ok {
      assert a[p..][..|tail|] == tail;
    } else {
      assert a[p..][q - p] == a[q];
    }
  }

  /** What strconv_escape recognises at the front of u. */
  datatype Found = Literal(past: nat) | Reference(text: seq<byte>, past: nat)

  /** Recognise a reference at s without changing the buffer. */
  method Recognise(a: array<byte>, s: nat, ghost z: nat) returns (f: Found)
    requires s < z < a.Length && a[s] == AMP && a[z] == NUL
    ensures var u := a[s..];
      if f.Reference? then s < f.past <= a.Length && FrontRef(u) == Ref(f.text, f.past - s)
      else FrontRef(u).NoRef? && s < f.past <= z && forall i :: s < i < f.past ==> IsRefByte(a[i])
  {
    var c := a[s + 1];
    if c == HASH {
      f := RecogniseNumber(a, s, z);
    } else {
      f := RecogniseName(a, s, z);
    }
  }

  lemma FrontNumber(u: seq<byte>)
    requires |u| >= 3 && u[0] == AMP && u[1] == HASH
    ensures FrontRef(u) == if u[2] == 120 then CharRef(u[3..], true, 3) else CharRef(u[2..], false, 2)
  {
  }

  method RecogniseNumber(a: array<byte>, s: nat, ghost z: nat) returns (f: Found)
    requires s + 1 < z < a.Length && a[s] == AMP && a[s + 1] == HASH && a[z] == NUL
    ensures var u := a[s..];
      if f.Reference? then s < f.past <= a.Length && FrontRef(u) == Ref(f.text, f.past - s)
      else FrontRef(u).NoRef? && s < f.past <= z && forall i :: s < i < f.past ==> IsRefByte(a[i])
  {
    hide FrontRef, CharRef;
    ghost var u := a[s..];
    assert u[1] == HASH && u[2] == a[s + 2];
    var hex := a[s + 2] == 120;
    var p := if hex then s + 3 else s + 2;
    FrontNumber(u);
    assert a[p..] == u[p - s..];
    f := RecogniseDigits(a, p, hex, z, p - s);
  }

  method RecogniseDigits(a: array<byte>, p: nat, hex: bool, ghost z: nat, ghost skipped: nat) returns (f: Found)
    requires 2 <= skipped <= p <= z < a.Length && a[z] == NUL
    ensures var r := CharRef(a[p..], hex, skipped);
      if f.Reference? then p < f.past <= a.Length && r == Ref(f.text, f.past - p + skipped)
      else r.NoRef? && p <= f.past <= z && forall i :: p <= i < f.past ==> IsRefByte(a[i])
  {
    hide Utf8Any, Accumulate, AddDigit, DigitCount;
    if a[p] == SEMI {
      f := Literal(p);
    } else {
      var q, value := ScanDigits(a, p, hex, z);
      ghost var digits := a[p..];
      assert digits[q - p] == a[q] && digits[..q - p] == a[p..q];
      f := if a[q] == SEMI then Reference(Utf8Any(value), q + 1) else Literal(q);
    }
  }

  lemma TailOf(name: seq<byte>, u: seq<byte>, k: nat)
    requires k <= |name| && k <= |u| && name[..k] == u[..k]
    ensures name <= u <==> name[k..] <= u[k..]
  {
    if name <= u {
      assert name[k..] == u[k..][..|name| - k];
    }
    if name[k..] <= u[k..] {
      assert u[..|name|] == u[..k] + u[k..][..|name| - k];
    }
  }

  lemma FrontNameA(u: seq<byte>)
    requires |u| >= 3 && u[0] == AMP && u[1] == 97
    ensures u[2] == 109 ==> FrontRef(u) == if [112, SEMI] <= u[3..] then Ref([AMP], 5) else NoRef
    ensures u[2] == 112 ==> FrontRef(u) == if [111, 115, SEMI] <= u[3..] then Ref([APOS], 6) else NoRef
    ensures u[2] != 109 && u[2] != 112 ==> FrontRef(u) == NoRef
  {
    var v := u[1..];
    assert v[2..] == u[3..];
    if u[2] == 109 {
      assert v[..2] == AMP_TAIL[..2] && AMP_TAIL[2..] == [112, SEMI];
      TailOf(AMP_TAIL, v, 2);
    } else if u[2] == 112 {
      assert v[..2] == APOS_TAIL[..2] && APOS_TAIL[2..] == [111, 115, SEMI];
      TailOf(APOS_TAIL, v, 2);
    }
    assert v[0] == 97 && v[1] == u[2];
  }

  lemma FrontNameOther(u: seq<byte>)
    requires |u| >= 2 && u[0] == AMP && u[1] != 97 && u[1] != HASH
    ensures u[1] == 103 ==> FrontRef(u) == if [116, SEMI] <= u[2..] then Ref([GT], 4) else NoRef
    ensures u[1] == 108 ==> FrontRef(u) == if [116, SEMI] <= u[2..] then Ref([LT], 4) else NoRef
    ensures u[1] == 113 ==> FrontRef(u) == if [117, 111, 116, SEMI] <= u[2..] then Ref([QUOT], 6) else NoRef
    ensures u[1] != 103 && u[1] != 108 && u[1] != 113 ==> FrontRef(u) == NoRef
  {
    var v := u[1..];
    assert v[1..] == u[2..];
    if u[1] == 103 {
      assert v[..1] == GT_TAIL[..1] && GT_TAIL[1..] == [116, SEMI];
      TailOf(GT_TAIL, v, 1);
    } else if u[1] == 108 {
      assert v[..1] == LT_TAIL[..1] && LT_TAIL[1..] == [116, SEMI];
      TailOf(LT_TAIL, v, 1);
    } else if u[1] == 113 {
      assert v[..1] == QUOT_TAIL[..1] && QUOT_TAIL[1..] == [117, 111, 116, SEMI];
      TailOf(QUOT_TAIL, v, 1);
    }
    assert v[0] == u[1];
  }

  method RecogniseName(a: array<byte>, s: nat, ghost z: nat) returns (f: Found)
    requires s < z < a.Length && a[s] == AMP && a[s + 1] != HASH && a[z] == NUL
    ensures var u := a[s..];
      if f.Reference? then s < f.past <= a.Length && FrontRef(u) == Ref(f.text, f.past - s)
      else FrontRef(u).NoRef? && s < f.past <= z && forall i :: s < i < f.past ==> IsRefByte(a[i])
  {
    hide FrontRef;
    ghost var u := a[s..];
    var c := a[s + 1];
    assert u[1] == c;
    if c == 97 {
      f := RecogniseNameA(a, s, z);
      return;
    }
    var q, ok := s + 1, false;
    var text: seq<byte> := [];
    if c == 103 {
      text := [GT];
      q, ok := MatchTail(a, s + 2, [116, SEMI], z);
    } else if c == 108 {
      text := [LT];
      q, ok := MatchTail(a, s + 2, [116, SEMI], z);
    } else if c == 113 {
      text := [QUOT];
      q, ok := MatchTail(a, s + 2, [117, 111, 116, SEMI], z);
    }
    assert a[s + 2..] == u[2..];
    FrontNameOther(u);
    f := if ok then Reference(text, q) else Literal(q);
  }

  /** &amp; and &apos; */
  method RecogniseNameA(a: array<byte>, s: nat, ghost z: nat) returns (f: Found)
    requires s + 1 < z < a.Length && a[s] == AMP && a[s + 1] == 97 && a[z] == NUL
    ensures var u := a[s..];
      if f.Reference? then s < f.past <= a.Length && FrontRef(u) == Ref(f.text, f.past - s)
      else FrontRef(u).NoRef? && s < f.past <= z && forall i :: s < i < f.past ==> IsRefByte(a[i])
  {
    hide FrontRef;
    ghost var u := a[s..];
    var q, ok := s + 2, false;
    var text: seq<byte> := [];
    if a[q] == 109 {
      text := [AMP];
      q, ok := MatchTail(a, s + 3, [112, SEMI], z);
    } else if a[q] == 112 {
      text := [APOS];
      q, ok := MatchTail(a, s + 3, [111, 115, SEMI], z);
    }
    assert u[1] == 97 && u[2] == a[s + 2] && a[s + 3..] == u[3..];
    FrontNameA(u);
    f := if ok then Reference(text, q) else Literal(q);
  }

  /** strconv_escape: expand the reference at s, or step over the bytes looked at. */
  method StrconvEscape(a: array<byte>, ghost start: nat, s: nat, g: Gap, ghost z: nat) returns (next: nat)
    requires s < z < a.Length && a[s] == AMP && a[z] == NUL && GapFits(start, g.end, g.size, s)
    modifies a, g
    ensures s < next <= a.Length && GapFits(start, g.end, g.size, next)
    ensures var u, r := old(a[s..]), FrontRef(old(a[s..]));
      if r.Ref? then
        next == s + r.length &&
        Kept(a[..], start, g.end, g.size, next) == Kept(old(a[..]), start, old(g.end), old(g.size), s) + r.text
      else
        next <= z && (forall i :: 1 <= i < next - s ==> IsRefByte(u[i])) &&
        Kept(a[..], start, g.end, g.size, next) == Kept(old(a[..]), start, old(g.end), old(g.size), s) + u[..next - s]
    ensures Within(old(a[..]), a[..], start, next)
  {
    hide Kept, FrontRef;
    var f := Recognise(a, s, z);
    match f {
      case Reference(text, past) =>
        next := Replace(a, start, s, text, past, g);
      case Literal(past) =>
        KeptExtend(a[..], a[..], start, g.end, g.size, s, past - s);
        next := past;
    }
  }

  /** A carriage return at s, alone or before a line feed, becomes one byte. */
  method LineEnd(a: array<byte>, ghost start: nat, s: nat, fill: byte, g: Gap) returns (next: nat)
    requires s + 1 < a.Length && GapFits(start, g.end, g.size, s)
    modifies a, g
    ensures next == s + (if old(a[s + 1]) == LF then 2 else 1) && next <= a.Length &&
      GapFits(start, g.end, g.size, next)
    ensures Kept(a[..], start, g.end, g.size, next) == Kept(old(a[..]), start, old(g.end), old(g.size), s) + [fill]
    ensures Within(old(a[..]), a[..], start, next)
  {
    hide Kept;
    ghost var was := a[..];
    a[s] := fill;
    ghost var now := a[..];
    KeptExtend(was, now, start, g.end, g.size, s, 1);
    next := s + 1;
    if a[next] == LF {
      next := g.Push(a, start, next, 1);
    }
  }

  // ---------- Conversion runs ----------

  /** The first byte from s on that is the stop byte or the terminating zero. */
  function ScanTo(b: seq<byte>, s: nat, stop: byte): (e: nat)
    requires s < |b| && b[|b| - 1] == NUL
    ensures s <= e < |b| && (b[e] == stop || b[e] == NUL)
    ensures forall i :: s <= i < e ==> b[i] != stop && b[i] != NUL
    decreases |b| - s
  {
    if b[s] == stop || b[s] == NUL then s else ScanTo(b, s + 1, stop)
  }

  /**
   * The text kept since start together with the conversion of what lies between s and e is the conversion
   * of everything between from and e; nothing outside [start, s) has changed.
   */
  ghost predicate Progress(orig: seq<byte>, b: seq<byte>, start: nat, g: (nat, nat), s: nat, from: nat, e: nat,
                           lines: Lines, escapes: bool)
  {
    && start <= s <= e < |orig| == |b| && from <= e
    && GapFits(start, g.0, g.1, s)
    && Within(orig, b, start, s)
    && Kept(b, start, g.0, g.1, s) + Convert(orig[s..e], lines, escapes) == Convert(orig[from..e], lines, escapes)
  }

  lemma Step(orig: seq<byte>, b: seq<byte>, b': seq<byte>, start: nat, g: (nat, nat), g': (nat, nat), s: nat, s': nat,
             from: nat, e: nat, lines: Lines, escapes: bool, r: seq<byte>)
    requires Progress(orig, b, start, g, s, from, e, lines, escapes)
    requires s <= s' <= e && Within(b, b', start, s') && GapFits(start, g'.0, g'.1, s')
    requires Kept(b', start, g'.0, g'.1, s') == Kept(b, start, g.0, g.1, s) + r
    requires Convert(orig[s..e], lines, escapes) == r + Convert(orig[s'..e], lines, escapes)
    ensures Progress(orig, b', start, g', s', from, e, lines, escapes)
  {
    hide Convert, Kept;
    var kept, rest := Kept(b, start, g.0, g.1, s), Convert(orig[s'..e], lines, escapes);
    assert kept + (r + rest) == (kept + r) + rest;
  }

  lemma StepPlain(orig: seq<byte>, b: seq<byte>, start: nat, g: (nat, nat), s: nat, from: nat, e: nat, lines: Lines,
      escapes: bool)
    requires Progress(orig, b, start, g, s, from, e, lines, escapes)
    requires s < e && IsPlain(orig[s], lines, escapes)
    ensures Progress(orig, b, start, g, s + 1, from, e, lines, escapes)
  {
    hide Convert, Kept;
    var t := orig[s..e];
    ConvertStep(t, lines, escapes);
    assert t[1..] == orig[s + 1..e];
    KeptExtend(b, b, start, g.0, g.1, s, 1);
    assert b[s..s + 1] == [orig[s]];
    Step(orig, b, b, start, g, g, s, s + 1, from, e, lines, escapes, [orig[s]]);
  }

  /** White space at s became one byte. */
  lemma StepSpace(orig: seq<byte>, b: seq<byte>, b': seq<byte>, start: nat, g: (nat, nat), g': (nat, nat), s: nat,
      s': nat,
                  from: nat, e: nat, lines: Lines, escapes: bool, fill: byte)
    requires Progress(orig, b, start, g, s, from, e, lines, escapes)
    requires s < e && IsSpace(orig[s]) && (lines.Eol? ==> orig[s] == CR)
    requires !lines.Raw? && fill == (if lines.Eol? then LF else SPACE)
    requires s' == s + Taken(orig[s..e], lines, escapes) && GapFits(start, g'.0, g'.1, s') && Within(b, b', start, s')
    requires Kept(b', start, g'.0, g'.1, s') == Kept(b, start, g.0, g.1, s) + [fill]
    ensures Progress(orig, b', start, g', s', from, e, lines, escapes)
  {
    hide Kept, Convert, Taken;
    var t := orig[s..e];
    SpaceTaken(t, lines, escapes);
    assert t[s' - s..] == orig[s'..e];
    Step(orig, b, b', start, g, g', s, s', from, e, lines, escapes, [fill]);
  }

  lemma StepEscape(orig: seq<byte>, b: seq<byte>, b': seq<byte>, start: nat, g: (nat, nat), g': (nat, nat), s: nat,
      s': nat,
                   from: nat, e: nat, lines: Lines)
    requires Progress(orig, b, start, g, s, from, e, lines, true)
    requires s < e && orig[s] == AMP && !IsRefByte(orig[e])
    requires s < s' <= |b| && GapFits(start, g'.0, g'.1, s') && Within(b, b', start, s')
    requires var u, r := b[s..], FrontRef(b[s..]);
      if r.Ref? then
        s' == s + r.length && Kept(b', start, g'.0, g'.1, s') == Kept(b, start, g.0, g.1, s) + r.text
      else
        (forall i :: 1 <= i < s' - s ==> IsRefByte(u[i])) &&
        Kept(b', start, g'.0, g'.1, s') == Kept(b, start, g.0, g.1, s) + u[..s' - s]
    ensures Progress(orig, b', start, g', s', from, e, lines, true)
  {
    hide FrontRef, Convert, Kept;
    var t, u := orig[s..e], orig[s..];
    assert b[s..] == u && u[e - s] == orig[e];
    RefWithin(t, u);
    if FrontRef(t).Ref? {
      EscapeTaken(t, lines);
      assert t[s' - s..] == orig[s'..e];
      Step(orig, b, b', start, g, g', s, s', from, e, lines, true, FrontRef(t).text);
    } else {
      RefBytesStop(u, s' - s, e - s);
      ConvertNoRef(t, s' - s, lines);
      assert t[s' - s..] == orig[s'..e] && t[..s' - s] == u[..s' - s];
      Step(orig, b, b', start, g, g', s, s', from, e, lines, true, t[..s' - s]);
    }
  }

  lemma SpaceTaken(t: seq<byte>, lines: Lines, escapes: bool)
    requires t != [] && IsSpace(t[0]) && !lines.Raw? && (lines.Eol? ==> t[0] == CR)
    ensures Convert(t, lines, escapes)
         == [if lines.Eol? then LF else SPACE] + Convert(t[Taken(t, lines, escapes)..], lines, escapes)
  {
    hide FrontRef;
  }

  lemma RefBytesStop(u: seq<byte>, k: nat, m: nat)
    requires 1 <= m < |u| && !IsRefByte(u[m]) && forall i :: 1 <= i < k && i < |u| ==> IsRefByte(u[i])
    ensures k <= m
  {
  }

  lemma EscapeTaken(t: seq<byte>, lines: Lines)
    requires t != [] && t[0] == AMP && FrontRef(t).Ref?
    ensures Convert(t, lines, true) == FrontRef(t).text + Convert(t[FrontRef(t).length..], lines, true)
  {
  }

  /** b holds a zero-terminated text at s. */
  predicate Holds(b: seq<byte>, s: nat, text: seq<byte>) {
    s + |text| < |b| && b[s..s + |text|] == text && b[s + |text|] == NUL
  }

  /** Close the gap and terminate the text. */
  method Terminate(a: array<byte>, ghost start: nat, s: nat, g: Gap)
    requires s < a.Length && GapFits(start, g.end, g.size, s)
    modifies a
    ensures Holds(a[..], start, Kept(old(a[..]), start, g.end, g.size, s))
    ensures Within(old(a[..]), a[..], start, s + 1)
  {
    hide Kept;
    var t := g.Flush(a, start, s);
    ghost var text := a[start..t];
    a[t] := NUL;
    assert a[..][start..t] == text;
  }

  lemma ProgressStart(orig: seq<byte>, start: nat, end: nat, e: nat, lines: Lines, escapes: bool)
    requires start <= e < |orig|
    ensures Progress(orig, orig, start, (end, 0), start, start, e, lines, escapes)
  {
    hide Convert;
    assert Kept(orig, start, end, 0, start) == [];
  }

  lemma ProgressEnd(orig: seq<byte>, b: seq<byte>, start: nat, g: (nat, nat), from: nat, e: nat, lines: Lines,
      escapes: bool)
    requires Progress(orig, b, start, g, e, from, e, lines, escapes)
    ensures Kept(b, start, g.0, g.1, e) == Convert(orig[from..e], lines, escapes)
  {
    hide Kept;
    assert orig[e..e] == [];
  }

  /** The reference at s, or the bytes looked at in search of one. */
  method ExpandAt(a: array<byte>, ghost start: nat, s: nat, g: Gap, ghost orig: seq<byte>, ghost from: nat,
      ghost e: nat,
      ghost lines: Lines) returns (next: nat)
    requires Progress(orig, a[..], start, (g.end, g.size), s, from, e, lines, true)
    requires s < e && a[s] == AMP && a[a.Length - 1] == NUL && !IsRefByte(orig[e])
    modifies a, g
    ensures s < next && Progress(orig, a[..], start, (g.end, g.size), next, from, e, lines, true)
  {
    hide Kept, Convert, FrontRef;
    ghost var b, was := a[..], (g.end, g.size);
    next := StrconvEscape(a, start, s, g, a.Length - 1);
    StepEscape(orig, b, a[..], start, was, (g.end, g.size), s, next, from, e, lines);
  }

  /** The line end at s becomes a line feed. */
  method LineEndAt(a: array<byte>, ghost start: nat, s: nat, g: Gap, ghost orig: seq<byte>, ghost from: nat,
      ghost e: nat,
      ghost escapes: bool) returns (next: nat)
    requires Progress(orig, a[..], start, (g.end, g.size), s, from, e, Eol, escapes)
    requires s < e && a[s] == CR && orig[e] != LF
    modifies a, g
    ensures s < next && Progress(orig, a[..], start, (g.end, g.size), next, from, e, Eol, escapes)
  {
    hide Kept, Convert, FrontRef;
    ghost var b, was := a[..], (g.end, g.size);
    next := LineEnd(a, start, s, LF, g);
    StepSpace(orig, b, a[..], start, was, (g.end, g.size), s, next, from, e, Eol, escapes, LF);
  }

  /** strconv_pcdata: text up to '<', behind which the returned position lies. */
  method StrconvPcdata(a: array<byte>, start: nat, eol: bool, escapes: bool) returns (r: nat)
    requires start < a.Length && a[a.Length - 1] == NUL
    modifies a
    ensures var orig, e := old(a[..]), ScanTo(old(a[..]), start, LT);
      if orig[e] == NUL then r == e && Within(orig, a[..], start, e)
      else
        r == e + 1 && Within(orig, a[..], start, e + 1) &&
        Holds(a[..], start, Convert(orig[start..e], if eol then Eol else Raw, escapes))
  {
    hide Kept, Convert, FrontRef, ScanTo, Holds;
    ghost var orig := a[..];
    ghost var e := ScanTo(orig, start, LT);
    ghost var lines := if eol then Eol else Raw;
    var g := new Gap();
    var s := start;
    ProgressStart(orig, s, g.end, e, lines, escapes);
    while true
      invariant Progress(orig, a[..], start, (g.end, g.size), s, start, e, lines, escapes)
      decreases e - s
    {
      while a[s] != NUL && a[s] != AMP && a[s] != CR && a[s] != LT
        invariant Progress(orig, a[..], start, (g.end, g.size), s, start, e, lines, escapes)
        decreases e - s
      {
        StepPlain(orig, a[..], start, (g.end, g.size), s, start, e, lines, escapes);
        s := s + 1;
      }
      ghost var b, was := a[..], (g.end, g.size);
      if a[s] == LT {
        ProgressEnd(orig, b, start, was, start, e, lines, escapes);
        Terminate(a, start, s, g);
        return s + 1;
      } else if eol && a[s] == CR {
        s := LineEndAt(a, start, s, g, orig, start, e, escapes);
      } else if escapes && a[s] == AMP {
        s := ExpandAt(a, start, s, g, orig, start, e, lines);
      } else if a[s] == NUL {
        return s;
      } else {
        StepPlain(orig, b, start, was, s, start, e, lines, escapes);
        s := s + 1;
      }
    }
  }

  // ---------- Attribute values ----------

  /** What a scan up to a quote leaves: nothing outside [start, e] has changed. */
  ghost predicate Scanned(orig: seq<byte>, b: seq<byte>, start: nat, e: nat, r: Pointer, text: seq<byte>)
    requires e < |orig|
  {
    if orig[e] == NUL then r == Null && Within(orig, b, start, e)
    else r == At(e + 1) && Within(orig, b, start, e + 1) && Holds(b, start, text)
  }

  /** White space at s becomes a space; a line feed after a carriage return goes with it. */
  method Blank(a: array<byte>, ghost start: nat, s: nat, g: Gap) returns (next: nat)
    requires s + 1 < a.Length && GapFits(start, g.end, g.size, s)
    modifies a, g
    ensures next == s + (if old(a[s]) == CR && old(a[s + 1]) == LF then 2 else 1) && next <= a.Length
    ensures GapFits(start, g.end, g.size, next) && Within(old(a[..]), a[..], start, next)
    ensures Kept(a[..], start, g.end, g.size, next) == Kept(old(a[..]), start, old(g.end), old(g.size), s) + [SPACE]
  {
    hide Kept;
    if a[s] == CR {
      next := LineEnd(a, start, s, SPACE, g);
    } else {
      ghost var b := a[..];
      a[s] := SPACE;
      KeptExtend(b, a[..], start, g.end, g.size, s, 1);
      next := s + 1;
    }
  }

  method BlankAt(a: array<byte>, ghost start: nat, s: nat, g: Gap, ghost orig: seq<byte>, ghost from: nat, ghost e: nat,
      ghost escapes: bool) returns (next: nat)
    requires Progress(orig, a[..], start, (g.end, g.size), s, from, e, Wconv, escapes)
    requires s < e && IsSpace(a[s]) && orig[e] != LF
    modifies a, g
    ensures s < next && Progress(orig, a[..], start, (g.end, g.size), next, from, e, Wconv, escapes)
  {
    hide Kept, Convert, FrontRef;
    ghost var b, was := a[..], (g.end, g.size);
    next := Blank(a, start, s, g);
    StepSpace(orig, b, a[..], start, was, (g.end, g.size), s, next, from, e, Wconv, escapes, SPACE);
  }

  /** parse_wconv */
  method StrconvAttributeWconv(a: array<byte>, start: nat, quote: byte, escapes: bool) returns (r: Pointer)
    requires start < a.Length && a[a.Length - 1] == NUL && (quote == QUOT || quote == APOS)
    modifies a
    ensures var orig, e := old(a[..]), ScanTo(old(a[..]), start, quote);
      Scanned(orig, a[..], start, e, r, Convert(orig[start..e], Wconv, escapes))
  {
    hide Kept, Convert, FrontRef, ScanTo, Holds;
    ghost var orig := a[..];
    ghost var e := ScanTo(orig, start, quote);
    var g := new Gap();
    var s := start;
    ProgressStart(orig, s, g.end, e, Wconv, escapes);
    while true
      invariant Progress(orig, a[..], start, (g.end, g.size), s, start, e, Wconv, escapes)
      decreases e - s
    {
      while a[s] != NUL && a[s] != AMP && a[s] != CR && a[s] != QUOT && a[s] != APOS && a[s] != LF && a[s] != TAB
        invariant Progress(orig, a[..], start, (g.end, g.size), s, start, e, Wconv, escapes)
        decreases e - s
      {
        StepPlain(orig, a[..], start, (g.end, g.size), s, start, e, Wconv, escapes);
        s := s + 1;
      }
      ghost var b, was := a[..], (g.end, g.size);
      if a[s] == quote {
        ProgressEnd(orig, b, start, was, start, e, Wconv, escapes);
        Terminate(a, start, s, g);
        return At(s + 1);
      } else if IsSpace(a[s]) {
        s := BlankAt(a, start, s, g, orig, start, e, escapes);
      } else if escapes && a[s] == AMP {
        s := ExpandAt(a, start, s, g, orig, start, e, Wconv);
      } else if a[s] == NUL {
        return Null;
      } else {
        StepPlain(orig, b, start, was, s, start, e, Wconv, escapes);
        s := s + 1;
      }
    }
  }

  /** parse_eol, and parse_simple when eol is false */
  method StrconvAttributeEol(a: array<byte>, start: nat, quote: byte, eol: bool, escapes: bool) returns (r: Pointer)
    requires start < a.Length && a[a.Length - 1] == NUL && (quote == QUOT || quote == APOS)
    modifies a
    ensures var orig, e := old(a[..]), ScanTo(old(a[..]), start, quote);
      Scanned(orig, a[..], start, e, r, Convert(orig[start..e], if eol then Eol else Raw, escapes))
  {
    hide Kept, Convert, FrontRef, ScanTo, Holds;
    ghost var orig := a[..];
    ghost var e := ScanTo(orig, start, quote);
    ghost var lines := if eol then Eol else Raw;
    var g := new Gap();
    var s := start;
    ProgressStart(orig, s, g.end, e, lines, escapes);
    while true
      invariant Progress(orig, a[..], start, (g.end, g.size), s, start, e, lines, escapes)
      decreases e - s
    {
      while a[s] != NUL && a[s] != AMP && a[s] != CR && a[s] != QUOT && a[s] != APOS
        invariant Progress(orig, a[..], start, (g.end, g.size), s, start, e, lines, escapes)
        decreases e - s
      {
        StepPlain(orig, a[..], start, (g.end, g.size), s, start, e, lines, escapes);
        s := s + 1;
      }
      ghost var b, was := a[..], (g.end, g.size);
      if a[s] == quote {
        ProgressEnd(orig, b, start, was, start, e, lines, escapes);
        Terminate(a, start, s, g);
        return At(s + 1);
      } else if eol && a[s] == CR {
        s := LineEndAt(a, start, s, g, orig, start, e, escapes);
      } else if escapes && a[s] == AMP {
        s := ExpandAt(a, start, s, g, orig, start, e, lines);
      } else if a[s] == NUL {
        return Null;
      } else {
        StepPlain(orig, b, start, was, s, start, e, lines, escapes);
        s := s + 1;
      }
    }
  }

  /** Pass over white space. */
  method SkipSpace(a: array<byte>, s: nat, ghost z: nat) returns (q: nat)
    requires s <= z < a.Length && !IsSpace(a[z])
    ensures s <= q <= z && !IsSpace(a[q]) && forall i :: s <= i < q ==> IsSpace(a[i])
  {
    q := s;
    while IsSpace(a[q])
      invariant s <= q <= z && forall i :: s <= i < q ==> IsSpace(a[i])
      decreases z - q
    {
      q := q + 1;
    }
  }

  lemma {:induction false} LeadingSpaceIs(t: seq<byte>, n: nat)
    requires n <= |t| && (n < |t| ==> !IsSpace(t[n])) && forall i :: 0 <= i < n ==> IsSpace(t[i])
    ensures LeadingSpace(t) == n
  {
    if n > 0 {
      LeadingSpaceIs(t[1..], n - 1);
    }
  }

  /** The white space at s and all that follows it becomes one space. */
  method BlankRun(a: array<byte>, ghost start: nat, s: nat, g: Gap, ghost z: nat) returns (next: nat)
    requires s < z < a.Length && !IsSpace(a[z]) && GapFits(start, g.end, g.size, s)
    modifies a, g
    ensures s < next <= z && GapFits(start, g.end, g.size, next) && Within(old(a[..]), a[..], start, next)
    ensures var b := old(a[..]); !IsSpace(b[next]) && forall i :: s < i < next ==> IsSpace(b[i])
    ensures Kept(a[..], start, g.end, g.size, next) == Kept(old(a[..]), start, old(g.end), old(g.size), s) + [SPACE]
  {
    hide Kept;
    ghost var b := a[..];
    a[s] := SPACE;
    KeptExtend(b, a[..], start, g.end, g.size, s, 1);
    next := s + 1;
    if IsSpace(a[next]) {
      var str := SkipSpace(a, next + 1, z);
      ghost var now := a[..];
      assert forall i :: s < i < str ==> now[i] == b[i] && IsSpace(now[i]);
      next := g.Push(a, start, next, str - next);
    }
  }

  /** Terminate the text and drop the white space at its end; a byte that is none stands before it. */
  method TerminateTrimmed(a: array<byte>, start: nat, s: nat, g: Gap)
    requires 0 < start && s < a.Length && GapFits(start, g.end, g.size, s) && !IsSpace(a[start - 1])
    modifies a
    ensures Holds(a[..], start, TrimRight(Kept(old(a[..]), start, g.end, g.size, s)))
    ensures Within(old(a[..]), a[..], start, s + 1)
  {
    hide Kept, TrimRight, Holds;
    ghost var text := Kept(a[..], start, g.end, g.size, s);
    var t := g.Flush(a, start, s);
    DropSpace(a, start, t, text);
  }

  /** Write zeros backwards over the end of a text and the white space before it. */
  method DropSpace(a: array<byte>, start: nat, past: nat, ghost text: seq<byte>)
    requires 0 < start <= past < a.Length && a[start..past] == text && !IsSpace(a[start - 1])
    modifies a
    ensures Holds(a[..], start, TrimRight(text))
    ensures Within(old(a[..]), a[..], start, past + 1)
  {
    hide TrimmedLength;
    a[past] := NUL;
    var t := past - 1;
    while IsSpace(a[t])
      invariant start - 1 <= t < past && Within(old(a[..]), a[..], start, past + 1)
      invariant a[start..t + 1] == text[..t + 1 - start]
      invariant forall i {:trigger text[i]} :: t + 1 - start <= i < |text| ==> IsSpace(text[i])
      invariant a[t + 1] == NUL
      decreases t
    {
      assert a[t] == a[start..t + 1][t - start];
      assert a[start..t] == text[..t - start];
      a[t] := NUL;
      t := t - 1;
    }
    assert t >= start ==> a[t] == a[start..t + 1][t - start];
    TrimmedLengthIs(text, t + 1 - start);
  }

  lemma {:induction false} TrimmedLengthIs(t: seq<byte>, n: nat)
    requires n <= |t| && AllSpace(t[n..]) && (n > 0 ==> !IsSpace(t[n - 1]))
    ensures TrimmedLength(t) == n
  {
    if n < |t| {
      assert t[n..][|t| - 1 - n] == t[|t| - 1];
      assert t[..|t| - 1][n..] == t[n..][..|t| - 1 - n];
      TrimmedLengthIs(t[..|t| - 1], n);
    }
  }

  /** Open a gap over the white space in front of a value. */
  method TrimStart(a: array<byte>, start: nat, g: Gap, ghost e: nat, ghost escapes: bool) returns (s: nat)
    requires start <= e < a.Length && !IsSpace(a[e]) && g.size == 0
    modifies a, g
    ensures start <= s <= e
    ensures Progress(old(a[..]), a[..], start, (g.end, g.size), s, s, e, Wnorm, escapes)
    ensures old(a[..])[s..e] == TrimLeft(old(a[..])[start..e])
  {
    hide Kept, Convert;
    ghost var orig := a[..];
    ProgressStart(orig, start, g.end, e, Wnorm, escapes);
    KeptNothing(orig, start, g.end);
    s := start;
    if IsSpace(a[s]) {
      var str := SkipSpace(a, s + 1, e);
      assert forall i :: start <= i < str ==> IsSpace(orig[i]);
      s := g.Push(a, start, s, str - s);
    }
    ProgressTrimmed(orig, a[..], start, (g.end, g.size), s, e, escapes);
  }

  lemma KeptNothing(b: seq<byte>, start: nat, end: nat)
    requires start <= |b|
    ensures Kept(b, start, end, 0, start) == []
  {
  }

  method BlankRunAt(a: array<byte>, ghost start: nat, s: nat, g: Gap, ghost orig: seq<byte>, ghost from: nat,
      ghost e: nat, ghost escapes: bool) returns (next: nat)
    requires Progress(orig, a[..], start, (g.end, g.size), s, from, e, Wnorm, escapes)
    requires s < e && IsSpace(a[s]) && !IsSpace(a[e])
    modifies a, g
    ensures s < next && Progress(orig, a[..], start, (g.end, g.size), next, from, e, Wnorm, escapes)
  {
    hide Kept, Convert, FrontRef, Taken;
    ghost var b, was := a[..], (g.end, g.size);
    next := BlankRun(a, start, s, g, e);
    TakenRun(orig, s, next, e, escapes);
    StepSpace(orig, b, a[..], start, was, (g.end, g.size), s, next, from, e, Wnorm, escapes, SPACE);
  }

  /** parse_wnorm: the byte before the value is its opening quote. */
  method StrconvAttributeWnorm(a: array<byte>, start: nat, quote: byte, escapes: bool) returns (r: Pointer)
    requires 0 < start < a.Length && a[a.Length - 1] == NUL && (quote == QUOT || quote == APOS) && a[start - 1] == quote
    modifies a
    ensures var orig, e := old(a[..]), ScanTo(old(a[..]), start, quote);
      Scanned(orig, a[..], start, e, r, WhiteNormal(orig[start..e], escapes))
  {
    hide Kept, Convert, FrontRef, TrimRight, TrimLeft, ScanTo, Holds, Taken;
    ghost var orig := a[..];
    ghost var e := ScanTo(orig, start, quote);
    var g := new Gap();
    var s := TrimStart(a, start, g, e, escapes);
    ghost var from := s;
    while true
      invariant Progress(orig, a[..], start, (g.end, g.size), s, from, e, Wnorm, escapes)
      decreases e - s
    {
      while a[s] != NUL && a[s] != AMP && a[s] != QUOT && a[s] != APOS && !IsSpace(a[s])
        invariant Progress(orig, a[..], start, (g.end, g.size), s, from, e, Wnorm, escapes)
        decreases e - s
      {
        StepPlain(orig, a[..], start, (g.end, g.size), s, from, e, Wnorm, escapes);
        s := s + 1;
      }
      ghost var b, was := a[..], (g.end, g.size);
      if a[s] == quote {
        ProgressEnd(orig, b, start, was, from, e, Wnorm, escapes);
        TerminateTrimmed(a, start, s, g);
        return At(s + 1);
      } else if IsSpace(a[s]) {
        s := BlankRunAt(a, start, s, g, orig, from, e, escapes);
      } else if escapes && a[s] == AMP {
        s := ExpandAt(a, start, s, g, orig, from, e, Wnorm);
      } else if a[s] == NUL {
        return Null;
      } else {
        StepPlain(orig, b, start, was, s, from, e, Wnorm, escapes);
        s := s + 1;
      }
    }
  }

  lemma TakenRun(orig: seq<byte>, p: nat, s: nat, e: nat, escapes: bool)
    requires p < s <= e < |orig| && IsSpace(orig[p]) && !IsSpace(orig[s]) && forall i :: p < i < s ==> IsSpace(orig[i])
    ensures Taken(orig[p..e], Wnorm, escapes) == s - p
  {
    assert orig[p..e][1..] == orig[p + 1..e];
    LeadingSpaceIs(orig[p + 1..e], s - p - 1);
  }

  lemma ProgressTrimmed(orig: seq<byte>, b: seq<byte>, start: nat, g: (nat, nat), from: nat, e: nat, escapes: bool)
    requires start <= from <= e < |orig| == |b| && GapFits(start, g.0, g.1, from) && Within(orig, b, start, from)
    requires Kept(b, start, g.0, g.1, from) == []
    requires !IsSpace(orig[from]) && forall i :: start <= i < from ==> IsSpace(orig[i])
    ensures Progress(orig, b, start, g, from, from, e, Wnorm, escapes)
    ensures orig[from..e] == TrimLeft(orig[start..e])
  {
    hide Convert, Kept;
    LeadingSpaceIs(orig[start..e], from - start);
  }

  // ---------- CDATA sections and comments ----------

  /** ENDSWITH: the last byte of the buffer was replaced by a zero and is kept in endch. */
  predicate EndsWith(c: byte, e: byte, endch: byte) {
    c == e || (c == NUL && endch == e)
  }

  /** A doubled byte and '>' at i, the '>' possibly the replaced last byte. */
  predicate SectionEnd(b: seq<byte>, i: nat, mark: byte, endch: byte) {
    i + 2 < |b| && b[i] == mark && b[i + 1] == mark && EndsWith(b[i + 2], GT, endch)
  }

  function ScanSection(b: seq<byte>, s: nat, mark: byte, endch: byte): (e: nat)
    requires s < |b| && b[|b| - 1] == NUL
    ensures s <= e < |b| && (b[e] == NUL || SectionEnd(b, e, mark, endch))
    ensures forall i :: s <= i < e ==> b[i] != NUL && !SectionEnd(b, i, mark, endch)
    decreases |b| - s
  {
    if b[s] == NUL || SectionEnd(b, s, mark, endch) then s else ScanSection(b, s + 1, mark, endch)
  }

  /** strconv_cdata with mark ']' and strconv_comment with mark '-': e is where the text ends. */
  method StrconvSection(a: array<byte>, start: nat, mark: byte, endch: byte) returns (r: Pointer)
    requires start < a.Length && a[a.Length - 1] == NUL && (mark == RBRACKET || mark == DASH)
    modifies a
    ensures var orig, e := old(a[..]), ScanSection(old(a[..]), start, mark, endch);
      if orig[e] == NUL then r == Null && Within(orig, a[..], start, e)
      else r == At(e) && Within(orig, a[..], start, e + 1) && Holds(a[..], start, Convert(orig[start..e], Eol, false))
  {
    hide Kept, Convert, FrontRef, ScanSection, Holds;
    ghost var orig := a[..];
    ghost var e := ScanSection(orig, start, mark, endch);
    var g := new Gap();
    var s := start;
    ProgressStart(orig, s, g.end, e, Eol, false);
    while true
      invariant Progress(orig, a[..], start, (g.end, g.size), s, start, e, Eol, false)
      decreases e - s
    {
      while a[s] != NUL && a[s] != mark && a[s] != GT && a[s] != CR
        invariant Progress(orig, a[..], start, (g.end, g.size), s, start, e, Eol, false)
        decreases e - s
      {
        StepPlain(orig, a[..], start, (g.end, g.size), s, start, e, Eol, false);
        s := s + 1;
      }
      ghost var b, was, p := a[..], (g.end, g.size), s;
      if a[s] == CR {
        s := LineEnd(a, start, s, LF, g);
        StepSpace(orig, b, a[..], start, was, (g.end, g.size), p, s, start, e, Eol, false, LF);
      } else if a[s] == mark && a[s + 1] == mark && EndsWith(a[s + 2], GT, endch) {
        ProgressEnd(orig, b, start, was, start, e, Eol, false);
        Terminate(a, start, s, g);
        return At(s);
      } else if a[s] == NUL {
        return Null;
      } else {
        StepPlain(orig, b, start, was, s, start, e, Eol, false);
        s := s + 1;
      }
    }
  }

  /** strconv_cdata returns the position of the second ']'. */
  method StrconvCdata(a: array<byte>, start: nat, endch: byte) returns (r: Pointer)
    requires start < a.Length && a[a.Length - 1] == NUL
    modifies a
    ensures var orig, e := old(a[..]), ScanSection(old(a[..]), start, RBRACKET, endch);
      if orig[e] == NUL then r == Null && Within(orig, a[..], start, e)
      else
        r == At(e + 1) && Within(orig, a[..], start, e + 1) && Holds(a[..], start, Convert(orig[start..e], Eol, false))
  {
    hide Convert;
    var p := StrconvSection(a, start, RBRACKET, endch);
    r := match p case Null => Null case At(e) => At(e + 1);
  }

  /** strconv_comment returns the position behind the closing "-->" or, at the end of the buffer, "--". */
  method StrconvComment(a: array<byte>, start: nat, endch: byte) returns (r: Pointer)
    requires start < a.Length && a[a.Length - 1] == NUL
    modifies a
    ensures var orig, e := old(a[..]), ScanSection(old(a[..]), start, DASH, endch);
      if orig[e] == NUL then r == Null && Within(orig, a[..], start, e)
      else
        r == At(e + (if orig[e + 2] == GT then 3 else 2)) && Within(orig, a[..], start, e + 1) &&
        Holds(a[..], start, Convert(orig[start..e], Eol, false))
  {
    hide Convert;
    var p := StrconvSection(a, start, DASH, endch);
    match p {
      case Null => r := Null;
      case At(e) => r := At(e + (if a[e + 2] == GT then 3 else 2));
    }
  }
}
