/**
 * xml_parser::parse: the parser moves through its buffer, zero-terminates names and values in place and
 * keeps positions of them in the tree. Each step agrees with the function of the unchanged buffer.
 */
module ParserImpl {
  import opened Chars
  import opened Refs
  import opened StrConv
  import opened Dom
  import opened Parser
  import opened Offsets

  /** OnTag: the position is behind a '<' the step has consumed. */
  datatype StepAt =
    | NextAt(s: nat, cursor: CursorAt)
    | OnTag(s: nat, cursor: CursorAt)
    | FailAt(status: Status, offset: nat)

  /** From s on the buffer is untouched, and what was built so far reads as c. */
  ghost predicate Ready(orig: seq<byte>, a: seq<byte>, s: nat, at: CursorAt, c: Cursor) {
    && Terminated(orig) && |a| == |orig| && s < |a|
    && (forall i :: s <= i < |a| ==> a[i] == orig[i])
    && SettledCursor(a, at, s) && ReadCursor(a, at) == c
  }

  /** The terminating zero was reached inside an element: parsing ends there with a mismatch. */
  ghost predicate Stuck(orig: seq<byte>, a: seq<byte>, s: nat, at: CursorAt, c: Cursor) {
    |a| == |orig| && s < |a| && orig[s] == NUL && a[s] == NUL && at.OpenAt? && c.Open?
  }

  ghost predicate Agrees(orig: seq<byte>, a: seq<byte>, spec: Step, r: StepAt) {
    match spec
    case Next(s, c) => r.NextAt? && r.s == s && (Ready(orig, a, s, r.cursor, c) || Stuck(orig, a, s, r.cursor, c))
    case Fail(status, offset) => r == FailAt(status, offset)
  }

  /** The finished part survives writes to the untouched part, and reading moves on. */
  lemma MoveOn(orig: seq<byte>, a: seq<byte>, b: seq<byte>, s: nat, s': nat, at: CursorAt, c: Cursor)
    requires Ready(orig, a, s, at, c) && Within(a, b, s, s') && s <= s' < |a|
    ensures Ready(orig, b, s', at, c)
  {
    CursorKept(a, b, at, s, s');
  }

  method ScanWs(a: array<byte>, s: nat, ghost orig: seq<byte>) returns (p: nat)
    requires Terminated(orig) && a.Length == |orig| && s < a.Length && forall i :: s <= i < a.Length ==> a[i] == orig[i]
    ensures p == SkipWs(orig, s)
  {
    p := s;
    while IsSpace(a[p])
      invariant s <= p < a.Length && SkipWs(orig, s) == SkipWs(orig, p)
      decreases a.Length - p
    {
      p := p + 1;
    }
  }

  method ScanSymbols(a: array<byte>, s: nat, ghost orig: seq<byte>) returns (p: nat)
    requires Terminated(orig) && a.Length == |orig| && s < a.Length && forall i :: s <= i < a.Length ==> a[i] == orig[i]
    ensures p == SkipSymbols(orig, s)
  {
    p := s;
    while IsSymbol(a[p])
      invariant s <= p < a.Length && SkipSymbols(orig, s) == SkipSymbols(orig, p)
      decreases a.Length - p
    {
      p := p + 1;
    }
  }

  /** A name that was just terminated at e reads as the bytes before e. */
  lemma NameRead(orig: seq<byte>, b: seq<byte>, s: nat, e: nat)
    requires Terminated(orig) && |b| == |orig| && s < |orig| && e == SkipSymbols(orig, s) && e + 1 < |orig|
    requires (forall i :: s <= i < e ==> b[i] == orig[i]) && b[e] == NUL
    ensures Str(b, s) == orig[s..e] && Ends(b, s, e + 1)
  {
    hide CStr, SkipSymbols;
    var name := orig[s..e];
    assert b[s..e] == name;
    HeldRead(b, s, name, e + 1);
    CStrId(name);
  }

  /** A new element is pushed under the cursor: its name is terminated at e. */
  lemma PushRead(orig: seq<byte>, a: seq<byte>, b: seq<byte>, s: nat, e: nat, at: CursorAt, c: Cursor)
    requires Ready(orig, a, s, at, c) && e == SkipSymbols(orig, s) && e + 1 < |orig|
    requires |b| == |a| && b == a[e := NUL]
    ensures Ready(orig, b, e + 1, OpenAt(s, [], [], at), Open(orig[s..e], [], [], c))
  {
    hide SkipSymbols, Str, ReadNodes, SettledNodes;
    MoveOn(orig, a, b, s, e + 1, at, c);
    NameRead(orig, b, s, e);
    EmptyRead(b, e + 1);
  }

  lemma EmptyRead(b: seq<byte>, s: nat)
    ensures ReadNodes(b, []) == [] && ReadAttrs(b, []) == [] && SettledNodes(b, [], s) && SettledAttrs(b, [], s)
  {
  }

  lemma PopReady(orig: seq<byte>, a: seq<byte>, s: nat, s': nat, at: CursorAt, c: Cursor)
    requires Ready(orig, a, s, at, c) && c.Open? && s <= s' < |a|
    ensures at.OpenAt? && Ready(orig, a, s', PopAt(at), Pop(c))
  {
    hide ReadNodes, SettledNodes;
    MoveOn(orig, a, a, s, s', at, c);
    PopRead(a, at, s');
  }

  method OpenTagAt(a: array<byte>, s: nat, at: CursorAt, endch: byte, ghost orig: seq<byte>,
      ghost c: Cursor) returns (r: StepAt)
    requires Ready(orig, a[..], s, at, c) && IsStartSymbol(a[s])
    modifies a
    ensures !r.OnTag? && Agrees(orig, a[..], OpenTag(orig, s, c, endch), r)
  {
    hide ReadCursor, SettledCursor, SkipSymbols;
    var e := ScanSymbols(a, s, orig);
    var ch := a[e];
    ghost var b := a[..];
    a[e] := NUL;
    var tag := OpenAt(s, [], [], at);
    if ch == NUL {
      if endch == GT {
        return NextAt(e, tag);
      }
      return FailAt(BadStartElement, e);
    }
    PushRead(orig, b, a[..], s, e, at, c);
    ghost var open := Open(orig[s..e], [], [], c);
    if ch == GT {
      return NextAt(e + 1, tag);
    } else if IsSpace(ch) {
      r := AttributesAt(a, e + 1, tag, endch, orig, open);
    } else if ch == SLASH {
      if !EndsWith(a[e + 1], GT, endch) {
        return FailAt(BadStartElement, e + 1);
      }
      var next := if a[e + 1] == GT then e + 2 else e + 1;
      PopReady(orig, a[..], e + 1, next, tag, open);
      return NextAt(next, PopAt(tag));
    } else {
      return FailAt(BadStartElement, e + 1);
    }
  }

  method AttributesAt(a: array<byte>, start: nat, started: CursorAt, endch: byte, ghost orig: seq<byte>,
      ghost begun: Cursor)
    returns (r: StepAt)
    requires Ready(orig, a[..], start, started, begun) && begun.Open?
    modifies a
    ensures !r.OnTag? && Agrees(orig, a[..], Attributes(orig, start, begun, endch), r)
  {
    hide ReadCursor, SettledCursor, SkipWs, AttributeValue, Attribute;
    var s, at := start, started;
    ghost var c := begun;
    while true
      invariant Ready(orig, a[..], s, at, c) && c.Open?
      invariant Attributes(orig, start, begun, endch) == Attributes(orig, s, c, endch)
      decreases |orig| - s
    {
      var p := ScanWs(a, s, orig);
      MoveOn(orig, a[..], a[..], s, p, at, c);
      if IsStartSymbol(a[p]) {
        var step := AttributeAt(a, p, at, orig, c);
        match step {
          case NextAt(q, extended) =>
            c := Attribute(orig, p, c).cursor;
            s, at := q, extended;
          case FailAt(status, offset) =>
            return step;
        }
      } else if a[p] == SLASH {
        if a[p + 1] == GT {
          PopReady(orig, a[..], p, p + 2, at, c);
          return NextAt(p + 2, PopAt(at));
        } else if a[p + 1] == NUL && endch == GT {
          PopReady(orig, a[..], p, p + 1, at, c);
          return NextAt(p + 1, PopAt(at));
        } else {
          return FailAt(BadStartElement, p + 1);
        }
      } else if a[p] == GT {
        MoveOn(orig, a[..], a[..], p, p + 1, at, c);
        return NextAt(p + 1, at);
      } else if a[p] == NUL && endch == GT {
        return NextAt(p, at);
      } else {
        return FailAt(BadStartElement, p);
      }
    }
  }

  method AttributeAt(a: array<byte>, s: nat, at: CursorAt, ghost orig: seq<byte>, ghost c: Cursor) returns (r: StepAt)
    requires Ready(orig, a[..], s, at, c) && c.Open? && IsStartSymbol(a[s])
    modifies a
    ensures match Attribute(orig, s, c)
      case Next(q, extended) => r.NextAt? && r.s == q && Ready(orig, a[..], q, r.cursor, extended)
      case Fail(status, offset) => r == FailAt(status, offset)
  {
    hide ReadCursor, SettledCursor, SkipWs, SkipSymbols, AttributeValue, Ends, Str, SameBelow;
    var e := ScanSymbols(a, s, orig);
    if a[e] == NUL {
      return FailAt(BadAttribute, e);
    }
    var ch := a[e];
    TerminateName(a, s, e, at, orig, c);
    if a[e + 1] == NUL {
      return FailAt(BadAttribute, e + 1);
    }
    var p, found := FindEquals(a, e, ch, orig);
    if !found {
      return FailAt(BadAttribute, p);
    }
    MoveOnSame(orig, a[..], e + 1, p + 1, at, c);
    assert Ends(a[..], s, p + 1) by { StrKept(a[..], a[..], s, e + 1, p + 1); }
    r := AttributeValueAt(a, p + 1, at, s, orig, c, orig[s..e]);
  }

  /** A zero goes behind the name at s. */
  method TerminateName(a: array<byte>, s: nat, e: nat, at: CursorAt, ghost orig: seq<byte>, ghost c: Cursor)
    requires Ready(orig, a[..], s, at, c) && e == SkipSymbols(orig, s) && e + 1 < a.Length
    modifies a
    ensures Ready(orig, a[..], e + 1, at, c) && Str(a[..], s) == orig[s..e] && Ends(a[..], s, e + 1)
  {
    hide ReadCursor, SettledCursor, SkipSymbols, Ends, Str;
    ghost var b := a[..];
    a[e] := NUL;
    MoveOn(orig, b, a[..], s, e + 1, at, c);
    NameRead(orig, a[..], s, e);
  }

  /** The equals sign behind a name that ended at e with ch, or where it is missed. */
  method FindEquals(a: array<byte>, e: nat, ch: byte, ghost orig: seq<byte>) returns (p: nat, found: bool)
    requires Terminated(orig) && a.Length == |orig| && e + 1 < a.Length && ch == orig[e] != NUL
    requires forall i :: e < i < a.Length ==> a[i] == orig[i]
    ensures var q := if IsSpace(orig[e]) then SkipWs(orig, e + 1) else e;
      found == (orig[q] == EQ) && p == if found || orig[q] == NUL then q else q + 1
  {
    hide SkipWs;
    p := e;
    var c := ch;
    if IsSpace(c) {
      p := ScanWs(a, e + 1, orig);
      if a[p] == NUL {
        return p, false;
      }
      c := a[p];
    }
    found := c == EQ;
    if !found {
      p := p + 1;
    }
  }

  lemma {:induction false} ScanToSame(x: seq<byte>, y: seq<byte>, s: nat, stop: byte)
    requires Terminated(x) && |x| == |y| && s < |x| && forall i :: s <= i < |x| ==> x[i] == y[i]
    ensures ScanTo(x, s, stop) == ScanTo(y, s, stop)
    decreases |x| - s
  {
    if x[s] != stop && x[s] != NUL {
      ScanToSame(x, y, s + 1, stop);
    }
  }

  method AttributeValueAt(a: array<byte>, s: nat, at: CursorAt, nameAt: nat, ghost orig: seq<byte>, ghost c: Cursor,
                          ghost name: seq<byte>) returns (r: StepAt)
    requires Ready(orig, a[..], s, at, c) && c.Open? && Ends(a[..], nameAt, s) && Str(a[..], nameAt) == name
    modifies a
    ensures match AttributeValue(orig, s, c, name)
      case Next(q, extended) => r.NextAt? && r.s == q && Ready(orig, a[..], q, r.cursor, extended)
      case Fail(status, offset) => r == FailAt(status, offset)
  {
    hide ReadCursor, SettledCursor, SkipWs, Str, Ends, QuotedValue;
    var q := ScanWs(a, s, orig);
    var quote := a[q];
    if quote != QUOT && quote != APOS {
      return FailAt(BadAttribute, q);
    }
    r := QuotedValueAt(a, s, q + 1, quote, at, nameAt, orig, c, name);
  }

  method QuotedValueAt(a: array<byte>, ghost s: nat, v: nat, quote: byte, at: CursorAt, nameAt: nat,
      ghost orig: seq<byte>,
                       ghost c: Cursor, ghost name: seq<byte>) returns (r: StepAt)
    requires Ready(orig, a[..], s, at, c) && c.Open? && Ends(a[..], nameAt, s) && Str(a[..], nameAt) == name
    requires s <= v < a.Length && (quote == QUOT || quote == APOS)
    modifies a
    ensures match QuotedValue(orig, v, quote, c, name)
      case Next(q, extended) => r.NextAt? && r.s == q && Ready(orig, a[..], q, r.cursor, extended)
      case Fail(status, offset) => r == FailAt(status, offset)
  {
    hide ReadCursor, SettledCursor, ScanTo, Convert, Str, Ends, Holds, Within;
    ghost var b := a[..];
    ghost var e := ScanTo(orig, v, quote);
    ScanToSame(b, orig, v, quote);
    assert b[v..e] == orig[v..e];
    var past := StrconvAttributeWconv(a, v, quote, true);
    if past == Null {
      return FailAt(BadAttribute, v);
    }
    var next := past.index;
    ghost var value := Convert(orig[v..e], Wconv, true);
    AttributeRead(orig, b, a[..], s, v, next, at, c, nameAt, name, value);
    if IsStartSymbol(a[next]) {
      return FailAt(BadAttribute, next);
    }
    return NextAt(next, at.(attrs := at.attrs + [AttrAt(nameAt, v)]));
  }

  lemma AttributeRead(orig: seq<byte>, a: seq<byte>, b: seq<byte>, s: nat, v: nat, s': nat, at: CursorAt, c: Cursor,
                      nameAt: nat, name: seq<byte>, value: seq<byte>)
    requires Ready(orig, a, s, at, c) && c.Open? && Ends(a, nameAt, s) && Str(a, nameAt) == name
    requires s <= v && Within(a, b, v, s') && v + |value| < s' < |a| && Holds(b, v, value)
    ensures at.OpenAt? && Ready(orig, b, s', at.(attrs := at.attrs + [AttrAt(nameAt, v)]),
                                c.(attrs := c.attrs + [Attr(name, CStr(value))]))
  {
    hide Str, Holds, CStr, ReadNodes, SettledNodes;
    assert Within(a, b, s, s');
    MoveOn(orig, a, b, s, s', at, c);
    StrKept(a, b, nameAt, s, s');
    HeldRead(b, v, value, s');
    AppendAttr(b, at.attrs, AttrAt(nameAt, v), s');
  }

  lemma AppendAttr(b: seq<byte>, xs: seq<AttrAt>, x: AttrAt, s: nat)
    requires SettledAttrs(b, xs, s) && Ends(b, x.name, s) && Ends(b, x.value, s)
    ensures SettledAttrs(b, xs + [x], s) && ReadAttrs(b, xs + [x]) == ReadAttrs(b, xs) + [ReadAttr(b, x)]
  {
    hide Ends, Str;
  }

  // ---------- End tags ----------

  lemma {:induction false} CommonIs(x: seq<byte>, y: seq<byte>, k: nat)
    requires k <= |x| && k <= |y| && (forall i :: 0 <= i < k ==> x[i] == y[i])
    requires k == |x| || k == |y| || x[k] != y[k]
    ensures Common(x, y) == k
  {
    if k > 0 {
      CommonIs(x[1..], y[1..], k - 1);
    }
  }

  /** Where the bytes of a string lie. */
  lemma StrBytes(a: seq<byte>, p: nat, s: nat)
    requires Ends(a, p, s)
    ensures var name := Str(a, p); p + |name| < s && a[p + |name|] == NUL && NUL !in name
    ensures forall i :: 0 <= i < |Str(a, p)| ==> a[p + i] == Str(a, p)[i]
  {
    var name := Str(a, p);
    var j :| 0 <= j < s - p && a[p..s][j] == NUL;
    assert a[p..][j] == a[p..s][j];
    assert forall i :: 0 <= i < |name| ==> name[i] in name && name[i] == a[p..][i];
    assert |name| <= j;
  }

  /** Compare the bytes at s with the cursor's name; k bytes agree and s + k was reached. */
  method MatchName(a: array<byte>, s: nat, nameAt: nat, ghost orig: seq<byte>, ghost name: seq<byte>) returns (k: nat)
    requires Terminated(orig) && a.Length == |orig| && s < a.Length && Ends(a[..], nameAt, s) &&
        Str(a[..], nameAt) == name
    requires forall i :: s <= i < a.Length ==> a[i] == orig[i]
    ensures var e := SkipSymbols(orig, s); s + k <= e && k <= |name| && k == Common(orig[s..e], name)
    ensures nameAt + |name| < s && forall i :: 0 <= i < |name| ==> a[nameAt + i] == name[i]
    ensures a[nameAt + |name|] == NUL && NUL !in name && (a[nameAt + k] == NUL ==> k == |name|)
  {
    hide Str, SkipSymbols, Ends, Common;
    StrBytes(a[..], nameAt, s);
    ghost var e := SkipSymbols(orig, s);
    k := 0;
    while IsSymbol(a[s + k]) && a[s + k] == a[nameAt + k]
      invariant s + k <= e && k <= |name|
      invariant forall i :: 0 <= i < k ==> orig[s + i] == name[i]
      decreases e - s - k
    {
      assert k < |name|;
      k := k + 1;
    }
    assert s + k < e ==> IsSymbol(a[s + k]);
    assert k < |name| ==> a[nameAt + k] == name[k] && name[k] in name;
    CommonIs(orig[s..e], name, k);
  }

  method EndTagAt(a: array<byte>, s: nat, at: CursorAt, endch: byte, ghost orig: seq<byte>,
      ghost c: Cursor) returns (r: StepAt)
    requires Ready(orig, a[..], s, at, c)
    ensures !r.OnTag? && Agrees(orig, a[..], EndTag(orig, s, c, endch), r)
  {
    hide Str, SkipSymbols, SkipWs, Common, ReadNodes, SettledNodes, ReadAttrs, SettledAttrs;
    if at.DocAt? {
      return FailAt(EndElementMismatch, s);
    }
    var k := MatchName(a, s, at.name, orig, c.name);
    if IsSymbol(a[s + k]) {
      return FailAt(EndElementMismatch, s + k + 1);
    }
    EndsThere(orig, s, k);
    var e := s + k;
    if a[at.name + k] != NUL {
      NameRest(a[..], at.name, c.name, k, endch);
      var last := a[e] == NUL && a[at.name + k] == endch && a[at.name + k + 1] == NUL;
      return FailAt(if last then BadEndElement else EndElementMismatch, e);
    }
    r := EndTagRest(a, e, at, endch, orig, c, s);
  }

  lemma EndsThere(orig: seq<byte>, s: nat, k: nat)
    requires Terminated(orig) && s < |orig| && s + k <= SkipSymbols(orig, s) && !IsSymbol(orig[s + k])
    ensures SkipSymbols(orig, s) == s + k
  {
  }

  lemma NameRest(a: seq<byte>, p: nat, name: seq<byte>, k: nat, endch: byte)
    requires p + |name| < |a| && k < |name| && NUL !in name && a[p + |name|] == NUL
    requires forall i :: 0 <= i < |name| ==> a[p + i] == name[i]
    ensures (a[p + k] == endch && a[p + k + 1] == NUL) == (name[k..] == [endch])
  {
    if k + 1 < |name| {
      assert a[p + (k + 1)] == name[k + 1] && name[k + 1] in name;
    } else {
      assert name[k..] == [name[k]];
    }
  }

  method EndTagRest(a: array<byte>, e: nat, at: CursorAt, endch: byte, ghost orig: seq<byte>, ghost c: Cursor,
      ghost s: nat)
    returns (r: StepAt)
    requires Ready(orig, a[..], s, at, c) && c.Open? && s <= e < a.Length
    ensures !r.OnTag? && Agrees(orig, a[..],
      (var p := SkipWs(orig, e);
       if orig[p] == NUL then (if endch == GT then Next(p, Pop(c)) else Fail(BadEndElement, p))
       else if orig[p] == GT then Next(p + 1, Pop(c))
       else Fail(BadEndElement, p)), r)
  {
    hide SkipWs, ReadCursor, SettledCursor;
    var p := ScanWs(a, e, orig);
    if a[p] == NUL {
      if endch != GT {
        return FailAt(BadEndElement, p);
      }
      PopReady(orig, a[..], s, p, at, c);
      return NextAt(p, PopAt(at));
    }
    if a[p] != GT {
      return FailAt(BadEndElement, p);
    }
    PopReady(orig, a[..], s, p + 1, at, c);
    return NextAt(p + 1, PopAt(at));
  }

  // ---------- Processing instructions, comments and CDATA ----------

  method ScanPi(a: array<byte>, s: nat, endch: byte, ghost orig: seq<byte>) returns (q: nat)
    requires Terminated(orig) && a.Length == |orig| && s < a.Length && forall i :: s <= i < a.Length ==> a[i] == orig[i]
    ensures q == ScanQuestion(orig, s, endch)
  {
    q := s;
    while a[q] != NUL && !(a[q] == QUESTION && EndsWith(a[q + 1], GT, endch))
      invariant s <= q < a.Length && ScanQuestion(orig, s, endch) == ScanQuestion(orig, q, endch)
      decreases a.Length - q
    {
      q := q + 1;
    }
  }

  method QuestionAt(a: array<byte>, s: nat, at: CursorAt, endch: byte, ghost orig: seq<byte>,
      ghost c: Cursor) returns (r: StepAt)
    requires Ready(orig, a[..], s, at, c) && s + 1 < a.Length
    ensures !r.OnTag? && Agrees(orig, a[..], Question(orig, s, c, endch), r)
  {
    hide SkipSymbols, ScanQuestion, ReadCursor, SettledCursor;
    if !IsStartSymbol(a[s + 1]) {
      return FailAt(BadPi, s + 1);
    }
    var e := ScanSymbols(a, s + 1, orig);
    if a[e] == NUL {
      return FailAt(BadPi, e);
    }
    var q := ScanPi(a, e, endch, orig);
    if a[q] == NUL {
      return FailAt(BadPi, q);
    }
    var next := if a[q + 1] == GT then q + 2 else q + 1;
    MoveOn(orig, a[..], a[..], s, next, at, c);
    return NextAt(next, at);
  }

  method CommentAt(a: array<byte>, s: nat, at: CursorAt, endch: byte, ghost orig: seq<byte>,
      ghost c: Cursor) returns (r: StepAt)
    requires Ready(orig, a[..], s, at, c) && s + 1 < a.Length && a[s + 1] == DASH
    ensures !r.OnTag? && Agrees(orig, a[..], Exclamation(orig, s, c, endch), r)
  {
    hide ReadCursor, SettledCursor, ScanSection, Common, Convert, CStr;
    if a[s + 2] != DASH {
      return FailAt(BadComment, s + 2);
    }
    var q := ScanComment(a, s + 3, endch, orig);
    if a[q] == NUL {
      return FailAt(BadComment, q);
    }
    var next := if a[q + 2] == GT then q + 3 else q + 2;
    MoveOnSame(orig, a[..], s, next, at, c);
    return NextAt(next, at);
  }

  /** Look for the end of a comment. */
  method ScanComment(a: array<byte>, v: nat, endch: byte, ghost orig: seq<byte>) returns (q: nat)
    requires Terminated(orig) && a.Length == |orig| && v < a.Length && forall i :: v <= i < a.Length ==> a[i] == orig[i]
    ensures q == ScanSection(orig, v, DASH, endch)
  {
    q := v;
    while a[q] != NUL && !(a[q] == DASH && a[q + 1] == DASH && EndsWith(a[q + 2], GT, endch))
      invariant v <= q < a.Length && ScanSection(orig, v, DASH, endch) == ScanSection(orig, q, DASH, endch)
      decreases a.Length - q
    {
      q := q + 1;
    }
  }

  lemma {:induction false} ScanSectionSame(x: seq<byte>, y: seq<byte>, s: nat, mark: byte, endch: byte)
    requires Terminated(x) && |x| == |y| && s < |x| && forall i :: s <= i < |x| ==> x[i] == y[i]
    ensures ScanSection(x, s, mark, endch) == ScanSection(y, s, mark, endch)
    decreases |x| - s
  {
    if x[s] != NUL && !SectionEnd(x, s, mark, endch) {
      ScanSectionSame(x, y, s + 1, mark, endch);
    }
  }

  method CdataSectionAt(a: array<byte>, s: nat, at: CursorAt, endch: byte, ghost orig: seq<byte>,
      ghost c: Cursor) returns (r: StepAt)
    requires Ready(orig, a[..], s, at, c) && s + 1 < a.Length && a[s + 1] == LBRACKET
    modifies a
    ensures !r.OnTag? && Agrees(orig, a[..], Exclamation(orig, s, c, endch), r)
  {
    hide ReadCursor, SettledCursor, ScanSection, Common, Convert, Holds, Within;
    var p := s + 2;
    var k := 0;
    while k < 6 && a[p + k] == CDATA_OPEN[k]
      invariant k <= 6 && p + k < a.Length
      invariant forall i :: 0 <= i < k ==> CDATA_OPEN[i] == orig[p..][i]
    {
      k := k + 1;
    }
    assert orig[p..][k] == a[p + k];
    CommonIs(CDATA_OPEN, orig[p..], k);
    if k < 6 {
      return FailAt(BadCdata, p + k);
    }
    r := CdataTextAt(a, s, at, endch, orig, c);
  }

  method CdataTextAt(a: array<byte>, s: nat, at: CursorAt, endch: byte, ghost orig: seq<byte>,
      ghost c: Cursor) returns (r: StepAt)
    requires Ready(orig, a[..], s, at, c) && s + 8 < a.Length
    modifies a
    ensures !r.OnTag? && Agrees(orig, a[..],
      (var v := s + 8;
       var q := ScanSection(orig, v, RBRACKET, endch);
       if orig[q] == NUL then Fail(BadCdata, v)
       else Next(if orig[q + 2] == GT then q + 3 else q + 2,
                 AddChild(c, Cdata(CStr(Convert(orig[v..q], Eol, false)))))), r)
  {
    hide ReadCursor, SettledCursor, ScanSection, Convert, Holds, Within, CStr;
    var v := s + 8;
    ghost var b := a[..];
    ghost var q := ScanSection(orig, v, RBRACKET, endch);
    ScanSectionSame(b, orig, v, RBRACKET, endch);
    assert b[v..q] == orig[v..q];
    var past := StrconvCdata(a, v, endch);
    if past == Null {
      return FailAt(BadCdata, v);
    }
    var next := past.index;
    ghost var text := Convert(orig[v..q], Eol, false);
    LeafReady(orig, b, a[..], s, v, next, at, c, CdataAt(v), Cdata(CStr(text)), text);
    assert a[next + 1] == orig[next + 1];
    var after := if a[next + 1] == GT then next + 2 else next + 1;
    MoveOnSame(orig, a[..], next, after, AddChildAt(at, CdataAt(v)), AddChild(c, Cdata(CStr(text))));
    return NextAt(after, AddChildAt(at, CdataAt(v)));
  }

  lemma MoveOnSame(orig: seq<byte>, a: seq<byte>, s: nat, s': nat, at: CursorAt, c: Cursor)
    requires Ready(orig, a, s, at, c) && s <= s' < |a|
    ensures Ready(orig, a, s', at, c)
  {
    hide ReadCursor, SettledCursor;
    MoveOn(orig, a, a, s, s', at, c);
  }

  /** A text node or CDATA section whose text now ends before s'. */
  lemma LeafReady(orig: seq<byte>, a: seq<byte>, b: seq<byte>, s: nat, v: nat, s': nat, at: CursorAt, c: Cursor,
                  leaf: NodeAt, n: Node, text: seq<byte>)
    requires Ready(orig, a, s, at, c) && s <= v && Within(a, b, v, s') && v + |text| < s' < |a| && Holds(b, v, text)
    requires (leaf == CdataAt(v) && n == Cdata(CStr(text))) || (leaf == PcdataAt(v) && n == Pcdata(CStr(text)))
    ensures Ready(orig, b, s', AddChildAt(at, leaf), AddChild(c, n))
  {
    hide ReadCursor, SettledCursor, Str, Holds, CStr;
    assert Within(a, b, s, s');
    MoveOn(orig, a, b, s, s', at, c);
    HeldRead(b, v, text, s');
    AddChildRead(b, at, leaf, s');
  }

  method ExclamationAt(a: array<byte>, s: nat, at: CursorAt, endch: byte, ghost orig: seq<byte>,
      ghost c: Cursor) returns (r: StepAt)
    requires Ready(orig, a[..], s, at, c) && s + 1 < a.Length
    modifies a
    ensures !r.OnTag? && Agrees(orig, a[..], Exclamation(orig, s, c, endch), r)
  {
    hide ReadCursor, SettledCursor, ScanSection, Common, Convert;
    var p := s + 1;
    if a[p] == DASH {
      r := CommentAt(a, s, at, endch, orig, c);
    } else if a[p] == LBRACKET {
      r := CdataSectionAt(a, s, at, endch, orig, c);
    } else {
      var k := 0;
      while k < 6 && a[p + k] == DOCTYP[k]
        invariant k <= 6 && p + k < a.Length
        invariant forall i :: 0 <= i < k ==> DOCTYP[i] == orig[p + i]
      {
        k := k + 1;
      }
      assert k < 6 ==> orig[p..][k] != DOCTYP[k];
      if k == 6 && EndsWith(a[p + 6], 69, endch) {
        return FailAt(DoctypeNotModelled, s);
      } else if a[p] == NUL && endch == DASH {
        return FailAt(BadComment, p);
      } else if a[p] == NUL && endch == LBRACKET {
        return FailAt(BadCdata, p);
      } else {
        return FailAt(UnrecognizedTag, p);
      }
    }
  }

  // ---------- The parser loop ----------

  method TagAt(a: array<byte>, s: nat, at: CursorAt, endch: byte, ghost orig: seq<byte>,
      ghost c: Cursor) returns (r: StepAt)
    requires Ready(orig, a[..], s, at, c)
    modifies a
    ensures !r.OnTag? && Agrees(orig, a[..], Tag(orig, s, c, endch), r)
  {
    hide ReadCursor, SettledCursor, OpenTag, EndTag, Question, Exclamation;
    if IsStartSymbol(a[s]) {
      r := OpenTagAt(a, s, at, endch, orig, c);
    } else if a[s] == SLASH {
      MoveOnSame(orig, a[..], s, s + 1, at, c);
      r := EndTagAt(a, s + 1, at, endch, orig, c);
    } else if a[s] == QUESTION {
      r := QuestionAt(a, s, at, endch, orig, c);
    } else if a[s] == BANG {
      r := ExclamationAt(a, s, at, endch, orig, c);
    } else if a[s] == NUL && endch == QUESTION {
      r := FailAt(BadPi, s);
    } else {
      r := FailAt(UnrecognizedTag, s);
    }
  }

  /** Like Agrees, but a '<' at the end of the step may have been consumed and overwritten. */
  ghost predicate AgreesText(orig: seq<byte>, a: seq<byte>, spec: Step, r: StepAt) {
    match spec
    case Next(s, c) =>
      (r.NextAt? && r.s == s && Ready(orig, a, s, r.cursor, c)) ||
      (r.OnTag? && r.s == s + 1 && s < |orig| && orig[s] == LT && Ready(orig, a, s + 1, r.cursor, c))
    case Fail(status, offset) => r == FailAt(status, offset)
  }

  method TextAt(a: array<byte>, s: nat, at: CursorAt, ghost orig: seq<byte>, ghost c: Cursor) returns (r: StepAt)
    requires Ready(orig, a[..], s, at, c) && a[s] != LT && a[s] != NUL
    modifies a
    ensures AgreesText(orig, a[..], Text(orig, s, c), r)
  {
    hide SkipWs, ReadNodes, SettledNodes, Str, ScanTo, Convert, CStr;
    var p := ScanWs(a, s, orig);
    if a[p] == LT || a[p] == NUL {
      MoveOnSame(orig, a[..], s, p, at, c);
      return NextAt(p, at);
    }
    if at.OpenAt? {
      r := PcdataTextAt(a, s, at, orig, c);
    } else {
      var e := ScanText(a, s, orig);
      MoveOnSame(orig, a[..], s, e, at, c);
      if a[e] == NUL {
        return NextAt(e, at);
      }
      MoveOnSame(orig, a[..], e, e + 1, at, c);
      return OnTag(e + 1, at);
    }
  }

  method ScanText(a: array<byte>, s: nat, ghost orig: seq<byte>) returns (e: nat)
    requires Terminated(orig) && a.Length == |orig| && s < a.Length && forall i :: s <= i < a.Length ==> a[i] == orig[i]
    ensures e == ScanTo(orig, s, LT)
  {
    e := s;
    while a[e] != NUL && a[e] != LT
      invariant s <= e < a.Length && ScanTo(orig, s, LT) == ScanTo(orig, e, LT)
      decreases a.Length - e
    {
      e := e + 1;
    }
  }

  method PcdataTextAt(a: array<byte>, s: nat, at: CursorAt, ghost orig: seq<byte>, ghost c: Cursor) returns (r: StepAt)
    requires Ready(orig, a[..], s, at, c)
    modifies a
    ensures AgreesText(orig, a[..],
      (var e := ScanTo(orig, s, LT);
       if orig[e] == NUL then Fail(EndElementMismatch, e)
       else if orig[e + 1] == NUL then Fail(EndElementMismatch, e + 1)
       else Next(e, AddChild(c, Pcdata(CStr(Convert(orig[s..e], Eol, true)))))), r)
  {
    hide ReadCursor, SettledCursor, ScanTo, Convert, Holds, Within, CStr;
    ghost var b := a[..];
    ghost var e := ScanTo(orig, s, LT);
    ScanToSame(b, orig, s, LT);
    assert b[s..e] == orig[s..e];
    var past := StrconvPcdata(a, s, true, true);
    ghost var text := Convert(orig[s..e], Eol, true);
    if orig[e] != NUL {
      LeafReady(orig, b, a[..], s, s, past, at, c, PcdataAt(s), Pcdata(CStr(text)), text);
    } else {
      WithinAt(b, a[..], s, e);
    }
    if a[past] == NUL {
      return FailAt(EndElementMismatch, past);
    }
    return OnTag(past, AddChildAt(at, PcdataAt(s)));
  }

  lemma WithinAt(a: seq<byte>, b: seq<byte>, s: nat, e: nat)
    requires Within(a, b, s, e) && s <= e < |a|
    ensures b[e] == a[e]
  {
  }

  datatype ResultAt = ParsedAt(nodes: seq<NodeAt>) | ErrorAt(status: Status, offset: nat)

  ghost predicate SameResult(a: seq<byte>, spec: Result, r: ResultAt) {
    match spec
    case Parsed(nodes) => r.ParsedAt? && ReadNodes(a, r.nodes) == nodes
    case Error(status, offset) => r == ErrorAt(status, offset)
  }

  method ParseAt(a: array<byte>, endch: byte) returns (r: ResultAt)
    requires Terminated(a[..])
    modifies a
    ensures SameResult(a[..], Parse(old(a[..]), 0, Doc([]), endch), r)
  {
    hide Tag, Text, ReadNodes, SettledNodes, Str;
    ghost var orig := a[..];
    var s, at := 0, DocAt([]);
    ghost var c := Doc([]);
    EmptyRead(orig, 0);
    while a[s] != NUL
      invariant s < a.Length == |orig| && (Ready(orig, a[..], s, at, c) || Stuck(orig, a[..], s, at, c))
      invariant Parse(orig, 0, Doc([]), endch) == Parse(orig, s, c, endch)
      decreases |orig| - s
    {
      var step;
      step, c := PieceAt(a, s, at, endch, orig, c);
      if step.FailAt? {
        return ErrorAt(step.status, step.offset);
      }
      s, at := step.s, step.cursor;
    }
    if at.OpenAt? {
      return ErrorAt(EndElementMismatch, s);
    }
    return ParsedAt(at.children);
  }

  /** A tag, or a text with the tag behind it when the text's end took its '<'. */
  method PieceAt(a: array<byte>, s: nat, at: CursorAt, endch: byte, ghost orig: seq<byte>, ghost c: Cursor)
    returns (step: StepAt, ghost c': Cursor)
    requires Ready(orig, a[..], s, at, c) && a[s] != NUL
    modifies a
    ensures !step.OnTag?
    ensures step.NextAt? ==>
      s < step.s < a.Length &&
          (Ready(orig, a[..], step.s, step.cursor, c') || Stuck(orig, a[..], step.s, step.cursor, c')) &&
      Parse(orig, s, c, endch) == Parse(orig, step.s, c', endch)
    ensures step.FailAt? ==> Parse(orig, s, c, endch) == Error(step.status, step.offset)
  {
    hide Tag, Text, ReadCursor, SettledCursor;
    c' := c;
    if a[s] == LT {
      MoveOnSame(orig, a[..], s, s + 1, at, c);
      step := TagAt(a, s + 1, at, endch, orig, c);
      if step.NextAt? {
        c' := Tag(orig, s + 1, c, endch).cursor;
      }
    } else {
      step := TextAt(a, s, at, orig, c);
      if !step.FailAt? {
        c' := Text(orig, s, c).cursor;
      }
      if step.OnTag? {
        ghost var p := step.s;
        step := TagAt(a, step.s, step.cursor, endch, orig, c');
        if step.NextAt? {
          c' := Tag(orig, p, c', endch).cursor;
        }
      }
    }
  }

  /** The entry point: the last byte is saved and replaced by the terminating zero. */
  method ParseInPlace(buffer: array<byte>) returns (r: ResultAt)
    modifies buffer
    ensures SameResult(buffer[..], ParseBuffer(old(buffer[..])), r)
  {
    hide Parse, ReadNodes;
    if buffer.Length == 0 {
      EmptyRead(buffer[..], 0);
      return ParsedAt([]);
    }
    var endch := buffer[buffer.Length - 1];
    ghost var input := buffer[..];
    buffer[buffer.Length - 1] := NUL;
    assert buffer[..] == Zeroed(input);
    r := ParseAt(buffer, endch);
    if r.ParsedAt? && endch == LT {
      r := ErrorAt(UnrecognizedTag, buffer.Length);
    }
  }
}
