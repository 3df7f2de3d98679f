/** Whatever the parser accepts is written in the grammar, and the tree it builds is what the pieces mean. */
module GrammarSound {
  import opened Chars
  import opened Refs
  import opened StrConv
  import opened Dom
  import opened Parser
  import opened Grammar

  /** The first zero of the buffer is at z. */
  predicate Bounded(b: seq<byte>, z: nat) {
    Terminated(b) && z < |b| && b[z] == NUL && forall i :: 0 <= i < z ==> b[i] != NUL
  }

  /** What the parser takes the input for: up to the first zero, and then the last byte. */
  function Source(b: seq<byte>, z: nat, endch: byte): (w: seq<byte>)
    requires z < |b|
    ensures |w| == z + 1 && w[z] == endch && forall i :: 0 <= i < z ==> w[i] == b[i]
  {
    b[..z] + [endch]
  }

  lemma Cut(w: seq<byte>, i: nat, j: nat, k: nat)
    requires i <= j <= k <= |w|
    ensures w[i..k] == w[i..j] + w[j..k]
  {
  }

  lemma CutRest(w: seq<byte>, i: nat, j: nat)
    requires i <= j <= |w|
    ensures w[i..] == w[i..j] + w[j..]
  {
  }

  lemma CutOne(w: seq<byte>, i: nat, k: nat)
    requires i < k <= |w|
    ensures w[i..k] == [w[i]] + w[i + 1..k]
  {
  }

  lemma SourceSlice(b: seq<byte>, z: nat, endch: byte, i: nat, j: nat)
    requires i <= j <= z < |b|
    ensures Source(b, z, endch)[i..j] == b[i..j]
  {
  }

  lemma AllSpaceSlice(b: seq<byte>, i: nat, j: nat)
    requires i <= j <= |b| && forall k :: i <= k < j ==> IsSpace(b[k])
    ensures AllSpace(b[i..j])
  {
  }

  lemma NotIn(b: seq<byte>, i: nat, j: nat, stop: byte)
    requires i <= j <= |b| && forall k :: i <= k < j ==> b[k] != stop
    ensures stop !in b[i..j]
  {
  }

  lemma NameSlice(b: seq<byte>, i: nat, j: nat)
    requires i < j <= |b| && IsStartSymbol(b[i]) && forall k :: i <= k < j ==> IsSymbol(b[k])
    ensures IsName(b[i..j])
  {
    assert b[i..j][0] == b[i];
  }

  // ---------- Attributes ----------

  /** The quoted value. */
  lemma ValueSound(b: seq<byte>, z: nat, v: nat, quote: byte, c: Cursor, name: seq<byte>) returns (raw: seq<byte>)
    requires Bounded(b, z) && v <= z && c.Open? && (quote == QUOT || quote == APOS) &&
      QuotedValue(b, v, quote, c, name).Next?
    ensures var q := QuotedValue(b, v, quote, c, name).s;
      v < q <= z && b[v..q] == raw + [quote] && quote !in raw && NUL !in raw && !IsStartSymbol(b[q])
    ensures QuotedValue(b, v, quote, c, name).cursor ==
      c.(attrs := c.attrs + [Attr(name, CStr(Convert(raw, Wconv, true)))])
  {
    hide Convert, CStr;
    var e := ScanTo(b, v, quote);
    raw := b[v..e];
    NotIn(b, v, e, quote);
    NotIn(b, v, e, NUL);
    Cut(b, v, e, e + 1);
    assert b[e..e + 1] == [quote];
  }

  lemma AttributeSound(b: seq<byte>, z: nat, p: nat, c: Cursor) returns (a: AttrSource)
    requires Bounded(b, z) && p < z && c.Open? && IsStartSymbol(b[p]) && Attribute(b, p, c).Next?
    ensures var q := Attribute(b, p, c).s; p < q <= z && b[p..q] == Assignment(a) && !IsStartSymbol(b[q])
    ensures GoodAttr(a.(lead := [SPACE]))
    ensures Attribute(b, p, c).cursor == c.(attrs := c.attrs + [Attr(a.name, CStr(Convert(a.raw, Wconv, true)))])
  {
    hide Convert, CStr, QuotedValue, Assignment;
    var e, eq, at := AttributeParts(b, z, p, c);
    var raw := ValueSound(b, z, at + 1, b[at], c, b[p..e]);
    a := AttrSource([SPACE], b[p..e], b[e..eq], b[eq + 1..at], b[at], raw);
    AssignmentSlice(b, p, e, eq, at, Attribute(b, p, c).s, a);
  }

  /** Where the name ends, where the equals sign stands, and where the value starts. */
  lemma AttributeParts(b: seq<byte>, z: nat, p: nat, c: Cursor) returns (e: nat, eq: nat, at: nat)
    requires Bounded(b, z) && p < z && c.Open? && IsStartSymbol(b[p]) && Attribute(b, p, c).Next?
    ensures p < e <= eq < at < z && b[eq] == EQ && (b[at] == QUOT || b[at] == APOS)
    ensures IsName(b[p..e]) && AllSpace(b[e..eq]) && AllSpace(b[eq + 1..at]) && AllSpace([SPACE])
    ensures Attribute(b, p, c) == QuotedValue(b, at + 1, b[at], c, b[p..e])
  {
    hide QuotedValue;
    e := SkipSymbols(b, p);
    eq := if IsSpace(b[e]) then SkipWs(b, e + 1) else e;
    at := SkipWs(b, eq + 1);
    assert IsSymbol(b[p]);
    NameSlice(b, p, e);
    AllSpaceSlice(b, e, eq);
    AllSpaceSlice(b, eq + 1, at);
  }

  lemma AssignmentSlice(b: seq<byte>, p: nat, e: nat, eq: nat, at: nat, q: nat, a: AttrSource)
    requires p <= e <= eq < at < q <= |b| && b[eq] == EQ && b[at] == a.quote && b[at + 1..q] == a.raw + [a.quote]
    requires a.name == b[p..e] && a.before == b[e..eq] && a.after == b[eq + 1..at]
    ensures b[p..q] == Assignment(a)
  {
    Cut(b, p, e, q);
    Cut(b, e, eq, q);
    CutOne(b, eq, q);
    Cut(b, eq + 1, at, q);
    CutOne(b, at, q);
  }

  /** How a start tag ends. */
  function TagEnd(empty: bool): seq<byte> {
    if empty then [SLASH, GT] else [GT]
  }

  /** The cursor behind a start tag that began with c. */
  function Entered(c: Cursor, attrs: seq<Attr>, empty: bool): Cursor
    requires c.Open?
  {
    var o := c.(attrs := c.attrs + attrs);
    if empty then Pop(o) else o
  }

  /** A step that ended at s consumed the source up to end: the last byte may stand for the zero. */
  predicate Ends(z: nat, s: nat, end: nat) {
    s <= z && (end == s || (s == z && end == z + 1))
  }

  lemma {:induction false} AttributesSound(b: seq<byte>, z: nat, endch: byte, s: nat, c: Cursor)
    returns (attrs: seq<AttrSource>, space: seq<byte>, empty: bool, end: nat)
    requires Bounded(b, z) && s <= z && c.Open? && !IsStartSymbol(b[s]) && Attributes(b, s, c, endch).Next?
    ensures var r := Attributes(b, s, c, endch);
      Ends(z, r.s, end) && s <= end && r.cursor == Entered(c, Meant(attrs), empty)
    ensures GoodAttrs(attrs) && AllSpace(space)
    ensures Source(b, z, endch)[s..end] == AttrsWritten(attrs) + (space + TagEnd(empty))
    decreases |b| - s
  {
    hide Attribute, Attributes, SkipWs, IsStartSymbol, Assignment, Source, Entered, AllSpace, AttrsWritten, Meant,
        GoodAttrs,
        GoodAttr;
    var p := SkipWs(b, s);
    BlankRun(b, s, p);
    SourceSlice(b, z, endch, s, p);
    if IsStartSymbol(b[p]) {
      AttributesStep(b, s, c, endch);
      SymbolNotNul(b[p]);
      SpaceBefore(b, s, p);
      var found := AttributeSound(b, z, p, c);
      var q, c1 := Attribute(b, p, c).s, Attribute(b, p, c).cursor;
      var a := found.(lead := b[s..p]);
      var rest;
      rest, space, empty, end := AttributesSound(b, z, endch, q, c1);
      attrs := [a] + rest;
      GoodLead(found, b[s..p]);
      SourceSlice(b, z, endch, p, q);
      CutTwice(Source(b, z, endch), s, p, q, end);
      AttrsJoined(a, rest, space + TagEnd(empty));
      EnteredCons(c, a, rest, empty);
    } else {
      attrs, space := [], b[s..p];
      empty, end := TagEndSound(b, z, endch, s, c);
    }
  }

  lemma BlankRun(b: seq<byte>, s: nat, p: nat)
    requires Terminated(b) && s < |b| && p == SkipWs(b, s)
    ensures s <= p < |b| && AllSpace(b[s..p])
  {
    AllSpaceSlice(b, s, p);
  }

  lemma SymbolNotNul(c: byte)
    requires IsStartSymbol(c)
    ensures c != NUL && IsSymbol(c)
  {
  }

  lemma SpaceBefore(b: seq<byte>, s: nat, p: nat)
    requires Terminated(b) && s < |b| && p == SkipWs(b, s) && !IsStartSymbol(b[s]) && IsStartSymbol(b[p])
    ensures b[s..p] != []
  {
  }

  lemma AttributesStep(b: seq<byte>, s: nat, c: Cursor, endch: byte)
    requires Terminated(b) && s < |b| && c.Open? && IsStartSymbol(b[SkipWs(b, s)]) && Attributes(b, s, c, endch).Next?
    ensures var p := SkipWs(b, s);
      Attribute(b, p, c).Next? &&
      Attributes(b, s, c, endch) == Attributes(b, Attribute(b, p, c).s, Attribute(b, p, c).cursor, endch)
  {
    hide Attribute;
  }

  lemma CutTwice(w: seq<byte>, i: nat, j: nat, k: nat, l: nat)
    requires i <= j <= k <= l <= |w|
    ensures w[i..l] == w[i..j] + (w[j..k] + w[k..l])
  {
  }

  /** White space and the end of the tag. */
  lemma TagEndSound(b: seq<byte>, z: nat, endch: byte, s: nat, c: Cursor) returns (empty: bool, end: nat)
    requires Bounded(b, z) && s <= z && c.Open? && !IsStartSymbol(b[SkipWs(b, s)]) && Attributes(b, s, c, endch).Next?
    ensures var r := Attributes(b, s, c, endch);
      Ends(z, r.s, end) && s <= end && r.cursor == Entered(c, Meant([]), empty)
    ensures GoodAttrs([])
    ensures Source(b, z, endch)[s..end] == AttrsWritten([]) + (b[s..SkipWs(b, s)] + TagEnd(empty))
  {
    hide Attribute, SkipWs, IsStartSymbol;
    var p := SkipWs(b, s);
    var w := Source(b, z, endch);
    empty := b[p] == SLASH;
    end := p + |TagEnd(empty)|;
    assert p <= z;
    SourceSlice(b, z, endch, s, p);
    assert w[p..end] == TagEnd(empty);
    Cut(w, s, p, end);
    assert c.attrs + Meant([]) == c.attrs;
  }

  lemma GoodLead(a: AttrSource, lead: seq<byte>)
    requires GoodAttr(a.(lead := [SPACE])) && AllSpace(lead) && lead != []
    ensures GoodAttr(a.(lead := lead)) && Assignment(a.(lead := lead)) == Assignment(a)
  {
  }

  lemma AttrsJoined(a: AttrSource, rest: seq<AttrSource>, tail: seq<byte>)
    requires GoodAttr(a) && GoodAttrs(rest)
    ensures GoodAttrs([a] + rest)
    ensures AttrsWritten([a] + rest) + tail == a.lead + (Assignment(a) + (AttrsWritten(rest) + tail))
  {
    hide Assignment, GoodAttr;
    assert ([a] + rest)[1..] == rest && ([a] + rest)[0] == a;
  }

  lemma EnteredCons(c: Cursor, a: AttrSource, rest: seq<AttrSource>, empty: bool)
    requires c.Open?
    ensures Entered(c.(attrs := c.attrs + [Attr(a.name, CStr(Convert(a.raw, Wconv, true)))]), Meant(rest), empty)
         == Entered(c, Meant([a] + rest), empty)
  {
    hide Convert, CStr;
    MeantCons(a, rest);
    assert c.attrs + ([Attr(a.name, CStr(Convert(a.raw, Wconv, true)))] + Meant(rest))
        == c.attrs + [Attr(a.name, CStr(Convert(a.raw, Wconv, true)))] + Meant(rest);
  }

  lemma MeantCons(a: AttrSource, rest: seq<AttrSource>)
    ensures Meant([a] + rest) == [Attr(a.name, CStr(Convert(a.raw, Wconv, true)))] + Meant(rest)
  {
    hide Convert, CStr;
  }

  // ---------- Start tags ----------

  /** Behind the name a start tag goes on as its attributes do. */
  lemma OpenTagGoesOn(b: seq<byte>, s: nat, c: Cursor, endch: byte)
    requires Terminated(b) && s < |b| && IsStartSymbol(b[s])
    requires var e := SkipSymbols(b, s);
      OpenTag(b, s, c, endch).Next? || Attributes(b, e, Open(b[s..e], [], [], c), endch).Next?
    ensures var e := SkipSymbols(b, s);
      OpenTag(b, s, c, endch) == Attributes(b, e, Open(b[s..e], [], [], c), endch)
  {
    hide Attribute, SkipSymbols;
    var e := SkipSymbols(b, s);
    if IsSpace(b[e]) {
      assert SkipWs(b, e) == SkipWs(b, e + 1);
    } else {
      assert SkipWs(b, e) == e;
    }
  }

  lemma OpenTagSound(b: seq<byte>, z: nat, endch: byte, s: nat, c: Cursor)
    returns (name: seq<byte>, attrs: seq<AttrSource>, space: seq<byte>, empty: bool, end: nat)
    requires Bounded(b, z) && 0 < s < z && b[s - 1] == LT && IsStartSymbol(b[s]) && OpenTag(b, s, c, endch).Next?
    ensures var r := OpenTag(b, s, c, endch);
      Ends(z, r.s, end) && s < end && r.cursor == Entered(Open(name, [], [], c), Meant(attrs), empty)
    ensures IsName(name) && GoodAttrs(attrs) && AllSpace(space)
    ensures Source(b, z, endch)[s - 1..end] == TagWritten(name, attrs, space, TagEnd(empty))
  {
    hide Attributes, AttrsWritten, Entered, GoodAttr;
    var w := Source(b, z, endch);
    var e := SkipSymbols(b, s);
    OpenTagGoesOn(b, s, c, endch);
    name := b[s..e];
    NameSlice(b, s, e);
    attrs, space, empty, end := AttributesSound(b, z, endch, e, Open(name, [], [], c));
    CutOne(w, s - 1, end);
    Cut(w, s, e, end);
    SourceSlice(b, z, endch, s, e);
  }

  // ---------- End tags ----------

  /**
   * With an element open, an end tag is accepted exactly when it repeats the name of the element, behind
   * which only white space and '>' follow; the '>' may be the replaced last byte.
   */
  lemma EndTagExactly(b: seq<byte>, s: nat, c: Cursor, endch: byte)
    requires Terminated(b) && s < |b| && c.Open? && IsName(c.name)
    ensures
      var e := s + |c.name|;
      if e < |b| && b[s..e] == c.name && !IsSymbol(b[e]) then
        var p := SkipWs(b, e);
        EndTag(b, s, c, endch) == if b[p] == GT then Next(p + 1, Pop(c))
                                  else if b[p] == NUL && endch == GT then Next(p, Pop(c))
                                  else Fail(BadEndElement, p)
      else
        EndTag(b, s, c, endch).Fail? &&
        (EndTag(b, s, c, endch).status == EndElementMismatch ||
         (EndTag(b, s, c, endch).status == BadEndElement && CutShort(b, s, c.name, endch)))
  {
    hide SkipWs, EndTag, IsName;
    var n := s + |c.name|;
    if n < |b| && b[s..n] == c.name && !IsSymbol(b[n]) {
      NameRepeated(b, s, c, endch);
    } else {
      NameMissed(b, s, c, endch);
    }
  }

  lemma NameRepeated(b: seq<byte>, s: nat, c: Cursor, endch: byte)
    requires Terminated(b) && s < |b| && c.Open? && IsName(c.name)
    requires var e := s + |c.name|; e < |b| && b[s..e] == c.name && !IsSymbol(b[e])
    ensures
      var p := SkipWs(b, s + |c.name|);
      EndTag(b, s, c, endch) == if b[p] == GT then Next(p + 1, Pop(c))
                                else if b[p] == NUL && endch == GT then Next(p, Pop(c))
                                else Fail(BadEndElement, p)
  {
    hide SkipWs, Common, SkipSymbols;
    var e := s + |c.name|;
    assert forall i :: s <= i < e ==> b[i] == b[s..e][i - s];
    SameEnd(b, s, e);
    CommonOfSame(c.name);
  }

  lemma CommonOfSame(x: seq<byte>)
    ensures Common(x, x) == |x|
  {
    var k := Common(x, x);
    assert !(k < |x| && x[k] != x[k]);
  }

  lemma NameMissed(b: seq<byte>, s: nat, c: Cursor, endch: byte)
    requires Terminated(b) && s < |b| && c.Open?
    requires var e := s + |c.name|; !(e < |b| && b[s..e] == c.name && !IsSymbol(b[e]))
    ensures EndTag(b, s, c, endch).Fail?
    ensures EndTag(b, s, c, endch).status == EndElementMismatch ||
            (EndTag(b, s, c, endch).status == BadEndElement && CutShort(b, s, c.name, endch))
  {
    hide SkipWs;
    var e := SkipSymbols(b, s);
    var own := b[s..e];
    var k := Common(own, c.name);
    if k == |own| {
      assert own == c.name[..k];
      assert k < |c.name|;
    }
  }

  lemma SameEnd(b: seq<byte>, s: nat, n: nat)
    requires Terminated(b) && s <= n < |b| && !IsSymbol(b[n]) && forall i :: s <= i < n ==> IsSymbol(b[i])
    ensures SkipSymbols(b, s) == n
  {
  }

  /** The replaced last byte would have completed the name. */
  predicate CutShort(b: seq<byte>, s: nat, name: seq<byte>, endch: byte) {
    name != [] && s + |name| - 1 < |b| && b[s..s + |name| - 1] == name[..|name| - 1] && b[s + |name| - 1] == NUL &&
    name[|name| - 1] == endch
  }

  // ---------- Sections, comments and instructions ----------

  /** The end of a section or comment is found where its text closes for the first time. */
  lemma CloseSound(b: seq<byte>, z: nat, endch: byte, v: nat, mark: byte)
    requires Bounded(b, z) && v <= z && mark != NUL && b[ScanSection(b, v, mark, endch)] != NUL
    ensures var q := ScanSection(b, v, mark, endch);
      v <= q && q + 2 <= z && Inside(b[v..q], mark) && Source(b, z, endch)[v..q + 3] == b[v..q] + [mark, mark, GT]
    ensures var q := ScanSection(b, v, mark, endch);
      Ends(z, if b[q + 2] == GT then q + 3 else q + 2, q + 3)
  {
    var q := ScanSection(b, v, mark, endch);
    var w := Source(b, z, endch);
    assert q + 2 <= z;
    NotIn(b, v, q, NUL);
    var text := b[v..q];
    forall i | 0 <= i < |text|
      ensures !Closes(text, mark, i)
    {
      assert !SectionEnd(b, v + i, mark, endch);
    }
    SourceSlice(b, z, endch, v, q);
    Cut(w, v, q, q + 3);
    assert w[q..q + 3] == [mark, mark, GT];
  }

  lemma InstructionSound(b: seq<byte>, z: nat, endch: byte, s: nat, c: Cursor) returns (text: seq<byte>, end: nat)
    requires Bounded(b, z) && 0 < s < z && b[s - 1] == LT && b[s] == QUESTION && Question(b, s, c, endch).Next?
    ensures var r := Question(b, s, c, endch); Ends(z, r.s, end) && s < end && r.cursor == c
    ensures GoodInstruction(text) && Source(b, z, endch)[s - 1..end] == [LT, QUESTION] + (text + [QUESTION, GT])
  {
    hide IsStartSymbol, ScanQuestion, SkipSymbols;
    var e := SkipSymbols(b, s + 1);
    var q := ScanQuestion(b, e, endch);
    var w := Source(b, z, endch);
    text, end := b[s + 1..q], q + 2;
    QuestionText(b, s + 1, e, q, endch);
    SourceSlice(b, z, endch, s + 1, q);
    CutTwice(w, s - 1, s + 1, q, end);
    assert w[s - 1..s + 1] == [LT, QUESTION];
    assert w[q..q + 2] == [QUESTION, GT];
  }

  lemma QuestionText(b: seq<byte>, s: nat, e: nat, q: nat, endch: byte)
    requires Terminated(b) && s < |b| && IsStartSymbol(b[s]) && e == SkipSymbols(b, s) && q == ScanQuestion(b, e, endch)
    ensures GoodInstruction(b[s..q])
  {
    hide ScanQuestion, SkipSymbols;
    assert IsSymbol(b[s]);
    var text := b[s..q];
    forall i | 0 <= i < |text|
      ensures text[i] != NUL && (i < |text| - 1 ==> !(text[i] == QUESTION && text[i + 1] == GT))
    {
      assert text[i] == b[s + i] && (i < |text| - 1 ==> text[i + 1] == b[s + i + 1]);
      if s + i < e {
        assert IsSymbol(b[s + i]);
      }
    }
  }

  /** The cursor with more children. */
  function Gained(c: Cursor, ns: seq<Node>): Cursor {
    match c
    case Doc(children) => Doc(children + ns)
    case Open(name, attrs, children, parent) => Open(name, attrs, children + ns, parent)
  }

  lemma GainedTwice(c: Cursor, x: seq<Node>, y: seq<Node>)
    ensures Gained(Gained(c, x), y) == Gained(c, x + y) && Gained(c, []) == c
    ensures forall n :: AddChild(c, n) == Gained(c, [n])
  {
    assert c.children + x + y == c.children + (x + y) && c.children + [] == c.children;
  }

  lemma ExclamationSound(b: seq<byte>, z: nat, endch: byte, s: nat, c: Cursor) returns (p: Piece, end: nat)
    requires Bounded(b, z) && 0 < s < z && b[s - 1] == LT && b[s] == BANG && Exclamation(b, s, c, endch).Next?
    ensures Good(p) && (p.Section? || p.Remark?)
    ensures var r := Exclamation(b, s, c, endch);
      Ends(z, r.s, end) && s < end && r.cursor == Gained(c, Meaning(p, c.Open?))
    ensures Source(b, z, endch)[s - 1..end] == Written(p)
  {
    hide ScanSection, Convert, CStr, Common, Inside, Closes;
    if b[s + 1] == DASH {
      p, end := RemarkSound(b, z, endch, s, c);
    } else {
      p, end := SectionSound(b, z, endch, s, c);
    }
  }

  lemma RemarkSound(b: seq<byte>, z: nat, endch: byte, s: nat, c: Cursor) returns (p: Piece, end: nat)
    requires Bounded(b, z) && 0 < s < z && b[s - 1] == LT && b[s] == BANG && Exclamation(b, s, c, endch).Next?
    requires b[s + 1] == DASH
    ensures Good(p) && p.Remark?
    ensures var r := Exclamation(b, s, c, endch);
      Ends(z, r.s, end) && s < end && r.cursor == Gained(c, Meaning(p, c.Open?))
    ensures Source(b, z, endch)[s - 1..end] == Written(p)
  {
    hide ScanSection, Exclamation, Inside, Closes, Source;
    var w := Source(b, z, endch);
    var v := s + 3;
    RemarkStep(b, s, c, endch);
    var q := ScanSection(b, v, DASH, endch);
    CloseSound(b, z, endch, v, DASH);
    p, end := Remark(b[v..q]), q + 3;
    GainedTwice(c, [], []);
    Cut(w, s - 1, v, end);
    assert w[s - 1..v] == REMARK_START;
  }

  lemma RemarkStep(b: seq<byte>, s: nat, c: Cursor, endch: byte)
    requires Terminated(b) && s + 1 < |b| && b[s + 1] == DASH && Exclamation(b, s, c, endch).Next?
    ensures b[s + 2] == DASH && s + 3 < |b|
    ensures var q := ScanSection(b, s + 3, DASH, endch);
      b[q] != NUL && Exclamation(b, s, c, endch) == Next(if b[q + 2] == GT then q + 3 else q + 2, c)
  {
    hide ScanSection, Convert, CStr, Common;
  }

  lemma SectionStep(b: seq<byte>, s: nat, c: Cursor, endch: byte)
    requires Terminated(b) && s + 1 < |b| && b[s + 1] != DASH && Exclamation(b, s, c, endch).Next?
    ensures b[s + 1] == LBRACKET && s + 2 < |b| && Common(CDATA_OPEN, b[s + 2..]) >= 6 && s + 8 < |b|
    ensures var q := ScanSection(b, s + 8, RBRACKET, endch);
      b[q] != NUL &&
      Exclamation(b, s, c, endch)
      == Next(if b[q + 2] == GT then q + 3 else q + 2, AddChild(c, Cdata(CStr(Convert(b[s + 8..q], Eol, false)))))
  {
    hide ScanSection, Convert, CStr, Common;
  }

  lemma SectionSound(b: seq<byte>, z: nat, endch: byte, s: nat, c: Cursor) returns (p: Piece, end: nat)
    requires Bounded(b, z) && 0 < s < z && b[s - 1] == LT && b[s] == BANG && Exclamation(b, s, c, endch).Next?
    requires b[s + 1] != DASH
    ensures Good(p) && p.Section?
    ensures var r := Exclamation(b, s, c, endch);
      Ends(z, r.s, end) && s < end && r.cursor == Gained(c, Meaning(p, c.Open?))
    ensures Source(b, z, endch)[s - 1..end] == Written(p)
  {
    hide ScanSection, Convert, CStr, Common, Inside, Closes, Source, Exclamation;
    var w := Source(b, z, endch);
    var v := s + 8;
    SectionStep(b, s, c, endch);
    SectionOpens(b, z, endch, s);
    var q := ScanSection(b, v, RBRACKET, endch);
    CloseSound(b, z, endch, v, RBRACKET);
    p, end := Section(b[v..q]), q + 3;
    GainedTwice(c, [], []);
    Cut(w, s - 1, v, end);
  }

  lemma SectionOpens(b: seq<byte>, z: nat, endch: byte, s: nat)
    requires Bounded(b, z) && 0 < s < z && b[s - 1] == LT && b[s] == BANG && b[s + 1] == LBRACKET && s + 2 <= |b|
    requires Common(CDATA_OPEN, b[s + 2..]) >= 6
    ensures s + 8 <= z && Source(b, z, endch)[s - 1..s + 8] == SECTION_START
  {
    hide Common;
    var rest := b[s + 2..];
    var k := Common(CDATA_OPEN, rest);
    assert CDATA_OPEN[..k] == CDATA_OPEN && rest[..6] == CDATA_OPEN;
    assert forall i :: 0 <= i < 6 ==> b[s + 2 + i] == rest[..6][i] == CDATA_OPEN[i];
    assert forall i :: 0 <= i < 6 ==> CDATA_OPEN[i] != NUL;
    assert forall i :: s + 2 <= i < s + 8 ==> b[i] == CDATA_OPEN[i - s - 2];
    assert s + 8 <= z;
    var w := Source(b, z, endch);
    assert SECTION_START == [LT, BANG, LBRACKET] + CDATA_OPEN;
    assert w[s - 1..s + 2] == [LT, BANG, LBRACKET];
    assert w[s + 2..s + 8] == CDATA_OPEN;
    Cut(w, s - 1, s + 2, s + 8);
  }

  // ---------- Whole texts ----------

  function Depth(c: Cursor): nat {
    match c case Doc(_) => 0 case Open(_, _, _, parent) => 1 + Depth(parent)
  }

  /**
   * The text, read from the cursor on, is written in the grammar: what is left of the open element, its end
   * tag with its own name, and so on for its parents; the nodes are those of the whole document.
   */
  ghost predicate Completes(c: Cursor, text: seq<byte>, nodes: seq<Node>)
    decreases Depth(c)
  {
    match c
    case Doc(children) => exists ps :: ClosesDoc(ps, text) && nodes == children + MeaningAll(ps, false)
    case Open(name, attrs, children, parent) =>
      exists ps, space, rest :: ClosesElement(name, ps, space, rest, text) &&
        var up := AddChild(parent, Element(name, attrs, children + MeaningAll(ps, true)));
        Depth(up) < Depth(c) && Completes(up, rest, nodes)
  }

  /** A final zero does not count. */
  predicate ClosesDoc(ps: seq<Piece>, text: seq<byte>) {
    GoodAll(ps) && (WrittenAll(ps) == text || WrittenAll(ps) + [NUL] == text)
  }

  predicate ClosesElement(name: seq<byte>, ps: seq<Piece>, space: seq<byte>, rest: seq<byte>, text: seq<byte>) {
    GoodAll(ps) && AllSpace(space) && text == WrittenAll(ps) + (EndWritten(name, space) + rest)
  }

  lemma AddDepth(c: Cursor, n: Node)
    ensures Depth(AddChild(c, n)) == Depth(c)
  {
  }

  /** One more piece in front. */
  lemma PieceAhead(c: Cursor, p: Piece, rest: seq<byte>, nodes: seq<Node>)
    requires Good(p) && Completes(Gained(c, Meaning(p, c.Open?)), rest, nodes)
    requires p.CharData? ==> rest != [] && (rest[0] == LT || rest[0] == NUL)
    ensures Completes(c, Written(p) + rest, nodes)
  {
    hide Meaning, Written, Good, GoodAll, WrittenAll, MeaningAll, EndWritten;
    var c' := Gained(c, Meaning(p, c.Open?));
    if c.Doc? {
      var ps :| ClosesDoc(ps, rest) && nodes == c'.children + MeaningAll(ps, false);
      ConsGood(p, ps, rest);
      WrittenCons(p, ps);
      assert Written(p) + WrittenAll(ps) + [NUL] == Written(p) + (WrittenAll(ps) + [NUL]);
      assert ClosesDoc([p] + ps, Written(p) + rest);
      assert nodes == c.children + MeaningAll([p] + ps, false);
    } else {
      var ps, space, more :| ClosesElement(c.name, ps, space, more, rest) &&
        Completes(AddChild(c.parent, Element(c.name, c.attrs, c'.children + MeaningAll(ps, true))), more, nodes);
      ConsGood(p, ps, rest);
      WrittenCons(p, ps);
      assert Written(p) + (WrittenAll(ps) + (EndWritten(c.name, space) + more))
          == Written(p) + WrittenAll(ps) + (EndWritten(c.name, space) + more);
      assert ClosesElement(c.name, [p] + ps, space, more, Written(p) + rest);
      var all := c.children + MeaningAll([p] + ps, true);
      assert c'.children + MeaningAll(ps, true) == all;
      AddDepth(c.parent, Element(c.name, c.attrs, all));
      assert Depth(AddChild(c.parent, Element(c.name, c.attrs, all))) < Depth(c);
    }
  }

  lemma ConsGood(p: Piece, ps: seq<Piece>, rest: seq<byte>)
    requires Good(p) && GoodAll(ps) && (p.CharData? ==> rest != [] && (rest[0] == LT || rest[0] == NUL))
    requires WrittenAll(ps) <= rest
    ensures GoodAll([p] + ps)
  {
    hide Good, Written;
    GoodCons(p, ps);
    if ps != [] && p.CharData? {
      FirstByte(ps[0]);
      assert rest[0] == Written(ps[0])[0];
      if ps[0].CharData? {
        TextBytes(ps[0]);
      }
    }
  }

  lemma TextBytes(p: Piece)
    requires Good(p) && p.CharData?
    ensures Written(p) != [] && Written(p)[0] != LT && Written(p)[0] != NUL
  {
  }

  /** A start tag in front: what follows is read inside the element first. */
  lemma StartAhead(c: Cursor, name: seq<byte>, attrs: seq<AttrSource>, space: seq<byte>, rest: seq<byte>,
      nodes: seq<Node>)
    requires IsName(name) && GoodAttrs(attrs) && AllSpace(space)
    requires Completes(Open(name, Meant(attrs), [], c), rest, nodes)
    ensures Completes(c, TagWritten(name, attrs, space, [GT]) + rest, nodes)
  {
    hide GoodAll, WrittenAll, MeaningAll, EndWritten, TagWritten, GoodAttrs, IsName, AllSpace, Meant;
    var o := Open(name, Meant(attrs), [], c);
    var ps, endSpace, more :| ClosesElement(name, ps, endSpace, more, rest) &&
      Completes(AddChild(c, Element(name, o.attrs, o.children + MeaningAll(ps, true))), more, nodes);
    assert o.children + MeaningAll(ps, true) == MeaningAll(ps, true);
    var p := Elem(name, attrs, space, ps, endSpace);
    var n := Element(name, Meant(attrs), MeaningAll(ps, true));
    GainedTwice(c, [], []);
    assert Gained(c, Meaning(p, c.Open?)) == AddChild(c, n);
    PieceAhead(c, p, more, nodes);
    var start, inner, end := TagWritten(name, attrs, space, [GT]), WrittenAll(ps), EndWritten(name, endSpace);
    assert start + (inner + (end + more)) == start + (inner + end) + more;
  }

  /** The end tag of the open element in front. */
  lemma EndAhead(c: Cursor, space: seq<byte>, rest: seq<byte>, nodes: seq<Node>)
    requires c.Open? && AllSpace(space) && Completes(Pop(c), rest, nodes)
    ensures Completes(c, EndWritten(c.name, space) + rest, nodes)
  {
    hide EndWritten, AllSpace;
    NoPieces();
    var text := EndWritten(c.name, space) + rest;
    assert [] + text == text;
    assert ClosesElement(c.name, [], space, rest, text);
    assert c.children + MeaningAll([], true) == c.children;
    AddDepth(c.parent, Element(c.name, c.attrs, c.children));
  }

  /** Text outside every element, up to the end. */
  lemma LastText(c: Cursor, text: seq<byte>)
    requires c.Doc? && LT !in text && (forall i :: 0 <= i < |text| - 1 ==> text[i] != NUL)
    ensures Completes(c, text, c.children)
  {
    hide GoodAll, WrittenAll, MeaningAll;
    NoPieces();
    var n := |text|;
    if n > 0 && text[n - 1] == NUL {
      var front := text[..n - 1];
      assert text == front + [NUL];
      if front == [] {
        NothingMore(c, [], text);
      } else {
        NotIn(text, 0, n - 1, NUL);
        NotIn(text, 0, n - 1, LT);
        OneText(front);
        NothingMore(c, [CharData(front)], text);
      }
    } else if n > 0 {
      NoZero(text);
      OneText(text);
      NothingMore(c, [CharData(text)], text);
    } else {
      NothingMore(c, [], text);
    }
  }

  lemma NoZero(text: seq<byte>)
    requires text != [] && text[|text| - 1] != NUL && forall i :: 0 <= i < |text| - 1 ==> text[i] != NUL
    ensures NUL !in text
  {
  }

  lemma NothingMore(c: Cursor, ps: seq<Piece>, text: seq<byte>)
    requires c.Doc? && ClosesDoc(ps, text) && MeaningAll(ps, false) == []
    ensures Completes(c, text, c.children)
  {
    hide ClosesDoc, MeaningAll;
    assert c.children + [] == c.children;
  }

  lemma OneText(text: seq<byte>)
    requires text != [] && LT !in text && NUL !in text
    ensures GoodAll([CharData(text)]) && WrittenAll([CharData(text)]) == text &&
      MeaningAll([CharData(text)], false) == []
  {
    NoPieces();
    var p := CharData(text);
    WrittenCons(p, []);
    GoodCons(p, []);
    assert [p] + [] == [p] && text + [] == text;
  }

  // ---------- The parser, step by step ----------

  /** The open elements have names. */
  predicate NamedCursor(c: Cursor) {
    c.Open? ==> IsName(c.name) && NamedCursor(c.parent)
  }

  lemma NamedGained(c: Cursor, ns: seq<Node>)
    ensures NamedCursor(Gained(c, ns)) <==> NamedCursor(c)
  {
  }

  /** What is proved of a step that ended before end: the text from there completes the text from s. */
  ghost predicate Leads(c: Cursor, text: seq<byte>, c': Cursor, rest: seq<byte>) {
    forall nodes :: Completes(c', rest, nodes) ==> Completes(c, text, nodes)
  }

  lemma PieceLeads(c: Cursor, p: Piece, text: seq<byte>, c': Cursor, rest: seq<byte>)
    requires Good(p) && c' == Gained(c, Meaning(p, c.Open?)) && text == Written(p) + rest
    requires p.CharData? ==> rest != [] && (rest[0] == LT || rest[0] == NUL)
    ensures Leads(c, text, c', rest)
  {
    hide Good, Meaning, Written, Completes;
    forall nodes | Completes(c', rest, nodes)
      ensures Completes(c, text, nodes)
    {
      PieceAhead(c, p, rest, nodes);
    }
  }

  lemma OpenTagStep(b: seq<byte>, z: nat, endch: byte, s: nat, c: Cursor) returns (end: nat)
    requires Bounded(b, z) && s + 1 < z && b[s] == LT && IsStartSymbol(b[s + 1]) && NamedCursor(c)
    requires OpenTag(b, s + 1, c, endch).Next?
    ensures var r := OpenTag(b, s + 1, c, endch);
      Ends(z, r.s, end) && s < end && NamedCursor(r.cursor) &&
      Leads(c, Source(b, z, endch)[s..], r.cursor, Source(b, z, endch)[end..])
  {
    hide OpenTag, Completes, GoodAttrs, IsName, AllSpace, IsStartSymbol, Source, Meant, TagWritten;
    var name, attrs, space, empty;
    name, attrs, space, empty, end := OpenTagSound(b, z, endch, s + 1, c);
    var w, c' := Source(b, z, endch), OpenTag(b, s + 1, c, endch).cursor;
    CutRest(w, s, end);
    assert [] + Meant(attrs) == Meant(attrs);
    if empty {
      GainedTwice(c, [], []);
      NamedGained(c, [Element(name, Meant(attrs), [])]);
      PieceLeads(c, EmptyElem(name, attrs, space), w[s..], c', w[end..]);
    } else {
      forall nodes | Completes(c', w[end..], nodes)
        ensures Completes(c, w[s..], nodes)
      {
        StartAhead(c, name, attrs, space, w[end..], nodes);
      }
    }
  }

  lemma EndTagStep(b: seq<byte>, z: nat, endch: byte, s: nat, c: Cursor) returns (end: nat)
    requires Bounded(b, z) && s + 1 < z && b[s] == LT && b[s + 1] == SLASH && NamedCursor(c)
    requires EndTag(b, s + 2, c, endch).Next?
    ensures var r := EndTag(b, s + 2, c, endch);
      Ends(z, r.s, end) && s < end && NamedCursor(r.cursor) &&
      Leads(c, Source(b, z, endch)[s..], r.cursor, Source(b, z, endch)[end..])
  {
    hide EndTag, Completes, IsName, Source, SkipWs, EndWritten;
    NotOpen(b, s + 2, c, endch);
    EndTagExactly(b, s + 2, c, endch);
    var w, e := Source(b, z, endch), s + 2 + |c.name|;
    var p := SkipWs(b, e);
    end := p + 1;
    BlankRun(b, e, p);
    EndTagText(b, z, endch, s, c.name, p);
    CutRest(w, s, end);
    GainedTwice(c.parent, [], []);
    NamedGained(c.parent, [Element(c.name, c.attrs, c.children)]);
    forall nodes | Completes(Pop(c), w[end..], nodes)
      ensures Completes(c, w[s..], nodes)
    {
      EndAhead(c, b[e..p], w[end..], nodes);
    }
  }

  lemma NotOpen(b: seq<byte>, s: nat, c: Cursor, endch: byte)
    requires Terminated(b) && s < |b| && EndTag(b, s, c, endch).Next?
    ensures c.Open?
  {
  }

  lemma EndTagText(b: seq<byte>, z: nat, endch: byte, s: nat, name: seq<byte>, p: nat)
    requires Bounded(b, z) && s + 1 < z && b[s] == LT && b[s + 1] == SLASH
    requires var e := s + 2 + |name|; e <= p < |b| && b[s + 2..e] == name && AllSpace(b[e..p]) && IsName(name)
    requires b[p] == GT || (b[p] == NUL && endch == GT)
    ensures p <= z && Source(b, z, endch)[s..p + 1] == EndWritten(name, b[s + 2 + |name|..p])
    ensures Ends(z, if b[p] == GT then p + 1 else p, p + 1)
  {
    var e := s + 2 + |name|;
    var w := Source(b, z, endch);
    EndTagWithin(b, z, s, name, p);
    hide Bounded, IsName, AllSpace;
    SourceSlice(b, z, endch, s + 2, e);
    SourceSlice(b, z, endch, e, p);
    CutTwice(w, s, s + 2, e, p + 1);
    Cut(w, e, p, p + 1);
    assert w[s..s + 2] == [LT, SLASH];
    assert w[p..p + 1] == [GT];
  }

  lemma EndTagWithin(b: seq<byte>, z: nat, s: nat, name: seq<byte>, p: nat)
    requires Bounded(b, z) && s + 1 < z
    requires var e := s + 2 + |name|; e <= p < |b| && b[s + 2..e] == name && AllSpace(b[e..p]) && IsName(name)
    ensures p <= z && (b[p] == NUL ==> p == z) && (b[p] != NUL ==> p < z)
  {
    var e := s + 2 + |name|;
    assert forall i :: s + 2 <= i < e ==> b[i] == b[s + 2..e][i - s - 2] && IsSymbol(b[i]);
    assert forall i :: e <= i < p ==> b[i] == b[e..p][i - e] && IsSpace(b[i]);
  }

  lemma TagStep(b: seq<byte>, z: nat, endch: byte, s: nat, c: Cursor) returns (end: nat)
    requires Bounded(b, z) && s < z && b[s] == LT && NamedCursor(c) && Tag(b, s + 1, c, endch).Next?
    ensures var r := Tag(b, s + 1, c, endch);
      Ends(z, r.s, end) && s < end && NamedCursor(r.cursor) &&
      Leads(c, Source(b, z, endch)[s..], r.cursor, Source(b, z, endch)[end..])
  {
    hide OpenTag, EndTag, Question, Exclamation, Leads, Source, Good, GoodInstruction, Meaning, Written;
    if IsStartSymbol(b[s + 1]) {
      end := OpenTagStep(b, z, endch, s, c);
    } else if b[s + 1] == SLASH {
      end := EndTagStep(b, z, endch, s, c);
    } else {
      var p;
      if b[s + 1] == QUESTION {
        var text;
        text, end := InstructionSound(b, z, endch, s + 1, c);
        p := Instruction(text);
        InstructionIs(text);
        GainedTwice(c, [], []);
      } else {
        p, end := ExclamationSound(b, z, endch, s + 1, c);
        NamedGained(c, Meaning(p, c.Open?));
      }
      var w := Source(b, z, endch);
      CutRest(w, s, end);
      PieceLeads(c, p, w[s..], Tag(b, s + 1, c, endch).cursor, w[end..]);
    }
  }

  lemma InstructionIs(text: seq<byte>)
    ensures Good(Instruction(text)) <==> GoodInstruction(text)
    ensures Written(Instruction(text)) == [LT, QUESTION] + (text + [QUESTION, GT])
    ensures forall inside :: Meaning(Instruction(text), inside) == []
  {
  }

  /** Text in front of a tag. */
  lemma TextStep(b: seq<byte>, z: nat, endch: byte, s: nat, c: Cursor)
    requires Bounded(b, z) && s < z && b[s] != LT && NamedCursor(c) && Text(b, s, c).Next? && b[Text(b, s, c).s] == LT
    ensures var r := Text(b, s, c);
      s < r.s < z && NamedCursor(r.cursor) && Leads(c, Source(b, z, endch)[s..], r.cursor, Source(b, z, endch)[r.s..])
  {
    hide Leads, Source, Convert, CStr, ScanTo, SkipWs;
    var e := Text(b, s, c).s;
    var text := b[s..e];
    TextIs(b, s, c);
    NotIn(b, s, e, LT);
    NotIn(b, s, e, NUL);
    var w := Source(b, z, endch);
    SourceSlice(b, z, endch, s, e);
    CutRest(w, s, e);
    assert w[e..][0] == LT;
    NamedGained(c, Meaning(CharData(text), c.Open?));
    PieceLeads(c, CharData(text), w[s..], Text(b, s, c).cursor, w[e..]);
  }

  lemma TextIs(b: seq<byte>, s: nat, c: Cursor)
    requires Terminated(b) && s < |b| && b[s] != LT && b[s] != NUL && Text(b, s, c).Next? && b[Text(b, s, c).s] == LT
    ensures var r := Text(b, s, c);
      (forall i :: s <= i < r.s ==> b[i] != LT && b[i] != NUL) &&
      r.cursor == Gained(c, Meaning(CharData(b[s..r.s]), c.Open?))
  {
    hide Convert, CStr;
    var r := Text(b, s, c);
    var p := SkipWs(b, s);
    GainedTwice(c, [], []);
    AllSpaceSlice(b, s, p);
    if b[p] != LT && b[p] != NUL {
      assert p < r.s;
      assert b[s..r.s][p - s] == b[p];
    }
  }

  lemma {:induction false} ParseSound(b: seq<byte>, z: nat, endch: byte, s: nat, c: Cursor, text: seq<byte>,
      nodes: seq<Node>)
    requires Bounded(b, z) && s <= z && endch != LT && NamedCursor(c) && Parse(b, s, c, endch) == Parsed(nodes)
    requires text == Source(b, z, endch)[s..] || (s == z && text == [])
    ensures Completes(c, text, nodes)
    decreases z - s
  {
    hide Tag, Text, Completes, NamedCursor;
    var w := Source(b, z, endch);
    if s == z {
      LastText(c, text);
    } else if b[s] == LT {
      var end := TagStep(b, z, endch, s, c);
      var r := Tag(b, s + 1, c, endch);
      ParseSound(b, z, endch, r.s, r.cursor, w[end..], nodes);
    } else {
      var r := Text(b, s, c);
      if b[r.s] == LT {
        TextStep(b, z, endch, s, c);
        ParseSound(b, z, endch, r.s, r.cursor, w[r.s..], nodes);
      } else {
        TextToEnd(b, z, endch, s, c);
        LastText(c, w[s..]);
      }
    }
  }

  lemma TextToEnd(b: seq<byte>, z: nat, endch: byte, s: nat, c: Cursor)
    requires Bounded(b, z) && s < z && b[s] != LT && endch != LT && Text(b, s, c).Next? && b[Text(b, s, c).s] != LT
    requires Parse(b, Text(b, s, c).s, Text(b, s, c).cursor, endch).Parsed?
    ensures c.Doc? && Text(b, s, c) == Next(z, c)
    ensures var text := Source(b, z, endch)[s..]; LT !in text && forall i :: 0 <= i < |text| - 1 ==> text[i] != NUL
  {
    hide Tag, Convert, CStr;
    var r := Text(b, s, c);
    assert r.s == z;
    var text := Source(b, z, endch)[s..];
    assert forall i :: 0 <= i < |text| ==> text[i] == if s + i < z then b[s + i] else endch;
  }

  // ---------- Inputs ----------

  /** Where the first zero of the buffer is. */
  function FirstZero(b: seq<byte>): (z: nat)
    requires Terminated(b)
    ensures Bounded(b, z)
  {
    |CStr(b)|
  }

  /** The input as far as it counts: up to its first zero, and then the last byte. */
  function Effective(input: seq<byte>): (w: seq<byte>) {
    if input == [] then [] else CStr(input[..|input| - 1]) + [input[|input| - 1]]
  }

  lemma SourceEffective(input: seq<byte>)
    requires input != []
    ensures var b := Zeroed(input); Source(b, FirstZero(b), input[|input| - 1]) == Effective(input)
  {
    var front := input[..|input| - 1];
    CStrOfTerminated(front, []);
    assert Zeroed(input) == front + [NUL] + [];
    assert CStr(front) <= front;
    assert Zeroed(input)[..|CStr(front)|] == CStr(front);
  }

  /** The input is these pieces; a final zero does not count. */
  predicate Spells(ps: seq<Piece>, input: seq<byte>) {
    ClosesDoc(ps, Effective(input))
  }

  /** Whatever is accepted is written in the grammar, and means the nodes built. */
  lemma AcceptedIsWritten(input: seq<byte>, nodes: seq<Node>) returns (ps: seq<Piece>)
    requires ParseBuffer(input) == Parsed(nodes)
    ensures Spells(ps, input) && MeaningAll(ps, false) == nodes
  {
    if input == [] {
      return [];
    }
    hide Parse, Source, Effective, ClosesDoc, MeaningAll;
    var b, endch := Zeroed(input), input[|input| - 1];
    var z := FirstZero(b);
    SourceEffective(input);
    var w := Source(b, z, endch);
    assert w[0..] == w;
    ParseSound(b, z, endch, 0, Doc([]), w, nodes);
    ps :| ClosesDoc(ps, w) && nodes == Doc([]).children + MeaningAll(ps, false);
    assert [] + MeaningAll(ps, false) == MeaningAll(ps, false);
  }
}
