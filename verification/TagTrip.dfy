/** The parser run over single printed pieces: names, attributes, texts, CDATA sections, end tags. */
module TagTrip {
  import opened Chars
  import opened Refs
  import opened StrConv
  import opened Dom
  import opened Parser
  import opened Printer
  import opened Escaping
  import opened Canon

  /** The bytes x stand at s in b. */
  predicate StandsAt(b: seq<byte>, s: nat, x: seq<byte>) {
    s + |x| <= |b| && b[s..s + |x|] == x
  }

  lemma AtConcat(b: seq<byte>, s: nat, x: seq<byte>, y: seq<byte>)
    requires StandsAt(b, s, x + y)
    ensures StandsAt(b, s, x) && StandsAt(b, s + |x|, y)
  {
    var z := x + y;
    AtByte(b, s, z);
    assert forall i :: 0 <= i < |x| ==> z[i] == x[i];
    assert forall i :: 0 <= i < |y| ==> z[|x| + i] == y[i];
  }

  lemma AtByte(b: seq<byte>, s: nat, x: seq<byte>)
    requires StandsAt(b, s, x)
    ensures s + |x| <= |b| && forall i {:trigger x[i]} :: 0 <= i < |x| ==> b[s + i] == x[i]
  {
    var y := b[s..s + |x|];
    assert forall i :: 0 <= i < |x| ==> y[i] == b[s + i];
  }

  lemma AtFront(b: seq<byte>, s: nat, x: seq<byte>)
    requires StandsAt(b, s, x) && |x| >= 3
    ensures s + 3 <= |b| && b[s] == x[0] && b[s + 1] == x[1] && b[s + 2] == x[2]
  {
    var y := b[s..s + |x|];
    assert y[0] == b[s] && y[1] == b[s + 1] && y[2] == b[s + 2];
  }

  lemma {:induction false} SkipWsIs(b: seq<byte>, s: nat, p: nat)
    requires Terminated(b) && s <= p < |b| && !IsSpace(b[p]) && forall i :: s <= i < p ==> IsSpace(b[i])
    ensures SkipWs(b, s) == p
    decreases p - s
  {
    if s < p {
      SkipWsIs(b, s + 1, p);
    }
  }

  lemma {:induction false} SkipSymbolsIs(b: seq<byte>, s: nat, p: nat)
    requires Terminated(b) && s <= p < |b| && !IsSymbol(b[p]) && forall i :: s <= i < p ==> IsSymbol(b[i])
    ensures SkipSymbols(b, s) == p
    decreases p - s
  {
    if s < p {
      SkipSymbolsIs(b, s + 1, p);
    }
  }

  lemma {:induction false} ScanToIs(b: seq<byte>, s: nat, e: nat, stop: byte)
    requires Terminated(b) && s <= e < |b| && b[e] == stop && forall i :: s <= i < e ==> b[i] != stop && b[i] != NUL
    ensures ScanTo(b, s, stop) == e
    decreases e - s
  {
    if s < e {
      ScanToIs(b, s + 1, e, stop);
    }
  }

  /** Bytes that contain neither the stop byte nor a zero are scanned over. */
  lemma ScanOver(b: seq<byte>, s: nat, x: seq<byte>, stop: byte)
    requires Terminated(b) && StandsAt(b, s, x) && stop !in x && NUL !in x && s + |x| < |b| && b[s + |x|] == stop
    ensures ScanTo(b, s, stop) == s + |x|
  {
    AtByte(b, s, x);
    forall i | s <= i < s + |x|
      ensures b[i] != stop && b[i] != NUL
    {
      assert b[i] == x[i - s] && x[i - s] in x;
    }
    ScanToIs(b, s, s + |x|, stop);
  }

  lemma NameScanned(b: seq<byte>, s: nat, name: seq<byte>)
    requires Terminated(b) && StandsAt(b, s, name) && IsName(name) && s + |name| < |b| && !IsSymbol(b[s + |name|])
    ensures SkipSymbols(b, s) == s + |name| && IsStartSymbol(b[s])
  {
    AtByte(b, s, name);
    forall i | s <= i < s + |name|
      ensures IsSymbol(b[i])
    {
      assert b[i] == name[i - s];
    }
    assert b[s + 0] == name[0];
    SkipSymbolsIs(b, s, s + |name|);
  }

  lemma NameKept(name: seq<byte>)
    requires IsName(name)
    ensures NameOrDefault(name) == name
  {
    forall x | x in name
      ensures x != NUL
    {
      var i :| 0 <= i < |name| && name[i] == x;
      assert IsSymbol(name[i]);
    }
    CStrId(name);
  }

  // ---------- Attributes ----------

  function AttrText(a: Attr): seq<byte> {
    [SPACE] + NameOrDefault(a.name) + [EQ, QUOT] + Escape(CStr(a.value), true) + [QUOT]
  }

  function CanonAttr(a: Attr): Attr {
    Attr(a.name, Detab(CStr(a.value)))
  }

  lemma ValueParsed(b: seq<byte>, s: nat, v: seq<byte>, c: Cursor, name: seq<byte>)
    requires Terminated(b) && c.Open? && NUL !in v && StandsAt(b, s, [QUOT] + Escape(v, true) + [QUOT])
    requires var e := s + 1 + |Escape(v, true)|; e + 1 < |b| && !IsStartSymbol(b[e + 1])
    ensures AttributeValue(b, s, c, name)
         == Next(s + 2 + |Escape(v, true)|, c.(attrs := c.attrs + [Attr(name, Detab(v))]))
  {
    hide Escape, Convert, ScanTo, SkipWs, CStr, Detab, StandsAt, IsStartSymbol;
    var x := Escape(v, true);
    assert [QUOT] + x + [QUOT] == [QUOT] + (x + [QUOT]);
    AtHead(b, s, QUOT, x + [QUOT]);
    AtConcat(b, s + 1, x, [QUOT]);
    assert [QUOT] + [] == [QUOT];
    AtHead(b, s + 1 + |x|, QUOT, []);
    Slice(b, s + 1, x);
    SkipWsIs(b, s, s);
    EscapedBytes(v, true);
    ScanOver(b, s + 1, x, QUOT);
    ConvertEscapedAttribute(v);
    DetabStable(v);
    CStrId(Detab(v));
  }

  lemma AttrParsed(b: seq<byte>, q: nat, a: Attr, c: Cursor, endch: byte)
    requires Terminated(b) && c.Open? && IsName(a.name) && StandsAt(b, q, AttrText(a))
    requires q + |AttrText(a)| < |b| && !IsStartSymbol(b[q + |AttrText(a)|])
    ensures Attributes(b, q, c, endch)
         == Attributes(b, q + |AttrText(a)|, c.(attrs := c.attrs + [CanonAttr(a)]), endch)
  {
    hide Escape, CStr, AttributeValue, SkipWs, SkipSymbols, NameOrDefault, StandsAt, Attribute;
    var e := q + 1 + |a.name|;
    AttrLayout(b, q, a);
    assert q + |AttrText(a)| == e + 3 + |Escape(CStr(a.value), true)| by { NameKept(a.name); }
    SkipWsIs(b, q, q + 1);
    ValueParsed(b, e + 1, CStr(a.value), c, a.name);
    AttributeIs(b, q + 1, e, c, a.name);
  }

  /** Where the name, the equals sign and the quoted value of a printed attribute stand. */
  lemma AttrLayout(b: seq<byte>, q: nat, a: Attr)
    requires Terminated(b) && IsName(a.name) && StandsAt(b, q, AttrText(a))
    ensures var e := q + 1 + |a.name|;
      e + 1 < |b| && b[q] == SPACE && b[q + 1..e] == a.name && b[e] == EQ && b[e + 1] == QUOT
    ensures StandsAt(b, q + 2 + |a.name|, [QUOT] + Escape(CStr(a.value), true) + [QUOT])
    ensures SkipSymbols(b, q + 1) == q + 1 + |a.name| && IsStartSymbol(b[q + 1])
  {
    hide Escape, CStr, AttrText, SkipSymbols, StandsAt, IsName;
    var value := Escape(CStr(a.value), true) + [QUOT];
    AttrJoined(a);
    assert [QUOT] + Escape(CStr(a.value), true) + [QUOT] == [QUOT] + value;
    AtHead(b, q, SPACE, a.name + ([EQ] + ([QUOT] + value)));
    AtConcat(b, q + 1, a.name, [EQ] + ([QUOT] + value));
    var e := q + 1 + |a.name|;
    AtHead(b, e, EQ, [QUOT] + value);
    AtHead(b, e + 1, QUOT, value);
    NameScanned(b, q + 1, a.name);
    Slice(b, q + 1, a.name);
  }

  lemma AttrJoined(a: Attr)
    requires IsName(a.name)
    ensures AttrText(a) == [SPACE] + (a.name + ([EQ] + ([QUOT] + (Escape(CStr(a.value), true) + [QUOT]))))
  {
    hide Escape, CStr, NameOrDefault;
    NameKept(a.name);
  }

  /** One byte and what follows it. */
  lemma AtHead(b: seq<byte>, s: nat, c: byte, x: seq<byte>)
    requires StandsAt(b, s, [c] + x)
    ensures s < |b| && b[s] == c && StandsAt(b, s + 1, x)
  {
    AtConcat(b, s, [c], x);
    assert b[s..s + 1] == [c];
    assert b[s..s + 1][0] == b[s];
  }

  lemma Slice(b: seq<byte>, s: nat, x: seq<byte>)
    requires StandsAt(b, s, x)
    ensures b[s..s + |x|] == x
  {
  }

  lemma AttributeIs(b: seq<byte>, s: nat, e: nat, c: Cursor, name: seq<byte>)
    requires Terminated(b) && s < e && e + 1 < |b| && IsStartSymbol(b[s]) && c.Open? && SkipSymbols(b, s) == e
    requires b[s..e] == name && b[e] == EQ && b[e + 1] == QUOT
    ensures Attribute(b, s, c) == AttributeValue(b, e + 1, c, name)
  {
    hide SkipSymbols, AttributeValue, SkipWs;
  }

  lemma {:induction false} AttrsParsed(b: seq<byte>, q: nat, attrs: seq<Attr>, c: Cursor, endch: byte)
    requires Terminated(b) && c.Open? && NamedAttrs(attrs) && StandsAt(b, q, PrintAttrs(attrs))
    requires q + |PrintAttrs(attrs)| < |b| && !IsStartSymbol(b[q + |PrintAttrs(attrs)|])
    ensures Attributes(b, q, c, endch)
         == Attributes(b, q + |PrintAttrs(attrs)|, c.(attrs := c.attrs + CanonAttrs(attrs)), endch)
    decreases |attrs|
  {
    hide Attributes, AttrText, CanonAttr, CanonAttrs, PrintAttrs, StandsAt, IsStartSymbol, IsName;
    AttrsCons(attrs);
    if attrs == [] {
      assert c.(attrs := c.attrs + CanonAttrs(attrs)) == c;
    } else {
      var a, rest := attrs[0], attrs[1..];
      AtConcat(b, q, AttrText(a), PrintAttrs(rest));
      var p := q + |AttrText(a)|;
      AttrsFront(b, p, rest);
      AttrParsed(b, q, a, c, endch);
      var c1 := c.(attrs := c.attrs + [CanonAttr(a)]);
      AttrsParsed(b, p, rest, c1, endch);
      assert c1.attrs + CanonAttrs(rest) == c.attrs + CanonAttrs(attrs);
    }
  }

  lemma AttrsCons(attrs: seq<Attr>)
    ensures attrs == [] ==> PrintAttrs(attrs) == [] && CanonAttrs(attrs) == []
    ensures attrs != [] ==>
      PrintAttrs(attrs) == AttrText(attrs[0]) + PrintAttrs(attrs[1..]) &&
      CanonAttrs(attrs) == [CanonAttr(attrs[0])] + CanonAttrs(attrs[1..])
  {
    hide Escape, CStr, NameOrDefault, CanonAttrs, CanonAttr;
    CanonAttrsCons(attrs);
  }

  lemma CanonAttrsCons(attrs: seq<Attr>)
    ensures attrs == [] ==> CanonAttrs(attrs) == []
    ensures attrs != [] ==> CanonAttrs(attrs) == [CanonAttr(attrs[0])] + CanonAttrs(attrs[1..])
  {
    hide CStr, Detab;
  }

  /** What follows an attribute is a space or the end of the tag. */
  lemma AttrsFront(b: seq<byte>, p: nat, rest: seq<Attr>)
    requires StandsAt(b, p, PrintAttrs(rest)) && p + |PrintAttrs(rest)| < |b| &&
        !IsStartSymbol(b[p + |PrintAttrs(rest)|])
    ensures !IsStartSymbol(b[p])
  {
    if rest != [] {
      AtByte(b, p, PrintAttrs(rest));
      assert PrintAttrs(rest)[0] == SPACE;
      assert b[p + 0] == SPACE;
    }
  }

  /** '<name a="v"' up to the end of the start tag. */
  lemma StartParsed(b: seq<byte>, s: nat, n: Node, c: Cursor, endch: byte)
    requires Terminated(b) && n.Element? && IsName(n.name) && NamedAttrs(n.attrs) && StandsAt(b, s, StartOf(n))
    requires s + |StartOf(n)| < |b| && (b[s + |StartOf(n)|] == SPACE || b[s + |StartOf(n)|] == GT)
    ensures b[s] == LT && |StartOf(n)| > 1
    ensures Tag(b, s + 1, c, endch)
         == Attributes(b, s + |StartOf(n)|, Open(n.name, CanonAttrs(n.attrs), [], c), endch)
  {
    hide Attributes, PrintAttrs, CanonAttrs, SkipSymbols, StartOf, StandsAt, NamedAttrs, IsName, OpenTag;
    var e := s + 1 + |n.name|;
    StartLayout(b, s, n);
    StartEnds(b, e, n.attrs);
    NotInTag();
    NameScanned(b, s + 1, n.name);
    Slice(b, s + 1, n.name);
    StartIsTag(b, s, c, endch);
    var o := Open(n.name, [], [], c);
    OpenTagIs(b, s + 1, e, c, endch);
    AttrsParsed(b, e, n.attrs, o, endch);
    assert o.(attrs := o.attrs + CanonAttrs(n.attrs)) == Open(n.name, CanonAttrs(n.attrs), [], c);
  }

  lemma StartLayout(b: seq<byte>, s: nat, n: Node)
    requires n.Element? && IsName(n.name) && StandsAt(b, s, StartOf(n))
    ensures s < |b| && b[s] == LT && StandsAt(b, s + 1, n.name) && StandsAt(b, s + 1 + |n.name|, PrintAttrs(n.attrs))
    ensures |StartOf(n)| == 1 + |n.name| + |PrintAttrs(n.attrs)| > 1
  {
    hide PrintAttrs, StandsAt, NameOrDefault;
    NameKept(n.name);
    assert StartOf(n) == [LT] + (n.name + PrintAttrs(n.attrs));
    AtHead(b, s, LT, n.name + PrintAttrs(n.attrs));
    AtConcat(b, s + 1, n.name, PrintAttrs(n.attrs));
  }

  lemma NotInTag()
    ensures !IsSymbol(SPACE) && !IsSymbol(GT) && !IsStartSymbol(SPACE) && !IsStartSymbol(GT)
  {
  }

  lemma StartIsTag(b: seq<byte>, s: nat, c: Cursor, endch: byte)
    requires Terminated(b) && s + 1 < |b| && IsStartSymbol(b[s + 1])
    ensures Tag(b, s + 1, c, endch) == OpenTag(b, s + 1, c, endch)
  {
    hide OpenTag;
  }

  lemma StartEnds(b: seq<byte>, e: nat, attrs: seq<Attr>)
    requires StandsAt(b, e, PrintAttrs(attrs)) && e + |PrintAttrs(attrs)| < |b|
    requires b[e + |PrintAttrs(attrs)|] == SPACE || b[e + |PrintAttrs(attrs)|] == GT
    ensures b[e] == SPACE || b[e] == GT
  {
    if attrs != [] {
      AtByte(b, e, PrintAttrs(attrs));
      assert PrintAttrs(attrs)[0] == SPACE;
      assert b[e + 0] == SPACE;
    }
  }

  lemma OpenTagIs(b: seq<byte>, s: nat, e: nat, c: Cursor, endch: byte)
    requires Terminated(b) && s < |b| && IsStartSymbol(b[s]) && e == SkipSymbols(b, s) && (b[e] == SPACE || b[e] == GT)
    ensures OpenTag(b, s, c, endch) == Attributes(b, e, Open(b[s..e], [], [], c), endch)
  {
    hide Attribute, SkipSymbols, EndsWith;
    if b[e] == GT {
      SkipWsIs(b, e, e);
    } else {
      assert SkipWs(b, e) == SkipWs(b, e + 1);
    }
  }

  // ---------- End tags ----------

  /** Past a '>' that may be the replaced last byte. */
  function Past(b: seq<byte>, p: nat): nat
    requires p < |b|
  {
    if b[p] == GT then p + 1 else p
  }

  lemma ParseTag(b: seq<byte>, s: nat, c: Cursor, endch: byte, next: nat, c': Cursor)
    requires Terminated(b) && s + 1 < |b| && b[s] == LT && Tag(b, s + 1, c, endch) == Next(next, c')
    ensures next < |b| && Parse(b, s, c, endch) == Parse(b, next, c', endch)
  {
    hide Tag;
  }

  lemma EndParsed(b: seq<byte>, s: nat, name: seq<byte>, c: Cursor, endch: byte)
    requires Terminated(b) && c.Open? && c.name == name && IsName(name) && StandsAt(b, s, [LT, SLASH] + name)
    requires s + 2 + |name| < |b| && EndsWith(b[s + 2 + |name|], GT, endch)
    requires Past(b, s + 2 + |name|) < |b|
    ensures Parse(b, s, c, endch) == Parse(b, Past(b, s + 2 + |name|), Pop(c), endch)
  {
    hide SkipWs, SkipSymbols, Common, Parse;
    AtConcat(b, s, [LT, SLASH], name);
    AtByte(b, s, [LT, SLASH]);
    assert b[s] == [LT, SLASH][0] && b[s + 1] == [LT, SLASH][1];
    var e := s + 2 + |name|;
    NameScanned(b, s + 2, name);
    assert b[s + 2..e] == name;
    CommonSelf(name);
    SkipWsIs(b, e, e);
    assert Tag(b, s + 1, c, endch) == EndTag(b, s + 2, c, endch);
    ParseTag(b, s, c, endch, Past(b, e), Pop(c));
  }

  lemma {:induction false} CommonSelf(x: seq<byte>)
    ensures Common(x, x) == |x|
  {
    if x != [] {
      CommonSelf(x[1..]);
    }
  }

  // ---------- Text and CDATA ----------

  function AddAll(c: Cursor, ns: seq<Node>): (r: Cursor)
    requires c.Open?
    ensures r.Open?
  {
    c.(children := c.children + ns)
  }

  lemma AddAllTwice(c: Cursor, x: seq<Node>, y: seq<Node>)
    requires c.Open?
    ensures AddAll(AddAll(c, x), y) == AddAll(c, x + y)
    ensures AddAll(c, []) == c
  {
    assert c.children + x + y == c.children + (x + y);
    assert c.children + [] == c.children;
  }

  /** White space in front of a tag is passed over. */
  lemma SpaceSkipped(b: seq<byte>, s: nat, p: nat, c: Cursor, endch: byte)
    requires Terminated(b) && s <= p < |b| && b[p] == LT && forall i :: s <= i < p ==> IsSpace(b[i])
    ensures Parse(b, s, c, endch) == Parse(b, p, c, endch)
  {
    hide Tag, SkipWs;
    SkipWsIs(b, s, p);
    if s < p {
      assert Text(b, s, c) == Next(p, c);
    }
  }

  /** Escaped text in an element, up to the next tag. */
  lemma TextParsed(b: seq<byte>, s: nat, v: seq<byte>, c: Cursor, endch: byte)
    requires Terminated(b) && c.Open? && NUL !in v && StandsAt(b, s, Escape(v, false))
    requires var e := s + |Escape(v, false)|; e + 1 < |b| && b[e] == LT && b[e + 1] != NUL
    ensures Parse(b, s, c, endch) == Parse(b, s + |Escape(v, false)|, AddAll(c, Leaf(v)), endch)
  {
    hide Escape, Convert, Tag, SkipWs, ScanTo, AllSpace;
    var x := Escape(v, false);
    var e := s + |x|;
    EscapedBytes(v, false);
    AtByte(b, s, x);
    AddAllTwice(c, [], []);
    if AllSpace(v) {
      AllSpaceAt(b, s, x);
      SpaceSkipped(b, s, e, c, endch);
    } else {
      ScanOver(b, s, x, LT);
      TextStart(b, s, x);
      ConvertEscapedText(v);
      EolNoNul(v);
      CStrId(Convert(v, Eol, false));
      assert b[s..e] == x;
      assert Text(b, s, c) == Next(e, AddAll(c, Leaf(v)));
      ParseText(b, s, c, endch);
    }
  }

  lemma ParseText(b: seq<byte>, s: nat, c: Cursor, endch: byte)
    requires Terminated(b) && s < |b| && b[s] != NUL && b[s] != LT && Text(b, s, c).Next?
    ensures Parse(b, s, c, endch) == Parse(b, Text(b, s, c).s, Text(b, s, c).cursor, endch)
  {
    hide Text;
  }

  lemma AllSpaceAt(b: seq<byte>, s: nat, x: seq<byte>)
    requires StandsAt(b, s, x) && AllSpace(x)
    ensures forall i :: s <= i < s + |x| ==> IsSpace(b[i])
  {
    AtByte(b, s, x);
    assert forall i :: s <= i < s + |x| ==> b[i] == x[i - s];
  }

  /** Text that is not all white space: the scan for its start stops inside it. */
  lemma TextStart(b: seq<byte>, s: nat, x: seq<byte>)
    requires Terminated(b) && StandsAt(b, s, x) && !AllSpace(x) && LT !in x && NUL !in x
    ensures s < |b| && b[s] != LT && b[s] != NUL
    ensures b[SkipWs(b, s)] != LT && b[SkipWs(b, s)] != NUL
  {
    AtByte(b, s, x);
    var i :| 0 <= i < |x| && !IsSpace(x[i]);
    assert b[s + i] == x[i];
    var p := SkipWs(b, s);
    assert p <= s + i;
    assert b[s + (p - s)] == x[p - s] && x[p - s] in x;
    assert b[s + 0] == x[0] && x[0] in x;
  }

  /** The first "]]>" behind a section's text is the one that closes it. */
  lemma SectionScanned(b: seq<byte>, v: nat, piece: seq<byte>, endch: byte)
    requires Terminated(b) && StandsAt(b, v, piece + CDATA_END) && NUL !in piece && NoSectionEnd(piece)
    ensures ScanSection(b, v, RBRACKET, endch) == v + |piece|
  {
    AtByte(b, v, piece + CDATA_END);
    var x := piece + CDATA_END;
    assert forall i :: 0 <= i < |piece| ==> x[i] == piece[i] && piece[i] in piece;
    assert x[|piece|] == RBRACKET && x[|piece| + 1] == RBRACKET && x[|piece| + 2] == GT;
    forall i | v <= i < v + |piece|
      ensures b[i] != NUL && !SectionEnd(b, i, RBRACKET, endch)
    {
      assert b[i] == x[i - v] && b[i + 1] == x[i - v + 1] && b[i + 2] == x[i - v + 2];
      assert !EndsSection(piece, i - v);
    }
    assert b[v + |piece|] == x[|piece|] && b[v + |piece| + 1] == x[|piece| + 1] && b[v + |piece| + 2] == x[|piece| + 2];
    ScanSectionIs(b, v, v + |piece|, RBRACKET, endch);
  }

  lemma {:induction false} ScanSectionIs(b: seq<byte>, s: nat, e: nat, mark: byte, endch: byte)
    requires Terminated(b) && s <= e < |b| && SectionEnd(b, e, mark, endch)
    requires forall i :: s <= i < e ==> b[i] != NUL && !SectionEnd(b, i, mark, endch)
    ensures ScanSection(b, s, mark, endch) == e
    decreases e - s
  {
    if s < e {
      ScanSectionIs(b, s + 1, e, mark, endch);
    }
  }

  lemma SectionParsed(b: seq<byte>, s: nat, piece: seq<byte>, c: Cursor, endch: byte)
    requires Terminated(b) && c.Open? && NUL !in piece && NoSectionEnd(piece)
    requires StandsAt(b, s, CDATA_START + piece + CDATA_END) && s + 12 + |piece| < |b|
    ensures Parse(b, s, c, endch) == Parse(b, s + 12 + |piece|, AddAll(c, [Cdata(Convert(piece, Eol, false))]), endch)
  {
    hide ScanSection, Convert, Common, StandsAt, Parse, Tag;
    assert CDATA_START + piece + CDATA_END == CDATA_START + (piece + CDATA_END);
    AtConcat(b, s, CDATA_START, piece + CDATA_END);
    AtByte(b, s, CDATA_START);
    assert forall i :: 0 <= i < 9 ==> b[s + i] == CDATA_START[i];
    var v := s + 9;
    var q := v + |piece|;
    SectionScanned(b, v, piece, endch);
    AtConcat(b, v, piece, CDATA_END);
    AtByte(b, q, CDATA_END);
    AtFront(b, q, CDATA_END);
    CdataOpens(b, s);
    Slice(b, v, piece);
    AtFront(b, s, CDATA_START);
    ExclamationIs(b, s, q, piece, c, endch);
    ParseTag(b, s, c, endch, q + 3, AddAll(c, [Cdata(Convert(piece, Eol, false))]));
  }

  lemma ExclamationIs(b: seq<byte>, s: nat, q: nat, piece: seq<byte>, c: Cursor, endch: byte)
    requires Terminated(b) && s + 9 <= q && q + 3 < |b| && c.Open? && b[s + 1] == BANG && b[s + 2] == LBRACKET
    requires Common(CDATA_OPEN, b[s + 3..]) == 6 && ScanSection(b, s + 9, RBRACKET, endch) == q
    requires b[s + 9..q] == piece && b[q] != NUL && b[q + 2] == GT && NUL !in piece
    ensures Tag(b, s + 1, c, endch) == Next(q + 3, AddAll(c, [Cdata(Convert(piece, Eol, false))]))
  {
    hide ScanSection, Convert, Common, CStr;
    EolNoNul(piece);
    CStrId(Convert(piece, Eol, false));
  }

  lemma CdataOpens(b: seq<byte>, s: nat)
    requires s + 9 <= |b| && forall i :: 0 <= i < 9 ==> b[s + i] == CDATA_START[i]
    ensures Common(CDATA_OPEN, b[s + 3..]) == 6
  {
    var y := b[s + 3..];
    assert CDATA_START[3..] == CDATA_OPEN;
    forall i | 0 <= i < 6
      ensures y[i] == CDATA_OPEN[i]
    {
      assert b[s + (3 + i)] == CDATA_START[3 + i] == CDATA_START[3..][i];
    }
    CommonFront(CDATA_OPEN, y);
  }

  lemma {:induction false} CommonFront(x: seq<byte>, y: seq<byte>)
    requires |x| <= |y| && forall i :: 0 <= i < |x| ==> x[i] == y[i]
    ensures Common(x, y) == |x|
  {
    if x != [] {
      CommonFront(x[1..], y[1..]);
    }
  }

  lemma {:induction false} SectionsParsed(b: seq<byte>, s: nat, pieces: seq<seq<byte>>, c: Cursor, endch: byte)
    requires Terminated(b) && c.Open? && StandsAt(b, s, SectionText(pieces)) && s + |SectionText(pieces)| < |b|
    requires forall i :: 0 <= i < |pieces| ==> NUL !in pieces[i] && NoSectionEnd(pieces[i])
    ensures Parse(b, s, c, endch) == Parse(b, s + |SectionText(pieces)|, AddAll(c, CdataNodes(pieces)), endch)
    decreases |pieces|
  {
    hide Parse, Convert;
    if pieces == [] {
      AddAllTwice(c, [], []);
    } else {
      var p, rest := pieces[0], pieces[1..];
      var one := CDATA_START + p + CDATA_END;
      AtConcat(b, s, one, SectionText(rest));
      SectionParsed(b, s, p, c, endch);
      var nodes := [Cdata(Convert(p, Eol, false))];
      SectionsParsed(b, s + |one|, rest, AddAll(c, nodes), endch);
      AddAllTwice(c, nodes, CdataNodes(rest));
    }
  }
}
