/**
 * Printing a tree and parsing the output gives the canonical form of the tree. The proof walks raw output;
 * indented output is raw output of a tree with more text.
 */
module RoundTrip {
  import opened Chars
  import opened StrConv
  import opened Dom
  import opened Parser
  import opened Printer
  import opened Escaping
  import opened Canon
  import opened Layout
  import opened TagTrip

  lemma Assoc4(w: seq<byte>, x: seq<byte>, y: seq<byte>, z: seq<byte>)
    ensures w + x + y + z == w + (x + (y + z))
  {
  }

  /** What follows a piece of content: a tag. */
  predicate Follows(b: seq<byte>, e: nat) {
    Terminated(b) && e + 1 < |b| && b[e] == LT && b[e + 1] != NUL
  }

  /** The front of printed content is a tag when no text comes first. */
  lemma FrontFollows(b: seq<byte>, s: nat, ns: seq<Node>, fmt: Format, depth: nat)
    requires fmt.raw && NamedAll(ns) && (ns != [] ==> !ns[0].Pcdata?)
    requires StandsAt(b, s, PrintNodes(ns, fmt, depth)) && Follows(b, s + |PrintNodes(ns, fmt, depth)|)
    ensures Follows(b, s)
  {
    hide PrintNode;
    if ns != [] {
      AtConcat(b, s, PrintNode(ns[0], fmt, depth), PrintNodes(ns[1..], fmt, depth));
      TagFront(b, s, ns[0], fmt, depth);
    }
  }

  /** A printed node that is no text starts with '<' and this byte. */
  function SecondByte(n: Node): byte
    requires n.Element? ==> n.name != []
  {
    if n.Element? then n.name[0] else BANG
  }

  lemma ElementFront(n: Node, fmt: Format, depth: nat) returns (tail: seq<byte>)
    requires n.Element? && IsName(n.name)
    ensures Body(n, fmt, depth) == [LT, n.name[0]] + tail
  {
    hide PrintAttrs, Inner, NameOrDefault;
    NameKept(n.name);
    var name, rest := n.name, PrintAttrs(n.attrs);
    var more := if n.children == [] then [SPACE, SLASH] else [GT] + Inner(n, fmt, depth) + ([LT, SLASH] + name);
    assert Body(n, fmt, depth) == [LT] + name + rest + more;
    assert name == [name[0]] + name[1..];
    tail := name[1..] + rest + more;
  }

  lemma SectionFront(v: seq<byte>) returns (tail: seq<byte>)
    ensures SectionText(Sections(v)) == [LT, BANG] + tail
  {
    hide Sections;
    var pieces := Sections(v);
    var rest := pieces[0] + CDATA_END + SectionText(pieces[1..]);
    assert SectionText(pieces) == CDATA_START + rest;
    assert CDATA_START == [LT, BANG] + CDATA_START[2..];
    tail := CDATA_START[2..] + rest;
  }

  /** A printed element or CDATA section starts with '<' and a byte that is not zero. */
  lemma TagFront(b: seq<byte>, s: nat, n: Node, fmt: Format, depth: nat)
    requires fmt.raw && !n.Pcdata? && Named(n) && StandsAt(b, s, PrintNode(n, fmt, depth))
    ensures s + 1 < |b| && b[s] == LT && b[s + 1] != NUL
  {
    hide PrintNode, StandsAt, Body, Sections, SectionText, CStr;
    PrintedCore(n, fmt, depth);
    var c := SecondByte(n);
    var tail;
    if n.Element? {
      tail := ElementFront(n, fmt, depth);
      tail := tail + [GT];
    } else {
      tail := SectionFront(CStr(n.value));
    }
    assert PrintNode(n, fmt, depth) == [LT, c] + tail;
    AtConcat(b, s, [LT, c], tail);
    AtByte(b, s, [LT, c]);
    assert b[s + 0] == [LT, c][0] && b[s + 1] == [LT, c][1];
  }

  /** An element from its '<' to its last '>', which may be the replaced last byte of the buffer. */
  lemma {:induction false} ElementParsed(b: seq<byte>, s: nat, n: Node, fmt: Format, depth: nat, c: Cursor, endch: byte)
    requires Terminated(b) && n.Element? && Named(n) && fmt.raw
    requires StandsAt(b, s, Body(n, fmt, depth))
    requires var e := s + |Body(n, fmt, depth)|; e < |b| && EndsWith(b[e], GT, endch) && Past(b, e) < |b|
    ensures s < |b| &&
        Parse(b, s, c, endch) == Parse(b, Past(b, s + |Body(n, fmt, depth)|), AddChild(c, CanonNode(n)), endch)
    decreases n, 0
  {
    hide Parse, StartOf, Inner, PrintNodes, CanonNodes, CanonAttrs, Indentation, Attributes, Tag, StandsAt, Body;
    if n.children == [] {
      EmptyElementParsed(b, s, n, fmt, depth, c, endch);
    } else {
      var o := Open(n.name, CanonAttrs(n.attrs), [], c);
      BodyLayout(b, s, n, fmt, depth);
      NameKept(n.name);
      var p := s + |StartOf(n)|;
      var q := p + 1;
      var r := q + |Inner(n, fmt, depth)|;
      StartParsed(b, s, n, c, endch);
      TagClosed(b, p, o, endch);
      ParseTag(b, s, c, endch, q, o);
      InnerParsed(b, q, n, fmt, depth, o, endch);
      var filled := AddAll(o, CanonNodes([], n.children));
      EndParsed(b, r, n.name, filled, endch);
      assert filled.children == CanonNodes([], n.children);
    }
  }

  lemma EmptyElementParsed(b: seq<byte>, s: nat, n: Node, fmt: Format, depth: nat, c: Cursor, endch: byte)
    requires Terminated(b) && n.Element? && Named(n) && fmt.raw && n.children == []
    requires StandsAt(b, s, Body(n, fmt, depth))
    requires var e := s + |Body(n, fmt, depth)|; e < |b| && EndsWith(b[e], GT, endch) && Past(b, e) < |b|
    ensures s < |b| &&
        Parse(b, s, c, endch) == Parse(b, Past(b, s + |Body(n, fmt, depth)|), AddChild(c, CanonNode(n)), endch)
  {
    hide Parse, StartOf, CanonAttrs, Attributes, Tag, StandsAt;
    var o := Open(n.name, CanonAttrs(n.attrs), [], c);
    var p := s + |StartOf(n)|;
    AtConcat(b, s, StartOf(n), [SPACE, SLASH]);
    AtByte(b, p, [SPACE, SLASH]);
    assert b[p + 0] == SPACE && b[p + 1] == SLASH;
    StartParsed(b, s, n, c, endch);
    SelfClosed(b, p, o, endch);
    CanonEmpty(n);
    ParseTag(b, s, c, endch, Past(b, p + 2), Pop(o));
  }

  lemma CanonEmpty(n: Node)
    requires n.Element? && n.children == []
    ensures CanonNode(n) == Element(n.name, CanonAttrs(n.attrs), [])
  {
  }

  lemma BodyLayout(b: seq<byte>, s: nat, n: Node, fmt: Format, depth: nat)
    requires n.Element? && n.children != [] && StandsAt(b, s, Body(n, fmt, depth))
    ensures StandsAt(b, s, StartOf(n)) && s + |StartOf(n)| < |b| && b[s + |StartOf(n)|] == GT
    ensures StandsAt(b, s + |StartOf(n)| + 1, Inner(n, fmt, depth))
    ensures StandsAt(b, s + |StartOf(n)| + 1 + |Inner(n, fmt, depth)|, [LT, SLASH] + NameOrDefault(n.name))
    ensures s + |Body(n, fmt, depth)| == s + |StartOf(n)| + 1 + |Inner(n, fmt, depth)| + 2 + |NameOrDefault(n.name)|
    ensures var r := s + |StartOf(n)| + 1 + |Inner(n, fmt, depth)|; b[r] == LT && b[r + 1] == SLASH
  {
    hide StartOf, Inner, NameOrDefault, StandsAt;
    var start, inner, end := StartOf(n), Inner(n, fmt, depth), [LT, SLASH] + NameOrDefault(n.name);
    Assoc4(start, [GT], inner, end);
    assert Body(n, fmt, depth) == start + [GT] + inner + end;
    AtConcat(b, s, start, [GT] + (inner + end));
    var p := s + |start|;
    AtConcat(b, p, [GT], inner + end);
    AtConcat(b, p + 1, inner, end);
    AtByte(b, p, [GT]);
    assert b[p + 0] == [GT][0];
    var r := p + 1 + |inner|;
    AtByte(b, r, end);
    assert b[r + 0] == end[0] && b[r + 1] == end[1];
  }

  lemma SelfClosed(b: seq<byte>, p: nat, o: Cursor, endch: byte)
    requires Terminated(b) && o.Open? && p + 2 < |b| && b[p] == SPACE && b[p + 1] == SLASH
    requires EndsWith(b[p + 2], GT, endch) && Past(b, p + 2) < |b|
    ensures Attributes(b, p, o, endch) == Next(Past(b, p + 2), Pop(o))
  {
    hide SkipWs;
    SkipWsIs(b, p, p + 1);
  }

  lemma TagClosed(b: seq<byte>, p: nat, o: Cursor, endch: byte)
    requires Terminated(b) && o.Open? && p + 1 < |b| && b[p] == GT
    ensures Attributes(b, p, o, endch) == Next(p + 1, o)
  {
    hide SkipWs;
    SkipWsIs(b, p, p);
  }

  /** The content of an element, up to its end tag. */
  lemma {:induction false} InnerParsed(b: seq<byte>, s: nat, n: Node, fmt: Format, depth: nat, o: Cursor, endch: byte)
    requires Terminated(b) && n.Element? && Named(n) && fmt.raw && n.children != []
    requires o.Open? && StandsAt(b, s, Inner(n, fmt, depth))
    requires var e := s + |Inner(n, fmt, depth)|; e + 1 < |b| && b[e] == LT && b[e + 1] == SLASH
    ensures Parse(b, s, o, endch) == Parse(b, s + |Inner(n, fmt, depth)|, AddAll(o, CanonNodes([], n.children)), endch)
    decreases n.children, 2
  {
    hide Parse, PrintNodes, CanonNodes, Indentation, StandsAt, AddAll;
    var text := PrintNodes(n.children, fmt, depth + 1);
    assert Indentation(fmt, depth) == [] by { NoIndentation(fmt, depth); }
    assert [] + text + [] == text;
    NothingPending(text);
    ContentParsed(b, s, [], n.children, fmt, depth + 1, o, endch);
  }

  lemma NoIndentation(fmt: Format, depth: nat)
    requires fmt.raw
    ensures Indentation(fmt, depth) == []
  {
  }

  /** Children in order, behind text that is still to be read. */
  lemma {:induction false} ContentParsed(b: seq<byte>, s: nat, pending: seq<byte>, ns: seq<Node>, fmt: Format,
                                         depth: nat, o: Cursor, endch: byte)
    requires Terminated(b) && o.Open? && NamedAll(ns) && fmt.raw && NUL !in pending
    requires StandsAt(b, s, Escape(pending, false) + PrintNodes(ns, fmt, depth))
    requires Follows(b, s + |Escape(pending, false) + PrintNodes(ns, fmt, depth)|)
    ensures Parse(b, s, o, endch)
         == Parse(b, s + |Escape(pending, false) + PrintNodes(ns, fmt, depth)|,
                  AddAll(o, CanonNodes(pending, ns)), endch)
    decreases ns, 0
  {
    hide Parse, PrintNode, PrintNodes, Escape, Leaf, CStr, CanonNodes, StandsAt, Follows, AddAll, NamedAll, Named,
        OwnNodes;
    var x := Escape(pending, false);
    ConsNamed(ns);
    PrintNodesCons(ns, fmt, depth);
    CanonNodesCons(pending, ns);
    if ns == [] {
      assert x + PrintNodes(ns, fmt, depth) == x;
      PendingParsed(b, s, pending, o, endch);
    } else if ns[0].Pcdata? {
      TextAhead(pending, ns, fmt, depth);
      ContentParsed(b, s, pending + CStr(ns[0].value), ns[1..], fmt, depth, o, endch);
    } else {
      var n, rest := ns[0], ns[1..];
      var p := s + |x|;
      var q := p + |PrintNode(n, fmt, depth)|;
      ContentLayout(b, s, x, ns, fmt, depth);
      PendingParsed(b, s, pending, o, endch);
      var o1 := AddAll(o, Leaf(pending));
      NodeParsed(b, p, n, fmt, depth, o1, endch);
      ContentParsed(b, q, [], rest, fmt, depth, AddAll(o1, OwnNodes(n)), endch);
      AddAllTwice(o, Leaf(pending), OwnNodes(n));
      AddAllTwice(o, Leaf(pending) + OwnNodes(n), CanonNodes([], rest));
    }
  }

  /** Where the pending text, the first child and the rest stand. */
  lemma ContentLayout(b: seq<byte>, s: nat, x: seq<byte>, ns: seq<Node>, fmt: Format, depth: nat)
    requires NamedAll(ns) && fmt.raw && ns != [] && !ns[0].Pcdata?
    requires StandsAt(b, s, x + PrintNodes(ns, fmt, depth)) && Follows(b, s + |x + PrintNodes(ns, fmt, depth)|)
    ensures StandsAt(b, s, x) && Follows(b, s + |x|) && StandsAt(b, s + |x|, PrintNode(ns[0], fmt, depth))
    ensures
      var q := s + |x| + |PrintNode(ns[0], fmt, depth)|;
      var tail := Escape([], false) + PrintNodes(ns[1..], fmt, depth);
      q < |b| && StandsAt(b, q, tail) && Follows(b, q + |tail|) && q + |tail| == s + |x + PrintNodes(ns, fmt, depth)|
  {
    hide PrintNode, PrintNodes, StandsAt, Escape, NamedAll;
    var one, tail := PrintNode(ns[0], fmt, depth), PrintNodes(ns[1..], fmt, depth);
    PrintNodesCons(ns, fmt, depth);
    AtConcat(b, s, x, one + tail);
    FrontFollows(b, s + |x|, ns, fmt, depth);
    AtConcat(b, s + |x|, one, tail);
    NothingPending(tail);
  }

  lemma ConsNamed(ns: seq<Node>)
    requires NamedAll(ns)
    ensures ns != [] ==> Named(ns[0]) && NamedAll(ns[1..])
  {
  }

  lemma NothingPending(tail: seq<byte>)
    ensures Escape([], false) + tail == tail
  {
  }

  lemma TextAhead(pending: seq<byte>, ns: seq<Node>, fmt: Format, depth: nat)
    requires fmt.raw && ns != [] && ns[0].Pcdata? && NUL !in pending
    ensures var v := CStr(ns[0].value);
      Escape(pending, false) + PrintNodes(ns, fmt, depth) ==
          Escape(pending + v, false) + PrintNodes(ns[1..], fmt, depth)
    ensures NUL !in pending + CStr(ns[0].value)
  {
    hide Escape, CStr, PrintNode;
    var v := CStr(ns[0].value);
    EscapeConcat(pending, v, false);
    RawText(ns[0], fmt, depth);
    assert AsRaw(fmt) == fmt;
    var x, y, z := Escape(pending, false), Escape(v, false), PrintNodes(ns[1..], fmt, depth);
    assert x + (y + z) == x + y + z;
  }

  lemma PendingParsed(b: seq<byte>, s: nat, pending: seq<byte>, o: Cursor, endch: byte)
    requires Terminated(b) && o.Open? && NUL !in pending && StandsAt(b, s, Escape(pending, false))
    requires Follows(b, s + |Escape(pending, false)|)
    ensures Parse(b, s, o, endch) == Parse(b, s + |Escape(pending, false)|, AddAll(o, Leaf(pending)), endch)
  {
    hide Parse, Escape, StandsAt, AddAll, Leaf;
    TextParsed(b, s, pending, o, endch);
  }

  /** One child, that is no text. */
  lemma {:induction false} NodeParsed(b: seq<byte>, p: nat, n: Node, fmt: Format, depth: nat, o: Cursor, endch: byte)
    requires Terminated(b) && o.Open? && !n.Pcdata? && Named(n) && fmt.raw
    requires StandsAt(b, p, PrintNode(n, fmt, depth)) && p + |PrintNode(n, fmt, depth)| < |b|
    ensures Parse(b, p, o, endch) == Parse(b, p + |PrintNode(n, fmt, depth)|, AddAll(o, OwnNodes(n)), endch)
    decreases n, 1
  {
    hide Parse, PrintNode, Body, Sections, SectionText, CanonNode, CdataNodes, StandsAt, AddAll;
    PrintedCore(n, fmt, depth);
    if n.Element? {
      var body := Body(n, fmt, depth);
      var e := p + |body|;
      AtConcat(b, p, body, [GT]);
      AtByte(b, e, [GT]);
      assert b[e + 0] == [GT][0];
      ElementParsed(b, p, n, fmt, depth, o, endch);
      AddOne(o, CanonNode(n));
    } else {
      SectionsSound(CStr(n.value));
      SectionsParsed(b, p, Sections(CStr(n.value)), o, endch);
    }
  }

  lemma PrintedCore(n: Node, fmt: Format, depth: nat)
    requires fmt.raw && !n.Pcdata?
    ensures PrintNode(n, fmt, depth)
         == if n.Element? then Body(n, fmt, depth) + [GT] else SectionText(Sections(CStr(n.value)))
  {
    hide PrintNode, Body, Sections, SectionText, CStr;
    assert AsRaw(fmt) == fmt;
    if n.Element? {
      RawElement(n, fmt, depth);
    } else {
      RawText(n, fmt, depth);
    }
  }

  lemma AddOne(o: Cursor, n: Node)
    requires o.Open?
    ensures AddChild(o, n) == AddAll(o, [n])
  {
  }

  // ---------- Documents ----------

  lemma DeclarationParsed(b: seq<byte>, endch: byte)
    requires Terminated(b) && StandsAt(b, 0, DECLARATION) && |b| > 21
    ensures Parse(b, 0, Doc([]), endch) == Parse(b, 21, Doc([]), endch)
  {
    hide Parse, SkipSymbols, ScanQuestion, StandsAt, DECLARATION;
    DeclarationBytes(b);
    SkipSymbolsIs(b, 2, 5);
    QuestionFound(b, endch);
    ParseTag(b, 0, Doc([]), endch, 21, Doc([]));
  }

  lemma DeclarationBytes(b: seq<byte>)
    requires StandsAt(b, 0, DECLARATION) && |b| > 21
    ensures forall i :: 0 <= i < 21 ==> b[i] == DECLARATION[i]
    ensures b[0] == LT && b[1] == QUESTION && b[2] == 120 && b[3] == 109 && b[4] == 108 && b[5] == SPACE
    ensures b[19] == QUESTION && b[20] == GT
  {
    hide StandsAt, DECLARATION;
    DeclarationIs();
    AtByte(b, 0, DECLARATION);
    assert forall i :: 0 <= i < 21 ==> b[0 + i] == DECLARATION[i];
  }

  lemma DeclarationIs()
    ensures |DECLARATION| == 21
    ensures
      var d := DECLARATION;
      d[0] == LT && d[1] == QUESTION && d[2] == 120 && d[3] == 109 && d[4] == 108 && d[5] == SPACE &&
      d[19] == QUESTION && d[20] == GT
  {
  }

  lemma QuestionFound(b: seq<byte>, endch: byte)
    requires Terminated(b) && |b| > 21 && forall i :: 0 <= i < 21 ==> b[i] == DECLARATION[i]
    ensures ScanQuestion(b, 5, endch) == 19
  {
    assert forall i :: 5 <= i < 19 ==> DECLARATION[i] != QUESTION && DECLARATION[i] != NUL;
    assert DECLARATION[19] == QUESTION && DECLARATION[20] == GT;
    ScanQuestionIs(b, 5, 19, endch);
  }

  lemma {:induction false} ScanQuestionIs(b: seq<byte>, s: nat, q: nat, endch: byte)
    requires Terminated(b) && s <= q && q + 1 < |b| && b[q] == QUESTION && b[q + 1] == GT
    requires forall i :: s <= i < q ==> b[i] != NUL && b[i] != QUESTION
    ensures ScanQuestion(b, s, endch) == q
    decreases q - s
  {
    if s < q {
      ScanQuestionIs(b, s + 1, q, endch);
    }
  }

  /**
   * Printing a document and parsing the bytes succeeds, in raw and in indented output, with and without the
   * declaration, although the parser replaces the last byte. It gives the canonical form of the tree; line
   * feeds and indentation become part of the text where text stands beside other children.
   */
  lemma PrintThenParse(root: Node, fmt: Format, declaration: bool)
    requires root.Element? && Named(root) && AllSpace(fmt.indent)
    ensures Spread(root, fmt, 0).Element?
    ensures ParseBuffer(PrintDocument([root], fmt, declaration)) == Parsed([CanonNode(Spread(root, fmt, 0))])
  {
    hide Parse, Body, CanonNode, Spread;
    var front := if declaration then DECLARATION + NewLine(fmt) else [];
    var body, end := Body(root, fmt, 0), [GT] + NewLine(fmt);
    var doc := PrintDocument([root], fmt, declaration);
    DocumentLayout(root, fmt, declaration);
    var b, endch := Zeroed(doc), doc[|doc| - 1];
    var e := |front| + |body|;
    ZeroedAt(front + body, end);
    FrontParsed(b, front, body, fmt, declaration, endch, root);
    var tree := Spread(root, fmt, 0);
    SpreadPrinted(root, fmt, 0);
    SpreadNamed(root, fmt, 0);
    ElementParsed(b, |front|, tree, AsRaw(fmt), 0, Doc([]), endch);
    var last := Past(b, e);
    assert last == |b| - 1;
    ParseDone(b, last, Doc([CanonNode(tree)]), endch);
    assert AddChild(Doc([]), CanonNode(tree)) == Doc([CanonNode(tree)]);
  }

  lemma {:induction false} SpreadNamed(n: Node, fmt: Format, depth: nat)
    requires Named(n)
    ensures Named(Spread(n, fmt, depth))
    decreases n, 0
  {
    hide SpreadAll, Indentation;
    if n.Element? {
      SpreadAllNamed(n.children, fmt, depth + 1);
    }
  }

  lemma {:induction false} SpreadAllNamed(ns: seq<Node>, fmt: Format, depth: nat)
    requires NamedAll(ns)
    ensures NamedAll(SpreadAll(ns, fmt, depth))
    decreases ns, 1
  {
    hide Spread, Indentation;
    if ns != [] {
      SpreadNamed(ns[0], fmt, depth);
      SpreadAllNamed(ns[1..], fmt, depth);
    }
  }

  lemma ParseDone(b: seq<byte>, s: nat, c: Cursor, endch: byte)
    requires Terminated(b) && s < |b| && b[s] == NUL && c.Doc?
    ensures Parse(b, s, c, endch) == Parsed(c.children)
  {
  }

  lemma DocumentLayout(root: Node, fmt: Format, declaration: bool)
    requires root.Element?
    ensures PrintDocument([root], fmt, declaration)
         == (if declaration then DECLARATION + NewLine(fmt) else []) + Body(root, fmt, 0) + ([GT] + NewLine(fmt))
  {
    hide Body, PrintNode;
    var ns := [root];
    assert ns[1..] == [];
    PrintedBody(root, fmt, 0);
    assert PrintNodes(ns, fmt, 0) == PrintNode(root, fmt, 0) + [];
    assert Indentation(fmt, 0) == [];
  }

  lemma ZeroedAt(text: seq<byte>, end: seq<byte>)
    requires end == [GT] || end == [GT, LF]
    ensures var b := Zeroed(text + end);
      StandsAt(b, 0, text) && |text| < |b| && (if end == [GT] then b[|text|] == NUL && |b| == |text| + 1
                                         else b[|text|] == GT && |b| == |text| + 2 && b[|text| + 1] == NUL)
    ensures (text + end)[|text + end| - 1] == end[|end| - 1]
  {
  }

  lemma FrontParsed(b: seq<byte>, front: seq<byte>, body: seq<byte>, fmt: Format, declaration: bool, endch: byte,
      root: Node)
    requires Terminated(b) && StandsAt(b, 0, front + body) && |front + body| < |b|
    requires root.Element? && body == Body(root, fmt, 0) && IsName(root.name)
    requires front == if declaration then DECLARATION + NewLine(fmt) else []
    ensures StandsAt(b, |front|, body) && Parse(b, 0, Doc([]), endch) == Parse(b, |front|, Doc([]), endch)
  {
    hide Parse, Body, StandsAt;
    AtConcat(b, 0, front, body);
    BodyFront(root, fmt);
    AtByte(b, |front|, body);
    assert b[|front| + 0] == body[0];
    if declaration {
      AtConcat(b, 0, DECLARATION, NewLine(fmt));
      DeclarationParsed(b, endch);
      AtByte(b, 21, NewLine(fmt));
      assert !fmt.raw ==> b[21 + 0] == LF;
      SpaceSkipped(b, 21, |front|, Doc([]), endch);
    }
  }

  lemma BodyFront(root: Node, fmt: Format)
    requires root.Element?
    ensures Body(root, fmt, 0) != [] && Body(root, fmt, 0)[0] == LT
  {
    hide NameOrDefault, PrintAttrs, Inner;
  }

  /** When text stands alone in its element, indented output is read back as raw output is. */
  lemma PrintThenParseAlone(root: Node, fmt: Format, declaration: bool)
    requires root.Element? && Named(root) && AllSpace(fmt.indent) && (fmt.raw || TextAlone(root))
    ensures ParseBuffer(PrintDocument([root], fmt, declaration)) == Parsed([CanonNode(root)])
  {
    hide PrintDocument, ParseBuffer, CanonNode, Spread;
    PrintThenParse(root, fmt, declaration);
    SpreadCanon(root, fmt, 0);
  }

  /** The tree comes back unchanged exactly when it is stable and, in indented output, its texts stand alone. */
  lemma PrintThenParseIdentity(root: Node, fmt: Format, declaration: bool)
    requires root.Element? && Named(root) && AllSpace(fmt.indent)
    ensures ParseBuffer(PrintDocument([root], fmt, declaration)) == Parsed([root])
       <==> StableNode(root) && (fmt.raw || TextAlone(root))
  {
    hide PrintDocument, ParseBuffer, CanonNode, Spread;
    PrintThenParse(root, fmt, declaration);
    SpreadIdentity(root, fmt, 0);
  }
}
