/** The text and node output functions. */
module Printer {
  import opened Chars
  import opened Dom
  import opened BufferedWriter

  const AMP_REF: seq<byte> := [AMP, 97, 109, 112, SEMI]          // &amp;
  const LT_REF: seq<byte> := [AMP, 108, 116, SEMI]               // &lt;
  const GT_REF: seq<byte> := [AMP, 103, 116, SEMI]               // &gt;
  const QUOT_REF: seq<byte> := [AMP, 113, 117, 111, 116, SEMI]   // &quot;
  const CDATA_START: seq<byte> := [LT, BANG, LBRACKET, 67, 68, 65, 84, 65, LBRACKET]   // <![CDATA[
  const CDATA_END: seq<byte> := [RBRACKET, RBRACKET, GT]         // ]]>
  const ANONYMOUS: seq<byte> := [58, 97, 110, 111, 110, 121, 109, 111, 117, 115]       // :anonymous
  /** <?xml version="1.0"?> */
  const DECLARATION: seq<byte> :=
    [LT, QUESTION, 120, 109, 108, SPACE, 118, 101, 114, 115, 105, 111, 110, EQ, QUOT, 49, 46, 48, QUOT, QUESTION, GT]

  predicate IsSpecial(c: byte, attr: bool) {
    if attr then IsSpecialAttr(c) else IsSpecialPcdata(c)
  }

  /** What a byte with a special meaning is replaced by. */
  function Reference(c: byte): seq<byte>
    requires IsSpecialAttr(c) || IsSpecialPcdata(c)
  {
    if c == AMP then AMP_REF
    else if c == LT then LT_REF
    else if c == GT then GT_REF
    else if c == QUOT then QUOT_REF
    else [AMP, HASH, c / 10 + ZERO, c % 10 + ZERO, SEMI]
  }

  function Escape(v: seq<byte>, attr: bool): seq<byte> {
    if v == [] then [] else EscapeByte(v[0], attr) + Escape(v[1..], attr)
  }

  function EscapeByte(c: byte, attr: bool): seq<byte> {
    if IsSpecial(c, attr) then Reference(c) else [c]
  }

  lemma {:induction false} EscapePlain(v: seq<byte>, k: nat, attr: bool)
    requires k <= |v| && forall i :: 0 <= i < k ==> !IsSpecial(v[i], attr)
    ensures Escape(v, attr) == v[..k] + Escape(v[k..], attr)
  {
    hide IsSpecial, Reference;
    if k == 0 {
      assert v[0..] == v;
    } else {
      EscapePlain(v[1..], k - 1, attr);
      assert v[1..][k - 1..] == v[k..] && v[..k] == [v[0]] + v[1..][..k - 1];
    }
  }

  /** text_output_escaped: s is a zero-terminated text. */
  method TextOutputEscaped(w: Writer, s: seq<byte>, attr: bool)
    requires w.Valid() && NUL in s
    modifies w, w.buffer
    ensures w.Valid() && w.written == old(w.written) + Escape(CStr(s), attr)
  {
    hide Writer.Valid, Writer.Faithful, Straddles, CStr, Escape, IsSpecial, Reference;
    ghost var text := CStr(s);
    TextEnds(s);
    var p := 0;
    assert text[0..] == text;
    EscapeNothing(attr);
    while s[p] != NUL
      invariant p <= |text| && w.Valid()
      invariant w.written + Escape(text[p..], attr) == old(w.written) + Escape(text, attr)
      decreases |text| - p
    {
      p := OutputRun(w, s, p, attr, text);
      if s[p] != NUL {
        OutputSpecial(w, s[p], attr);
        EscapeSpecial(text[p..], attr);
        assert text[p..][1..] == text[p + 1..];
        p := p + 1;
      }
    }
    assert text[p..] == [];
  }

  lemma EscapeSpecial(v: seq<byte>, attr: bool)
    requires v != [] && IsSpecial(v[0], attr)
    ensures Escape(v, attr) == Reference(v[0]) + Escape(v[1..], attr)
  {
  }

  lemma EscapeNothing(attr: bool)
    ensures Escape([], attr) == []
  {
  }

  lemma TextEnds(s: seq<byte>)
    requires NUL in s || (CStr(s) < s && s[|CStr(s)|] == NUL)
    ensures CStr(s) < s && s[|CStr(s)|] == NUL
    ensures forall i :: 0 <= i < |CStr(s)| ==> s[i] != NUL
  {
    assert forall i :: 0 <= i < |CStr(s)| ==> s[i] in CStr(s);
  }

  /** The usual symbols from p on go out in one write. */
  method OutputRun(w: Writer, s: seq<byte>, prev: nat, attr: bool, ghost text: seq<byte>) returns (p: nat)
    requires w.Valid() && text == CStr(s) && text < s && s[|text|] == NUL && prev < |text|
    modifies w, w.buffer
    ensures w.Valid() && prev <= p <= |text| && (p < |text| ==> IsSpecial(s[p], attr))
    ensures w.written + Escape(text[p..], attr) == old(w.written) + Escape(text[prev..], attr)
  {
    hide Writer.Valid, Writer.Faithful, Straddles, CStr, Escape;
    p := prev;
    while !IsSpecial(s[p], attr)
      invariant prev <= p <= |text|
      invariant forall i :: prev <= i < p ==> !IsSpecial(s[i], attr)
      decreases |text| - p
    {
      p := p + 1;
    }
    w.Write(s[prev..p]);
    ghost var rest := text[prev..];
    EscapePlain(rest, p - prev, attr);
    assert rest[..p - prev] == s[prev..p] && rest[p - prev..] == text[p..];
  }

  method OutputSpecial(w: Writer, c: byte, ghost attr: bool)
    requires w.Valid() && IsSpecial(c, attr)
    modifies w, w.buffer
    ensures w.Valid() && w.written == old(w.written) + Reference(c)
  {
    hide Writer.Valid, Writer.Faithful, Straddles;
    if c == AMP {
      w.WriteFew(AMP_REF);
    } else if c == LT {
      w.WriteFew(LT_REF);
    } else if c == GT {
      w.WriteFew(GT_REF);
    } else if c == QUOT {
      w.WriteFew(QUOT_REF);
    } else {
      w.WriteFew([AMP, HASH, c / 10 + ZERO, c % 10 + ZERO, SEMI]);
    }
  }

  // ---------- CDATA ----------

  predicate EndsSection(v: seq<byte>, i: nat) {
    i + 3 <= |v| && v[i] == RBRACKET && v[i + 1] == RBRACKET && v[i + 2] == GT
  }

  /** The first "]]>" from p on, or the end. */
  function FindSectionEnd(v: seq<byte>, p: nat): (i: nat)
    requires p <= |v|
    ensures p <= i <= |v| && (i < |v| ==> EndsSection(v, i))
    ensures forall j :: p <= j < i ==> !EndsSection(v, j)
    decreases |v| - p
  {
    if p == |v| || EndsSection(v, p) then p else FindSectionEnd(v, p + 1)
  }

  /** The contents of the sections a text is written in: "]]>" is cut before its '>'. */
  function Sections(v: seq<byte>): (r: seq<seq<byte>>)
    ensures r != []
    decreases |v|
  {
    var i := FindSectionEnd(v, 0);
    if i == |v| then [v] else [v[..i + 2]] + Sections(v[i + 2..])
  }

  /** The sections together hold the text. */
  lemma {:induction false} SectionsJoin(v: seq<byte>)
    ensures Join(Sections(v)) == v
    decreases |v|
  {
    hide FindSectionEnd;
    var i := FindSectionEnd(v, 0);
    if i == |v| {
      var one := [v];
      assert one[1..] == [] && Join(one[1..]) == [];
    } else {
      SectionsJoin(v[i + 2..]);
      var first, rest := v[..i + 2], Sections(v[i + 2..]);
      assert ([first] + rest)[1..] == rest;
      assert v == first + v[i + 2..];
    }
  }

  function SectionText(pieces: seq<seq<byte>>): seq<byte> {
    if pieces == [] then [] else CDATA_START + pieces[0] + CDATA_END + SectionText(pieces[1..])
  }

  /** text_output_cdata: s is a zero-terminated text. */
  method TextOutputCdata(w: Writer, s: seq<byte>)
    requires w.Valid() && NUL in s
    modifies w, w.buffer
    ensures w.Valid() && w.written == old(w.written) + SectionText(Sections(CStr(s)))
  {
    hide Writer.Valid, Writer.Faithful, Straddles, CStr, Sections;
    ghost var text := CStr(s);
    TextEnds(s);
    var p := 0;
    var more := true;
    assert text[0..] == text;
    while more
      invariant p <= |text| && w.Valid()
      invariant w.written + (if more then SectionText(Sections(text[p..])) else []) ==
        old(w.written) + SectionText(Sections(text))
      decreases more, |text| - p
    {
      p := OutputSection(w, s, p, text);
      more := s[p] != NUL;
    }
  }

  method OutputSection(w: Writer, s: seq<byte>, prev: nat, ghost text: seq<byte>) returns (p: nat)
    requires w.Valid() && text == CStr(s) && text < s && s[|text|] == NUL && prev <= |text|
    modifies w, w.buffer
    ensures w.Valid() && prev <= p <= |text| && (p < |text| ==> prev < p)
    ensures w.written + (if p < |text| then SectionText(Sections(text[p..])) else [])
         == old(w.written) + SectionText(Sections(text[prev..]))
  {
    hide Writer.Valid, Writer.Faithful, Straddles, CStr, Sections, SectionText, FindSectionEnd;
    TextEnds(s);
    ghost var start := w.written;
    w.WriteFew([LT, BANG, LBRACKET, 67, 68]);
    w.WriteFew([65, 84, 65, LBRACKET]);
    assert w.written == start + CDATA_START;
    ghost var v := text[prev..];
    p := FindEnd(s, prev, text);
    ghost var i := p - prev;
    if s[p] != NUL {
      p := p + 2;
    }
    w.Write(s[prev..p]);
    w.WriteFew(CDATA_END);
    OneSection(v, i, s[prev..p]);
    assert p < |text| ==> v[i + 2..] == text[p..];
    SectionWritten(start, s[prev..p], if p < |text| then SectionText(Sections(text[p..])) else []);
  }

  lemma SectionWritten(start: seq<byte>, piece: seq<byte>, rest: seq<byte>)
    ensures start + CDATA_START + piece + CDATA_END + rest == start + (CDATA_START + piece + CDATA_END + rest)
  {
  }

  /** Look for "]]>". */
  method FindEnd(s: seq<byte>, prev: nat, ghost text: seq<byte>) returns (p: nat)
    requires text < s && s[|text|] == NUL && prev <= |text| && forall i :: 0 <= i < |text| ==> s[i] != NUL
    ensures prev <= p <= |text| && p - prev == FindSectionEnd(text[prev..], 0)
  {
    p := prev;
    ghost var v := text[prev..];
    while s[p] != NUL && !(s[p] == RBRACKET && s[p + 1] == RBRACKET && s[p + 2] == GT)
      invariant prev <= p <= |text| && FindSectionEnd(v, 0) == FindSectionEnd(v, p - prev)
      decreases |text| - p
    {
      p := p + 1;
    }
  }

  lemma OneSection(v: seq<byte>, i: nat, piece: seq<byte>)
    requires i == FindSectionEnd(v, 0)
    requires piece == if i < |v| then v[..i + 2] else v
    ensures SectionText(Sections(v))
         == CDATA_START + piece + CDATA_END + (if i < |v| then SectionText(Sections(v[i + 2..])) else [])
  {
    hide FindSectionEnd, Sections, SectionText;
    var rest: seq<seq<byte>> := if i < |v| then Sections(v[i + 2..]) else [];
    SectionsCons(v);
    SectionTextCons(piece, rest);
    NoSections();
  }

  lemma SectionsCons(v: seq<byte>)
    ensures var i := FindSectionEnd(v, 0);
      Sections(v) == if i < |v| then [v[..i + 2]] + Sections(v[i + 2..]) else [v] + []
  {
    hide FindSectionEnd;
  }

  lemma SectionTextCons(piece: seq<byte>, rest: seq<seq<byte>>)
    ensures SectionText([piece] + rest) == CDATA_START + piece + CDATA_END + SectionText(rest)
  {
    assert ([piece] + rest)[1..] == rest && ([piece] + rest)[0] == piece;
  }

  lemma NoSections()
    ensures SectionText([]) == []
  {
  }

  // ---------- Nodes ----------

  /** format_raw, format_indent and the indentation string. */
  datatype Format = Format(raw: bool, indents: bool, indent: seq<byte>)

  function NameOrDefault(name: seq<byte>): seq<byte> {
    if CStr(name) == [] then ANONYMOUS else CStr(name)
  }

  function Indentation(fmt: Format, depth: nat): seq<byte> {
    if fmt.raw || !fmt.indents || depth == 0 then [] else fmt.indent + Indentation(fmt, depth - 1)
  }

  function NewLine(fmt: Format): seq<byte> {
    if fmt.raw then [] else [LF]
  }

  function PrintAttrs(attrs: seq<Attr>): seq<byte> {
    if attrs == [] then []
    else
      var value := Escape(CStr(attrs[0].value), true);
      [SPACE] + NameOrDefault(attrs[0].name) + [EQ, QUOT] + value + [QUOT] + PrintAttrs(attrs[1..])
  }

  /** A single text child is printed on the line of its element. */
  predicate SingleText(children: seq<Node>) {
    |children| == 1 && !children[0].Element?
  }

  function PrintText(n: Node): seq<byte>
    requires !n.Element?
  {
    match n
    case Pcdata(value) => Escape(CStr(value), false)
    case Cdata(value) => SectionText(Sections(CStr(value)))
  }

  function StartOf(n: Node): seq<byte>
    requires n.Element?
  {
    [LT] + NameOrDefault(n.name) + PrintAttrs(n.attrs)
  }

  function EndOf(n: Node): seq<byte>
    requires n.Element?
  {
    [LT, SLASH] + NameOrDefault(n.name) + [GT]
  }

  function PrintNode(n: Node, fmt: Format, depth: nat): seq<byte>
    decreases n, 1
  {
    Indentation(fmt, depth) +
    if !n.Element? then PrintText(n) + NewLine(fmt)
    else if n.children == [] then StartOf(n) + [SPACE, SLASH, GT] + NewLine(fmt)
    else StartOf(n) + PrintContent(n, fmt, depth)
  }

  /** What an element with children writes behind its start. */
  function PrintContent(n: Node, fmt: Format, depth: nat): seq<byte>
    requires n.Element?
    decreases n, 0
  {
    if !fmt.raw && SingleText(n.children) then [GT] + PrintText(n.children[0]) + EndOf(n) + NewLine(fmt)
    else
      var inner := PrintNodes(n.children, fmt, depth + 1);
      [GT] + NewLine(fmt) + inner + Indentation(fmt, depth) + EndOf(n) + NewLine(fmt)
  }

  function PrintNodes(ns: seq<Node>, fmt: Format, depth: nat): seq<byte>
    decreases ns
  {
    if ns == [] then [] else PrintNode(ns[0], fmt, depth) + PrintNodes(ns[1..], fmt, depth)
  }

  /** xml_document::save of a document without a declaration of its own. */
  function PrintDocument(ns: seq<Node>, fmt: Format, declaration: bool): seq<byte> {
    (if declaration then DECLARATION + NewLine(fmt) else []) + PrintNodes(ns, fmt, 0)
  }

  method Indent(w: Writer, fmt: Format, depth: nat)
    requires w.Valid()
    modifies w, w.buffer
    ensures w.Valid() && w.written == old(w.written) + Indentation(fmt, depth)
  {
    hide Writer.Valid, Writer.Faithful, Straddles;
    if fmt.indents && !fmt.raw {
      var i := 0;
      while i < depth
        invariant i <= depth && w.Valid()
        invariant w.written + Indentation(fmt, depth - i) == old(w.written) + Indentation(fmt, depth)
      {
        w.Write(fmt.indent);
        i := i + 1;
      }
      assert Indentation(fmt, 0) == [];
    }
  }

  method OutputAttributes(w: Writer, attrs: seq<Attr>)
    requires w.Valid()
    modifies w, w.buffer
    ensures w.Valid() && w.written == old(w.written) + PrintAttrs(attrs)
  {
    hide Writer.Valid, Writer.Faithful, Straddles, Escape, NameOrDefault, CStr;
    var i := 0;
    assert attrs[0..] == attrs;
    while i < |attrs|
      invariant i <= |attrs| && w.Valid()
      invariant w.written + PrintAttrs(attrs[i..]) == old(w.written) + PrintAttrs(attrs)
    {
      OutputAttribute(w, attrs[i]);
      assert attrs[i..][1..] == attrs[i + 1..];
      i := i + 1;
    }
    assert PrintAttrs(attrs[i..]) == [];
  }

  method OutputAttribute(w: Writer, a: Attr)
    requires w.Valid()
    modifies w, w.buffer
    ensures w.Valid()
    ensures w.written ==
      old(w.written) + ([SPACE] + NameOrDefault(a.name) + [EQ, QUOT] + Escape(CStr(a.value), true) + [QUOT])
  {
    hide Writer.Valid, Writer.Faithful, Straddles, Escape, NameOrDefault, CStr;
    w.WriteFew([SPACE]);
    w.Write(NameOrDefault(a.name));
    w.WriteFew([EQ, QUOT]);
    TerminatedText(a.value);
    TextOutputEscaped(w, a.value + [NUL], true);
    w.WriteFew([QUOT]);
  }

  /** A stored string is followed by its terminator. */
  lemma TerminatedText(v: seq<byte>)
    ensures NUL in v + [NUL] && CStr(v + [NUL]) == CStr(v)
  {
    CStrOfTerminated(v, []);
    assert v + [NUL] + [] == v + [NUL];
    assert (v + [NUL])[|v|] == NUL;
  }

  method OutputText(w: Writer, n: Node)
    requires w.Valid() && !n.Element?
    modifies w, w.buffer
    ensures w.Valid() && w.written == old(w.written) + PrintText(n)
  {
    hide Writer.Valid, Writer.Faithful, Straddles, Escape, Sections, SectionText, CStr;
    TerminatedText(n.value);
    match n {
      case Pcdata(value) => TextOutputEscaped(w, value + [NUL], false);
      case Cdata(value) => TextOutputCdata(w, value + [NUL]);
    }
  }

  method OutputStart(w: Writer, n: Node)
    requires w.Valid() && n.Element?
    modifies w, w.buffer
    ensures w.Valid() && w.written == old(w.written) + StartOf(n)
  {
    hide Writer.Valid, Writer.Faithful, Straddles, NameOrDefault, PrintAttrs;
    w.WriteFew([LT]);
    w.Write(NameOrDefault(n.name));
    OutputAttributes(w, n.attrs);
  }

  method OutputEnd(w: Writer, n: Node)
    requires w.Valid() && n.Element?
    modifies w, w.buffer
    ensures w.Valid() && w.written == old(w.written) + EndOf(n)
  {
    hide Writer.Valid, Writer.Faithful, Straddles, NameOrDefault;
    w.WriteFew([LT, SLASH]);
    w.Write(NameOrDefault(n.name));
    w.WriteFew([GT]);
  }

  /** node_output */
  method NodeOutput(w: Writer, n: Node, fmt: Format, depth: nat)
    requires w.Valid()
    modifies w, w.buffer
    ensures w.Valid() && w.written == old(w.written) + PrintNode(n, fmt, depth)
    decreases n, 1
  {
    hide Writer.Valid, Writer.Faithful, Straddles, Indentation, StartOf, EndOf, PrintText, PrintContent;
    Indent(w, fmt, depth);
    if !n.Element? {
      OutputText(w, n);
      if !fmt.raw {
        w.WriteFew([LF]);
      }
    } else {
      OutputStart(w, n);
      if n.children == [] {
        w.WriteFew(if fmt.raw then [SPACE, SLASH, GT] else [SPACE, SLASH, GT, LF]);
      } else {
        ElementContent(w, n, fmt, depth);
      }
    }
  }

  method ElementContent(w: Writer, n: Node, fmt: Format, depth: nat)
    requires w.Valid() && n.Element? && n.children != []
    modifies w, w.buffer
    ensures w.Valid() && w.written == old(w.written) + PrintContent(n, fmt, depth)
    decreases n, 0
  {
    hide Writer.Valid, Writer.Faithful, Straddles, Indentation, StartOf, EndOf, PrintText, PrintNodes;
    if !fmt.raw && SingleText(n.children) {
      w.WriteFew([GT]);
      OutputText(w, n.children[0]);
      OutputEnd(w, n);
      w.WriteFew([LF]);
    } else {
      w.WriteFew(if fmt.raw then [GT] else [GT, LF]);
      NodesOutput(w, n.children, fmt, depth + 1);
      Indent(w, fmt, depth);
      OutputEnd(w, n);
      if !fmt.raw {
        w.WriteFew([LF]);
      }
    }
  }

  /** The loop over the children. */
  method NodesOutput(w: Writer, ns: seq<Node>, fmt: Format, depth: nat)
    requires w.Valid()
    modifies w, w.buffer
    ensures w.Valid() && w.written == old(w.written) + PrintNodes(ns, fmt, depth)
    decreases ns
  {
    hide Writer.Valid, Writer.Faithful, Straddles, PrintNode;
    var i := 0;
    assert ns[0..] == ns;
    while i < |ns|
      invariant i <= |ns| && w.Valid()
      invariant w.written + PrintNodes(ns[i..], fmt, depth) == old(w.written) + PrintNodes(ns, fmt, depth)
    {
      NodeOutput(w, ns[i], fmt, depth);
      assert ns[i..][1..] == ns[i + 1..];
      i := i + 1;
    }
    assert PrintNodes(ns[i..], fmt, depth) == [];
  }

  /** xml_document::save: with the native encoding the underlying writer receives the printed document. */
  method Save(ns: seq<Node>, fmt: Format, declaration: bool, encoding: Encoding) returns (out: seq<byte>,
      ghost chunks: seq<seq<byte>>)
    ensures Join(chunks) == PrintDocument(ns, fmt, declaration)
    ensures out == Delivered(Join(chunks), encoding) <==> encoding.EncodingUtf8? || Clean(chunks)
    ensures encoding.EncodingUtf8? ==> out == PrintDocument(ns, fmt, declaration)
  {
    hide Writer.Faithful, Straddles, PrintNodes, Join, DeliveredAll, Clean, Encode;
    var w := new Writer(encoding);
    if declaration {
      w.Write(DECLARATION);
      if !fmt.raw {
        w.WriteFew([LF]);
      }
    }
    NodesOutput(w, ns, fmt, 0);
    assert w.written == PrintDocument(ns, fmt, declaration);
    w.Close();
    out, chunks := w.sink, w.pieces;
  }
}
