/** The printed text of a tree, as lines and as escaped bytes. */
module PrintLaws {
  import opened Chars
  import opened Dom
  import opened Printer

  // ---------- Escaping ----------

  /** The bytes a text may not hold as they are: markup, control bytes, and in attributes quotes and line ends. */
  predicate MustEscape(c: byte, attr: bool) {
    c == AMP || c == LT || c == GT || (c < 32 && c != TAB && (attr || (c != LF && c != CR))) || (attr && c == QUOT)
  }

  /** A decimal reference with two figures. */
  function TwoFigures(c: byte): seq<byte>
    requires c < 100
  {
    [AMP, HASH, 48 + c / 10, 48 + c % 10, SEMI]
  }

  /** Every byte is written as itself, unless it must be escaped. */
  lemma EscapedByte(c: byte, attr: bool)
    ensures EscapeByte(c, attr) ==
      if !MustEscape(c, attr) then [c]
      else if c == AMP then [AMP, 97, 109, 112, SEMI]
      else if c == LT then [AMP, 108, 116, SEMI]
      else if c == GT then [AMP, 103, 116, SEMI]
      else if c == QUOT then [AMP, 113, 117, 111, 116, SEMI]
      else TwoFigures(c)
  {
  }

  // ---------- Lines ----------

  /** A line with the depth of its indentation. */
  datatype Line = Line(depth: nat, text: seq<byte>)

  /** The lines of a node: an element with children other than a single text puts each of them one level deeper. */
  function Lines(n: Node, depth: nat): seq<Line>
    decreases n, 0
  {
    if !n.Element? then [Line(depth, PrintText(n))]
    else if n.children == [] then [Line(depth, StartOf(n) + [SPACE, SLASH, GT])]
    else if SingleText(n.children) then [Line(depth, StartOf(n) + [GT] + PrintText(n.children[0]) + EndOf(n))]
    else [Line(depth, StartOf(n) + [GT])] + LinesAll(n.children, depth + 1) + [Line(depth, EndOf(n))]
  }

  function LinesAll(ns: seq<Node>, depth: nat): seq<Line>
    decreases ns, 1
  {
    if ns == [] then [] else Lines(ns[0], depth) + LinesAll(ns[1..], depth)
  }

  /** So many copies of the indentation string. */
  function Copies(indent: seq<byte>, k: nat): seq<byte> {
    if k == 0 then [] else Copies(indent, k - 1) + indent
  }

  /** The lines with their indentation, each ended by a line feed. */
  function Joined(ls: seq<Line>, indent: seq<byte>): seq<byte> {
    if ls == [] then [] else Copies(indent, ls[0].depth) + ls[0].text + [LF] + Joined(ls[1..], indent)
  }

  lemma {:induction false} IndentationCopies(fmt: Format, depth: nat)
    requires !fmt.raw && fmt.indents
    ensures Indentation(fmt, depth) == Copies(fmt.indent, depth)
  {
    if depth > 0 {
      IndentationCopies(fmt, depth - 1);
      CopiesFront(fmt.indent, depth);
    }
  }

  lemma {:induction false} CopiesFront(indent: seq<byte>, k: nat)
    requires k > 0
    ensures Copies(indent, k) == indent + Copies(indent, k - 1)
  {
    if k > 1 {
      CopiesFront(indent, k - 1);
      assert indent + Copies(indent, k - 2) + indent == indent + (Copies(indent, k - 2) + indent);
    } else {
      assert Copies(indent, 0) == [];
    }
  }

  lemma {:induction false} JoinedConcat(x: seq<Line>, y: seq<Line>, indent: seq<byte>)
    ensures Joined(x + y, indent) == Joined(x, indent) + Joined(y, indent)
    decreases |x|
  {
    hide Copies;
    if x == [] {
      assert x + y == y;
    } else {
      JoinedConcat(x[1..], y, indent);
      assert (x + y)[1..] == x[1..] + y && (x + y)[0] == x[0];
    }
  }

  lemma JoinedOne(l: Line, indent: seq<byte>)
    ensures Joined([l], indent) == Copies(indent, l.depth) + l.text + [LF]
  {
    hide Copies;
    assert [l][1..] == [] && Joined([], indent) == [];
  }

  /** Indented output is these lines. */
  lemma {:induction false} PrintedLines(n: Node, fmt: Format, depth: nat)
    requires !fmt.raw && fmt.indents
    ensures PrintNode(n, fmt, depth) == Joined(Lines(n, depth), fmt.indent)
    decreases n, 0
  {
    hide Joined, Copies, Indentation, PrintText, StartOf, EndOf, PrintNodes, LinesAll;
    IndentationCopies(fmt, depth);
    var ind := Copies(fmt.indent, depth);
    if n.Element? && n.children != [] && !SingleText(n.children) {
      var start, end := Line(depth, StartOf(n) + [GT]), Line(depth, EndOf(n));
      PrintedLinesAll(n.children, fmt, depth + 1);
      JoinedConcat([start] + LinesAll(n.children, depth + 1), [end], fmt.indent);
      JoinedConcat([start], LinesAll(n.children, depth + 1), fmt.indent);
      JoinedOne(start, fmt.indent);
      JoinedOne(end, fmt.indent);
      var inner := PrintNodes(n.children, fmt, depth + 1);
      assert ind + (StartOf(n) + ([GT] + [LF] + inner + ind + EndOf(n) + [LF]))
          == ind + (StartOf(n) + [GT]) + [LF] + inner + (ind + EndOf(n) + [LF]);
    } else {
      var l := Lines(n, depth)[0];
      JoinedOne(l, fmt.indent);
      OneLine(n, fmt, depth);
    }
  }

  lemma OneLine(n: Node, fmt: Format, depth: nat)
    requires !fmt.raw && (n.Element? ==> n.children == [] || SingleText(n.children))
    ensures |Lines(n, depth)| == 1 && Lines(n, depth)[0].depth == depth
    ensures PrintNode(n, fmt, depth) == Indentation(fmt, depth) + Lines(n, depth)[0].text + [LF]
  {
    hide Indentation, PrintText, StartOf, EndOf;
  }

  lemma {:induction false} PrintedLinesAll(ns: seq<Node>, fmt: Format, depth: nat)
    requires !fmt.raw && fmt.indents
    ensures PrintNodes(ns, fmt, depth) == Joined(LinesAll(ns, depth), fmt.indent)
    decreases ns, 1
  {
    hide Joined, Lines, PrintNode;
    if ns == [] {
      assert Joined([], fmt.indent) == [] by { NothingJoined(fmt.indent); }
    } else {
      PrintedLines(ns[0], fmt, depth);
      PrintedLinesAll(ns[1..], fmt, depth);
      JoinedConcat(Lines(ns[0], depth), LinesAll(ns[1..], depth), fmt.indent);
    }
  }

  lemma NothingJoined(indent: seq<byte>)
    ensures Joined([], indent) == []
  {
  }
}
