/**
 * Indented output is raw output of a tree with more text in it: the line feeds and the indentation. So
 * what is proved about raw output says what indented output is read back as, text beside elements included.
 */
module Layout {
  import opened Chars
  import opened Refs
  import opened Dom
  import opened Printer
  import opened Canon

  /** What stands between '<name ...>' and '</name>'. */
  function Inner(n: Node, fmt: Format, depth: nat): seq<byte>
    requires n.Element?
  {
    if !fmt.raw && SingleText(n.children) then PrintText(n.children[0])
    else NewLine(fmt) + PrintNodes(n.children, fmt, depth + 1) + Indentation(fmt, depth)
  }

  /** A printed element without its indentation, its last '>' and its line end. */
  function Body(n: Node, fmt: Format, depth: nat): seq<byte>
    requires n.Element?
  {
    if n.children == [] then StartOf(n) + [SPACE, SLASH]
    else StartOf(n) + [GT] + Inner(n, fmt, depth) + ([LT, SLASH] + NameOrDefault(n.name))
  }

  lemma PrintedBody(n: Node, fmt: Format, depth: nat)
    requires n.Element?
    ensures PrintNode(n, fmt, depth) == Indentation(fmt, depth) + (Body(n, fmt, depth) + ([GT] + NewLine(fmt)))
  {
    hide StartOf, PrintText, PrintNodes, Indentation;
    var ind, start, nl, name := Indentation(fmt, depth), StartOf(n), NewLine(fmt), NameOrDefault(n.name);
    if n.children == [] {
      assert ind + (start + [SPACE, SLASH, GT] + nl) == ind + (start + [SPACE, SLASH] + ([GT] + nl));
    } else {
      var inner := Inner(n, fmt, depth);
      assert EndOf(n) == [LT, SLASH] + name + [GT];
      assert PrintContent(n, fmt, depth) == [GT] + inner + EndOf(n) + nl;
      Regrouped(start, inner, [LT, SLASH] + name, nl);
    }
  }

  lemma Regrouped(start: seq<byte>, inner: seq<byte>, end: seq<byte>, nl: seq<byte>)
    ensures start + ([GT] + inner + (end + [GT]) + nl) == start + [GT] + inner + end + ([GT] + nl)
  {
  }

  lemma {:induction false} IndentationSpace(fmt: Format, depth: nat)
    requires AllSpace(fmt.indent)
    ensures AllSpace(Indentation(fmt, depth)) && AllSpace(NewLine(fmt))
    ensures fmt.raw ==> Indentation(fmt, depth) == [] && NewLine(fmt) == []
  {
    if !(fmt.raw || !fmt.indents || depth == 0) {
      IndentationSpace(fmt, depth - 1);
      SpaceConcat(fmt.indent, Indentation(fmt, depth - 1));
    }
  }

  lemma SpaceConcat(x: seq<byte>, y: seq<byte>)
    ensures AllSpace(x + y) <==> AllSpace(x) && AllSpace(y)
  {
    var z := x + y;
    assert forall i :: 0 <= i < |x| ==> z[i] == x[i];
    assert forall i :: 0 <= i < |y| ==> z[|x| + i] == y[i];
    assert forall i :: 0 <= i < |z| ==> z[i] == if i < |x| then x[i] else y[i - |x|];
  }

  // ---------- The tree whose raw output is the indented output ----------

  function AsRaw(fmt: Format): Format {
    fmt.(raw := true)
  }

  /** The line feeds and the indentation become text of their own. */
  function Spread(n: Node, fmt: Format, depth: nat): Node
    decreases n, 0
  {
    if fmt.raw || !n.Element? || n.children == [] || SingleText(n.children) then n
    else Element(n.name, n.attrs, [Pcdata([LF])] + SpreadAll(n.children, fmt, depth + 1) +
      [Pcdata(Indentation(fmt, depth))])
  }

  function SpreadAll(ns: seq<Node>, fmt: Format, depth: nat): seq<Node>
    decreases ns, 1
  {
    if ns == [] then []
    else [Pcdata(Indentation(fmt, depth)), Spread(ns[0], fmt, depth), Pcdata([LF])] + SpreadAll(ns[1..], fmt, depth)
  }

  lemma {:induction false} PrintConcat(x: seq<Node>, y: seq<Node>, fmt: Format, depth: nat)
    ensures PrintNodes(x + y, fmt, depth) == PrintNodes(x, fmt, depth) + PrintNodes(y, fmt, depth)
    decreases x
  {
    hide PrintNode, PrintNodes;
    PrintNodesCons(x, fmt, depth);
    PrintNodesCons(x + y, fmt, depth);
    if x == [] {
      assert x + y == y;
    } else {
      PrintConcat(x[1..], y, fmt, depth);
      assert (x + y)[1..] == x[1..] + y;
      assert (x + y)[0] == x[0];
    }
  }

  lemma PrintOne(n: Node, fmt: Format, depth: nat)
    ensures PrintNodes([n], fmt, depth) == PrintNode(n, fmt, depth)
  {
    hide PrintNode;
    var ns := [n];
    assert ns[1..] == [] && PrintNodes(ns[1..], fmt, depth) == [];
  }

  /** White space is printed as it is. */
  lemma SpacePrinted(text: seq<byte>, fmt: Format, depth: nat)
    requires AllSpace(text)
    ensures PrintNodes([Pcdata(text)], AsRaw(fmt), depth) == text && CStr(text) == text && NUL !in text
  {
    hide PrintNode, Escape;
    PrintOne(Pcdata(text), AsRaw(fmt), depth);
    assert NUL !in text;
    CStrId(text);
    EscapePlain(text, |text|, false);
    assert text[..|text|] == text && text[|text|..] == [];
    EscapeNothing(false);
    RawText(Pcdata(text), fmt, depth);
  }

  lemma RawText(n: Node, fmt: Format, depth: nat)
    requires !n.Element?
    ensures PrintNode(n, AsRaw(fmt), depth) == PrintText(n)
  {
    hide PrintText;
    assert [] + (PrintText(n) + []) == PrintText(n);
  }

  lemma RawElement(n: Node, fmt: Format, depth: nat)
    requires n.Element?
    ensures PrintNode(n, AsRaw(fmt), depth) == Body(n, AsRaw(fmt), depth) + [GT]
  {
    hide Body;
    PrintedBody(n, AsRaw(fmt), depth);
    assert Indentation(AsRaw(fmt), depth) == [];
    assert [] + (Body(n, AsRaw(fmt), depth) + ([GT] + [])) == Body(n, AsRaw(fmt), depth) + [GT];
  }

  lemma {:induction false} SpreadPrinted(n: Node, fmt: Format, depth: nat)
    requires n.Element? && AllSpace(fmt.indent)
    ensures Spread(n, fmt, depth).Element? && Body(n, fmt, depth) == Body(Spread(n, fmt, depth), AsRaw(fmt), depth)
    decreases n, 0
  {
    hide PrintNode, PrintNodes, PrintText, StartOf, Indentation, SpreadAll, AllSpace, NameOrDefault;
    var raw := AsRaw(fmt);
    assert Indentation(raw, depth) == [] by { IndentationSpace(raw, depth); }
    if fmt.raw {
      assert raw == fmt;
    } else if SingleText(n.children) {
      var t := n.children[0];
      assert n.children == [t];
      PrintOne(t, raw, depth + 1);
      RawText(t, fmt, depth + 1);
      assert [] + PrintText(t) + [] == PrintText(t);
      assert Inner(n, raw, depth) == PrintText(t);
    } else if n.children != [] {
      SpreadInner(n, fmt, depth);
      var m := Spread(n, fmt, depth);
      assert StartOf(m) == StartOf(n) by { StartSame(n, m); }
    }
  }

  lemma StartSame(n: Node, m: Node)
    requires n.Element? && m.Element? && n.name == m.name && n.attrs == m.attrs
    ensures StartOf(n) == StartOf(m)
  {
  }

  lemma {:induction false} SpreadInner(n: Node, fmt: Format, depth: nat)
    requires n.Element? && AllSpace(fmt.indent) && !fmt.raw && n.children != [] && !SingleText(n.children)
    ensures Spread(n, fmt, depth).Element? && Spread(n, fmt, depth).children != []
    ensures Inner(n, fmt, depth) == Inner(Spread(n, fmt, depth), AsRaw(fmt), depth)
    decreases n.children, 2
  {
    hide PrintNode, PrintNodes, Indentation, SpreadAll, AllSpace;
    var raw := AsRaw(fmt);
    var text, ind := SpreadAll(n.children, fmt, depth + 1), Indentation(fmt, depth);
    assert AllSpace(ind) && AllSpace(NewLine(fmt)) by { IndentationSpace(fmt, depth); }
    SpreadAllPrinted(n.children, fmt, depth + 1);
    SpacePrinted(NewLine(fmt), fmt, depth + 1);
    SpacePrinted(ind, fmt, depth + 1);
    PrintConcat([Pcdata([LF])], text, raw, depth + 1);
    PrintConcat([Pcdata([LF])] + text, [Pcdata(ind)], raw, depth + 1);
    assert Indentation(raw, depth) == [] by { IndentationSpace(raw, depth); }
    var all := PrintNodes(Spread(n, fmt, depth).children, raw, depth + 1);
    assert [] + all + [] == all;
  }

  lemma {:induction false} SpreadAllPrinted(ns: seq<Node>, fmt: Format, depth: nat)
    requires AllSpace(fmt.indent) && !fmt.raw
    ensures PrintNodes(ns, fmt, depth) == PrintNodes(SpreadAll(ns, fmt, depth), AsRaw(fmt), depth)
    decreases ns, 1
  {
    hide PrintNode, PrintNodes, Indentation, Spread, AllSpace;
    PrintNodesCons(ns, fmt, depth);
    if ns == [] {
      PrintNodesCons([], AsRaw(fmt), depth);
    } else {
      SpreadAllPrinted(ns[1..], fmt, depth);
      var raw, ind, m, rest := AsRaw(fmt), Indentation(fmt, depth), Spread(ns[0], fmt, depth),
          SpreadAll(ns[1..], fmt, depth);
      SpreadOnePrinted(ns[0], fmt, depth);
      PrintConcat([Pcdata(ind), m, Pcdata([LF])], rest, raw, depth);
    }
  }

  lemma PrintNodesCons(ns: seq<Node>, fmt: Format, depth: nat)
    ensures PrintNodes(ns, fmt, depth) ==
      if ns == [] then [] else PrintNode(ns[0], fmt, depth) + PrintNodes(ns[1..], fmt, depth)
  {
  }

  lemma {:induction false} SpreadOnePrinted(n: Node, fmt: Format, depth: nat)
    requires AllSpace(fmt.indent) && !fmt.raw
    ensures PrintNode(n, fmt, depth)
         == PrintNodes([Pcdata(Indentation(fmt, depth)), Spread(n, fmt, depth), Pcdata([LF])], AsRaw(fmt), depth)
    decreases n, 1
  {
    hide PrintNode, PrintNodes, Indentation, Body, PrintText, AllSpace;
    var raw, ind, m := AsRaw(fmt), Indentation(fmt, depth), Spread(n, fmt, depth);
    assert AllSpace(ind) && AllSpace(NewLine(fmt)) by { IndentationSpace(fmt, depth); }
    SpacePrinted(ind, fmt, depth);
    SpacePrinted([LF], fmt, depth);
    assert [Pcdata(ind), m, Pcdata([LF])] == [Pcdata(ind)] + ([m] + [Pcdata([LF])]);
    PrintConcat([Pcdata(ind)], [m] + [Pcdata([LF])], raw, depth);
    PrintConcat([m], [Pcdata([LF])], raw, depth);
    PrintOne(m, raw, depth);
    if n.Element? {
      SpreadPrinted(n, fmt, depth);
      PrintedBody(n, fmt, depth);
      RawElement(m, fmt, depth);
      var body := Body(n, fmt, depth);
      assert body + ([GT] + [LF]) == body + [GT] + [LF];
    } else {
      RawText(n, fmt, depth);
      TextLine(n, fmt, depth);
    }
  }

  lemma TextLine(n: Node, fmt: Format, depth: nat)
    requires !n.Element? && !fmt.raw
    ensures PrintNode(n, fmt, depth) == Indentation(fmt, depth) + (PrintText(n) + [LF])
  {
    hide PrintText, Indentation;
  }

  // ---------- When the additional text makes no difference ----------

  /** Text stands alone in its element. */
  predicate TextAlone(n: Node) {
    n.Element? ==>
      (SingleText(n.children) || NoPcdata(n.children)) && forall i :: 0 <= i < |n.children| ==> TextAlone(n.children[i])
  }

  /** The nodes an element or CDATA section becomes. */
  function OwnNodes(n: Node): seq<Node>
    requires !n.Pcdata?
  {
    if n.Element? then [CanonNode(n)] else CdataNodes(Sections(CStr(n.value)))
  }

  lemma CanonNodesCons(pending: seq<byte>, ns: seq<Node>)
    ensures ns == [] ==> CanonNodes(pending, ns) == Leaf(pending)
    ensures ns != [] && ns[0].Pcdata? ==> CanonNodes(pending, ns) == CanonNodes(pending + CStr(ns[0].value), ns[1..])
    ensures ns != [] && !ns[0].Pcdata? ==>
      CanonNodes(pending, ns) == Leaf(pending) + OwnNodes(ns[0]) + CanonNodes([], ns[1..])
  {
    hide Leaf, Sections, CStr;
  }

  /** The white space in front of a child and the text pending before it run together. */
  lemma SpreadAhead(pending: seq<byte>, ns: seq<Node>, fmt: Format, depth: nat, end: seq<byte>)
    requires AllSpace(fmt.indent) && AllSpace(end)
    ensures var all := SpreadAll(ns, fmt, depth) + [Pcdata(end)];
      ns == [] ==> CanonNodes(pending, all) == Leaf(pending + end)
    ensures var all, ind := SpreadAll(ns, fmt, depth) + [Pcdata(end)], Indentation(fmt, depth);
      ns != [] ==>
        CanonNodes(pending, all) == CanonNodes(pending + ind,
          [Spread(ns[0], fmt, depth), Pcdata([LF])] + (SpreadAll(ns[1..], fmt, depth) + [Pcdata(end)]))
  {
    hide CanonNodes, Leaf, Spread, Indentation, CStr, AllSpace;
    var all := SpreadAll(ns, fmt, depth) + [Pcdata(end)];
    CanonNodesCons(pending, all);
    if ns == [] {
      SpacePrinted(end, fmt, depth);
      assert all == [Pcdata(end)] && all[1..] == [];
      CanonNodesCons(pending + end, []);
    } else {
      IndentationSpace(fmt, depth);
      SpacePrinted(Indentation(fmt, depth), fmt, depth);
      assert all[1..] == [Spread(ns[0], fmt, depth), Pcdata([LF])] + (SpreadAll(ns[1..], fmt, depth) + [Pcdata(end)]);
    }
  }

  /** A child that is no text, behind white space, and the line feed behind it. */
  lemma SpreadOwn(pending: seq<byte>, m: Node, rest: seq<Node>)
    requires AllSpace(pending) && !m.Pcdata?
    ensures CanonNodes(pending, [m, Pcdata([LF])] + rest) == OwnNodes(m) + CanonNodes([LF], rest)
  {
    hide CanonNodes, CStr, OwnNodes;
    var all := [m, Pcdata([LF])] + rest;
    CanonNodesCons(pending, all);
    assert all[1..] == [Pcdata([LF])] + rest;
    CanonNodesCons([], all[1..]);
    assert all[1..][1..] == rest;
    SpacePrinted([LF], Format(true, false, []), 0);
    assert [] + [LF] == [LF];
    assert [] + OwnNodes(m) == OwnNodes(m);
  }

  lemma {:induction false} SpreadAllCanon(pending: seq<byte>, ns: seq<Node>, fmt: Format, depth: nat, end: seq<byte>)
    requires AllSpace(fmt.indent) && !fmt.raw && AllSpace(pending) && AllSpace(end) && NoPcdata(ns)
    requires forall i :: 0 <= i < |ns| ==> TextAlone(ns[i])
    ensures CanonNodes(pending, SpreadAll(ns, fmt, depth) + [Pcdata(end)]) == CanonNodes([], ns)
    decreases ns, 1
  {
    hide CanonNodes, CanonNode, Spread, SpreadAll, Indentation, AllSpace, CdataNodes, Sections, CStr;
    SpreadAhead(pending, ns, fmt, depth, end);
    CanonNodesCons([], ns);
    assert AllSpace([]) by { SpaceConcat([], pending); assert [] + pending == pending; }
    if ns == [] {
      SpaceConcat(pending, end);
    } else {
      var n, rest := ns[0], ns[1..];
      IndentationSpace(fmt, depth);
      SpaceConcat(pending, Indentation(fmt, depth));
      SpreadKind(n, fmt, depth);
      SpreadOwn(pending + Indentation(fmt, depth), Spread(n, fmt, depth), SpreadAll(rest, fmt, depth) + [Pcdata(end)]);
      LineFeedSpace();
      SpreadAllCanon([LF], rest, fmt, depth, end);
      if n.Element? {
        SpreadCanon(n, fmt, depth);
      }
      assert [] + OwnNodes(n) == OwnNodes(n);
    }
  }

  lemma LineFeedSpace()
    ensures AllSpace([LF]) && AllSpace([])
  {
  }

  lemma SpreadKind(n: Node, fmt: Format, depth: nat)
    ensures n.Element? <==> Spread(n, fmt, depth).Element?
    ensures !n.Element? ==> Spread(n, fmt, depth) == n
  {
  }

  /** When text stands alone, the indentation leaves no trace. */
  lemma {:induction false} SpreadCanon(n: Node, fmt: Format, depth: nat)
    requires n.Element? && AllSpace(fmt.indent) && (fmt.raw || TextAlone(n))
    ensures Spread(n, fmt, depth).Element? && CanonNode(Spread(n, fmt, depth)) == CanonNode(n)
    decreases n, 0
  {
    hide CanonNodes, SpreadAll, Indentation, AllSpace, CanonAttrs;
    if !(fmt.raw || n.children == [] || SingleText(n.children)) {
      IndentationSpace(fmt, depth);
      SpreadChildren(n, fmt, depth);
      LineFeedSpace();
      SpreadAllCanon([LF], n.children, fmt, depth + 1, Indentation(fmt, depth));
    }
  }

  lemma SpreadChildren(n: Node, fmt: Format, depth: nat)
    requires n.Element? && AllSpace(fmt.indent) && !fmt.raw && n.children != [] && !SingleText(n.children)
    ensures CanonNodes([], Spread(n, fmt, depth).children)
         == CanonNodes([LF], SpreadAll(n.children, fmt, depth + 1) + [Pcdata(Indentation(fmt, depth))])
  {
    hide CanonNodes, SpreadAll, Indentation, AllSpace, CStr;
    var all := Spread(n, fmt, depth).children;
    CanonNodesCons([], all);
    assert all[0] == Pcdata([LF]);
    assert all[1..] == SpreadAll(n.children, fmt, depth + 1) + [Pcdata(Indentation(fmt, depth))];
    LineFeedSpace();
    SpacePrinted([LF], fmt, 0);
    assert [] + [LF] == [LF];
  }

  // ---------- When it does: indented trees that come back unchanged have no text beside other nodes ----------

  /** Normalising line ends drops carriage returns at most. */
  lemma {:induction false} EolLength(v: seq<byte>)
    ensures |Convert(v, Eol, false)| + multiset(v)[CR] >= |v|
    decreases |v|
  {
    hide FrontRef;
    if v != [] {
      var n := Taken(v, Eol, false);
      EolLength(v[n..]);
      assert v == v[..n] + v[n..];
      if n == 2 {
        assert v[..n] == [CR, LF];
      } else {
        assert v[..n] == [v[0]];
      }
    }
  }

  lemma TextGrown(pending: seq<byte>, v: seq<byte>, more: seq<byte>)
    requires PlainText(v) && !AllSpace(v)
    ensures Leaf(pending + v + [LF] + more) != [] && Leaf(pending + v + [LF] + more)[0] != Pcdata(v)
  {
    hide Convert, AllSpace;
    var all := pending + v + [LF] + more;
    assert !AllSpace(all) by {
      SpaceConcat(pending + v + [LF], more);
      SpaceConcat(pending + v, [LF]);
      SpaceConcat(pending, v);
    }
    EolLength(all);
    assert multiset(v)[CR] == 0;
    assert multiset(pending)[CR] <= |pending| && multiset(more)[CR] <= |more| by {
      CountBound(pending);
      CountBound(more);
    }
    assert multiset(all) == multiset(pending) + multiset(v) + multiset([LF]) + multiset(more);
  }

  lemma CountBound(s: seq<byte>)
    ensures multiset(s)[CR] <= |s|
  {
    assert |multiset(s)| == |s|;
    assert multiset(s)[CR] <= |multiset(s)|;
  }

  lemma {:induction false} SpreadAllExact(pending: seq<byte>, ns: seq<Node>, fmt: Format, depth: nat, end: seq<byte>)
    requires AllSpace(fmt.indent) && !fmt.raw && AllSpace(pending) && AllSpace(end) && StableNodes(ns)
    requires CanonNodes(pending, SpreadAll(ns, fmt, depth) + [Pcdata(end)]) == ns
    ensures NoPcdata(ns)
    ensures forall i :: 0 <= i < |ns| && ns[i].Element? ==>
      Spread(ns[i], fmt, depth).Element? && CanonNode(Spread(ns[i], fmt, depth)) == ns[i]
    decreases ns
  {
    hide CanonNodes, CanonNode, Spread, SpreadAll, Indentation, AllSpace, CdataNodes, Sections, StableNode, StableNodes;
    if ns != [] {
      var n, rest := ns[0], ns[1..];
      var ind := Indentation(fmt, depth);
      StableTail(ns);
      SpreadAhead(pending, ns, fmt, depth, end);
      IndentationSpace(fmt, depth);
      SpaceConcat(pending, ind);
      SpreadKind(n, fmt, depth);
      LineFeedSpace();
      if n.Pcdata? {
        SpreadText(pending + ind, n.value, rest, fmt, depth, end);
        assert false;
      } else {
        SpreadOwn(pending + ind, Spread(n, fmt, depth), SpreadAll(rest, fmt, depth) + [Pcdata(end)]);
        if n.Cdata? {
          StableCdata(n);
        }
        var tail := CanonNodes([LF], SpreadAll(rest, fmt, depth) + [Pcdata(end)]);
        var own := OwnNodes(Spread(n, fmt, depth));
        assert |own| == 1 && ns == own + tail;
        assert own[0] == ns[0] && tail == rest;
        SpreadAllExact([LF], rest, fmt, depth, end);
      }
    }
  }

  lemma StableCdata(n: Node)
    requires n.Cdata? && StableNode(n)
    ensures OwnNodes(n) == [n]
  {
    hide Sections, CdataNodes, FindSectionEnd;
    SectionsIdentity(n.value);
  }

  /** A text grows by the line feed behind it. */
  lemma SpreadText(pending: seq<byte>, v: seq<byte>, rest: seq<Node>, fmt: Format, depth: nat, end: seq<byte>)
    requires AllSpace(fmt.indent) && !fmt.raw && AllSpace(end) && StableNode(Pcdata(v))
    requires rest != [] ==> !rest[0].Pcdata?
    ensures var r := CanonNodes(pending, [Pcdata(v), Pcdata([LF])] + (SpreadAll(rest, fmt, depth) + [Pcdata(end)]));
      r != [] && r[0] != Pcdata(v)
  {
    hide CanonNodes, CanonNode, Leaf, Spread, SpreadAll, Indentation, AllSpace, CStr, CdataNodes, Sections;
    var tail := SpreadAll(rest, fmt, depth) + [Pcdata(end)];
    var all := [Pcdata(v), Pcdata([LF])] + tail;
    CanonNodesCons(pending, all);
    assert all[1..] == [Pcdata([LF])] + tail;
    CanonNodesCons(pending + CStr(v), all[1..]);
    assert all[1..][1..] == tail;
    CStrId(v);
    LineFeedSpace();
    SpacePrinted([LF], fmt, 0);
    var p := pending + v + [LF];
    SpreadAhead(p, rest, fmt, depth, end);
    if rest == [] {
      TextGrown(pending, v, end);
    } else {
      var ind := Indentation(fmt, depth);
      TextGrown(pending, v, ind);
      SpreadKind(rest[0], fmt, depth);
      var more := [Spread(rest[0], fmt, depth), Pcdata([LF])] + (SpreadAll(rest[1..], fmt, depth) + [Pcdata(end)]);
      CanonNodesCons(p + ind, more);
      var leaf := Leaf(p + ind);
      assert (leaf + OwnNodes(more[0]) + CanonNodes([], more[1..]))[0] == leaf[0];
    }
  }

  lemma {:induction false} SpreadExact(n: Node, fmt: Format, depth: nat)
    requires n.Element? && AllSpace(fmt.indent) && !fmt.raw && StableNode(n)
    requires Spread(n, fmt, depth).Element? && CanonNode(Spread(n, fmt, depth)) == n
    ensures TextAlone(n)
    decreases n
  {
    hide CanonNodes, SpreadAll, Indentation, AllSpace, CanonAttrs;
    if n.children != [] && !SingleText(n.children) {
      IndentationSpace(fmt, depth);
      SpreadChildren(n, fmt, depth);
      LineFeedSpace();
      SpreadAllExact([LF], n.children, fmt, depth + 1, Indentation(fmt, depth));
      forall i | 0 <= i < |n.children|
        ensures TextAlone(n.children[i])
      {
        if n.children[i].Element? {
          SpreadExact(n.children[i], fmt, depth + 1);
        }
      }
    }
  }

  /** A tree printed and read back is unchanged exactly when it is stable and, if indented, its texts stand alone. */
  lemma SpreadIdentity(n: Node, fmt: Format, depth: nat)
    requires n.Element? && AllSpace(fmt.indent)
    ensures Spread(n, fmt, depth).Element?
    ensures CanonNode(Spread(n, fmt, depth)) == n <==> StableNode(n) && (fmt.raw || TextAlone(n))
  {
    hide CanonNode, AllSpace, StableNode, TextAlone;
    SpreadKind(n, fmt, depth);
    if StableNode(n) && (fmt.raw || TextAlone(n)) {
      SpreadCanon(n, fmt, depth);
      CanonIdentity(n);
    }
    if CanonNode(Spread(n, fmt, depth)) == n {
      CanonNodeStable(Spread(n, fmt, depth));
      if !fmt.raw {
        SpreadExact(n, fmt, depth);
      }
    }
  }
}
