/** What printing and parsing makes of a tree, and the trees it leaves alone. */
module Canon {
  import opened Chars
  import opened Refs
  import opened Dom
  import opened Printer
  import opened Escaping

  /** Text that is not all white space becomes a node, its line ends normalised. */
  function Leaf(text: seq<byte>): seq<Node> {
    if AllSpace(text) then [] else [Pcdata(Convert(text, Eol, false))]
  }

  function CanonAttrs(attrs: seq<Attr>): (r: seq<Attr>)
    ensures |r| == |attrs|
  {
    seq(|attrs|, i requires 0 <= i < |attrs| => Attr(attrs[i].name, Detab(CStr(attrs[i].value))))
  }

  function CdataNodes(pieces: seq<seq<byte>>): (r: seq<Node>)
    ensures |r| == |pieces|
  {
    if pieces == [] then [] else [Cdata(Convert(pieces[0], Eol, false))] + CdataNodes(pieces[1..])
  }

  function CanonNode(n: Node): Node
    requires n.Element?
    decreases n
  {
    Element(n.name, CanonAttrs(n.attrs), CanonNodes([], n.children))
  }

  /** Children in order: adjacent texts run together, a CDATA section with "]]>" becomes several. */
  function CanonNodes(pending: seq<byte>, ns: seq<Node>): seq<Node>
    decreases ns
  {
    if ns == [] then Leaf(pending)
    else match ns[0]
      case Pcdata(value) => CanonNodes(pending + CStr(value), ns[1..])
      case Cdata(value) => Leaf(pending) + CdataNodes(Sections(CStr(value))) + CanonNodes([], ns[1..])
      case Element(_, _, _) => Leaf(pending) + [CanonNode(ns[0])] + CanonNodes([], ns[1..])
  }

  predicate NamedAttrs(attrs: seq<Attr>) {
    forall i :: 0 <= i < |attrs| ==> IsName(attrs[i].name)
  }

  predicate NoPcdata(ns: seq<Node>) {
    forall i :: 0 <= i < |ns| ==> !ns[i].Pcdata?
  }

  /** Elements and attributes have XML names, so that their tags can be read back. */
  predicate Named(n: Node) {
    n.Element? ==>
      IsName(n.name) && NamedAttrs(n.attrs) && forall i :: 0 <= i < |n.children| ==> Named(n.children[i])
  }

  predicate NamedAll(ns: seq<Node>) {
    forall i :: 0 <= i < |ns| ==> Named(ns[i])
  }

  // ---------- Trees that come back unchanged ----------

  predicate PlainText(v: seq<byte>) {
    NUL !in v && CR !in v
  }

  /** Character data comes back when it has no zero and no CR and is not all white space. */
  predicate StableNode(n: Node)
    decreases n
  {
    match n
    case Pcdata(value) => PlainText(value) && !AllSpace(value)
    case Cdata(value) => PlainText(value) && FindSectionEnd(value, 0) == |value|
    case Element(_, attrs, children) =>
      (forall i :: 0 <= i < |attrs| ==> NUL !in attrs[i].value && TAB !in attrs[i].value) && StableNodes(children)
  }

  /** No two texts stand side by side. */
  predicate StableNodes(ns: seq<Node>)
    decreases ns
  {
    (forall i :: 0 <= i < |ns| ==> StableNode(ns[i])) &&
    (forall i :: 0 < i < |ns| ==> !(ns[i - 1].Pcdata? && ns[i].Pcdata?))
  }

  lemma StableTail(ns: seq<Node>)
    requires ns != []
    ensures StableNodes(ns) <==>
      StableNode(ns[0]) && StableNodes(ns[1..]) && (|ns| > 1 ==> !(ns[0].Pcdata? && ns[1].Pcdata?))
  {
    var rest := ns[1..];
    assert forall i :: 0 <= i < |rest| ==> rest[i] == ns[i + 1];
    if StableNode(ns[0]) && StableNodes(rest) && (|ns| > 1 ==> !(ns[0].Pcdata? && ns[1].Pcdata?)) {
      assert forall i :: 0 < i < |ns| ==> ns[i] == rest[i - 1];
    }
  }

  lemma DetabIdentity(v: seq<byte>)
    ensures Detab(CStr(v)) == v <==> NUL !in v && TAB !in v
  {
    var c := CStr(v);
    if NUL !in v {
      CStrId(v);
      if TAB in v {
        var i :| 0 <= i < |v| && v[i] == TAB;
        assert Detab(v)[i] == SPACE;
      } else {
        assert Detab(v) == v;
      }
    } else {
      assert c != v;
      assert |c| < |v|;
    }
  }

  lemma AttrsIdentity(attrs: seq<Attr>)
    ensures CanonAttrs(attrs) == attrs <==>
      forall i :: 0 <= i < |attrs| ==> NUL !in attrs[i].value && TAB !in attrs[i].value
  {
    forall i | 0 <= i < |attrs|
      ensures CanonAttrs(attrs)[i] == attrs[i] <==> NUL !in attrs[i].value && TAB !in attrs[i].value
    {
      DetabIdentity(attrs[i].value);
    }
  }

  /** A text in which nothing ends a section is one section. */
  lemma SectionsIdentity(v: seq<byte>)
    requires PlainText(v) && FindSectionEnd(v, 0) == |v|
    ensures CdataNodes(Sections(CStr(v))) == [Cdata(v)]
  {
    hide Convert, FindSectionEnd, CStr;
    CStrId(v);
    EolIdentity(v);
    var one := [v];
    assert Sections(v) == one && one[1..] == [];
    assert CdataNodes(one[1..]) == [];
  }

  lemma LeafIdentity(v: seq<byte>)
    ensures Leaf(CStr(v)) == [Pcdata(v)] <==> PlainText(v) && !AllSpace(v)
  {
    var c := CStr(v);
    EolIdentity(c);
    if NUL in v {
      assert |Convert(c, Eol, false)| <= |c| < |v|;
    } else {
      CStrId(v);
    }
  }

  // ---------- Canonical trees are stable, and stable trees are canonical ----------

  lemma StableConcat(x: seq<Node>, y: seq<Node>)
    requires StableNodes(x) && StableNodes(y)
    requires x != [] && y != [] ==> !(x[|x| - 1].Pcdata? && y[0].Pcdata?)
    ensures StableNodes(x + y)
  {
    var z := x + y;
    forall i | 0 < i < |z|
      ensures !(z[i - 1].Pcdata? && z[i].Pcdata?)
    {
      if i < |x| {
        assert z[i - 1] == x[i - 1] && z[i] == x[i];
      } else if i > |x| {
        assert z[i - 1] == y[i - 1 - |x|] && z[i] == y[i - |x|];
      }
    }
  }

  predicate NoSectionEnd(v: seq<byte>) {
    forall i :: 0 <= i < |v| ==> !EndsSection(v, i)
  }

  lemma NoEndFound(v: seq<byte>)
    ensures FindSectionEnd(v, 0) == |v| <==> NoSectionEnd(v)
  {
  }

  /** Line end normalisation creates no "]]>". */
  lemma {:induction false} EolNoSectionEnd(v: seq<byte>)
    requires NoSectionEnd(v)
    ensures NoSectionEnd(Convert(v, Eol, false))
    ensures v != [] && v[0] != CR ==> Convert(v, Eol, false) == [v[0]] + Convert(v[1..], Eol, false)
    ensures v != [] && v[0] == CR ==> Convert(v, Eol, false) != [] && Convert(v, Eol, false)[0] == LF
    decreases |v|
  {
    if v != [] {
      var n := Taken(v, Eol, false);
      var rest := v[n..];
      assert forall i :: 0 <= i < |rest| && EndsSection(rest, i) ==> EndsSection(v, i + n);
      EolNoSectionEnd(rest);
      var r, tail := Convert(v, Eol, false), Convert(rest, Eol, false);
      assert r == Given(v, Eol, false) + tail && |Given(v, Eol, false)| == 1;
      assert forall i :: 0 < i < |r| && EndsSection(r, i) ==> EndsSection(tail, i - 1);
      EolFront(v);
    }
  }

  lemma EolFront(v: seq<byte>)
    requires v != [] && !EndsSection(v, 0)
    ensures !EndsSection(Convert(v, Eol, false), 0)
  {
    var r := Convert(v, Eol, false);
    if |r| >= 3 && r[0] == RBRACKET && r[1] == RBRACKET {
      EolPeel(v);
      EolPeel(v[1..]);
      EolPeel(v[1..][1..]);
      assert v[1..][1..] == v[2..];
      assert r[1] == Convert(v[1..], Eol, false)[0] && r[2] == Convert(v[2..], Eol, false)[0];
    }
  }

  /** The front of normalised text: a byte other than a line feed was there before. */
  lemma EolPeel(v: seq<byte>)
    ensures v == [] ==> Convert(v, Eol, false) == []
    ensures v != [] ==> Convert(v, Eol, false) != []
    ensures v != [] && v[0] != CR ==> Convert(v, Eol, false) == [v[0]] + Convert(v[1..], Eol, false)
    ensures v != [] && v[0] == CR ==> Convert(v, Eol, false)[0] == LF
  {
  }

  lemma {:induction false} SectionsSound(v: seq<byte>)
    requires NUL !in v
    ensures forall i :: 0 <= i < |Sections(v)| ==> NUL !in Sections(v)[i] && NoSectionEnd(Sections(v)[i])
    decreases |v|
  {
    var i := FindSectionEnd(v, 0);
    if i == |v| {
      NoEndFound(v);
    } else {
      var piece, rest := v[..i + 2], v[i + 2..];
      assert forall x :: x in rest ==> x in v;
      assert forall x :: x in piece ==> x in v;
      SectionsSound(rest);
      assert forall j :: 0 <= j < |piece| && EndsSection(piece, j) ==> EndsSection(v, j);
    }
  }

  lemma {:induction false} CdataStable(pieces: seq<seq<byte>>)
    requires forall i :: 0 <= i < |pieces| ==> NUL !in pieces[i] && NoSectionEnd(pieces[i])
    ensures StableNodes(CdataNodes(pieces))
    ensures forall i :: 0 <= i < |pieces| ==> CdataNodes(pieces)[i].Cdata?
  {
    if pieces != [] {
      var p := pieces[0];
      CdataStable(pieces[1..]);
      EolIdentity(p);
      EolNoNul(p);
      EolNoSectionEnd(p);
      NoEndFound(Convert(p, Eol, false));
      var n := Cdata(Convert(p, Eol, false));
      StableTail([n] + CdataNodes(pieces[1..]));
      assert ([n] + CdataNodes(pieces[1..]))[1..] == CdataNodes(pieces[1..]);
    }
  }

  lemma LeafStable(text: seq<byte>)
    requires NUL !in text
    ensures StableNodes(Leaf(text))
  {
    EolIdentity(text);
    EolNoNul(text);
    EolSpace(text);
  }

  lemma {:induction false} EolSpace(v: seq<byte>)
    ensures AllSpace(Convert(v, Eol, false)) <==> AllSpace(v)
    decreases |v|
  {
    hide FrontRef, AllSpace;
    if v != [] {
      var n := Taken(v, Eol, false);
      EolSpace(v[n..]);
      AllSpaceCons(Given(v, Eol, false)[0], Convert(v[n..], Eol, false));
      SpaceTail(v, n);
    } else {
      assert Convert(v, Eol, false) == v;
    }
  }

  lemma SpaceTail(v: seq<byte>, n: nat)
    requires 1 <= n <= |v| && forall i :: 0 < i < n ==> IsSpace(v[i])
    ensures AllSpace(v) <==> IsSpace(v[0]) && AllSpace(v[n..])
  {
    assert v == v[..n] + v[n..];
    assert forall i :: 0 <= i < |v[n..]| ==> v[n..][i] == v[n + i];
    if IsSpace(v[0]) && AllSpace(v[n..]) {
      assert forall i :: n <= i < |v| ==> v[i] == v[n..][i - n];
    }
  }

  lemma {:induction false} CanonNodesStable(pending: seq<byte>, ns: seq<Node>)
    requires NUL !in pending
    ensures StableNodes(CanonNodes(pending, ns))
    decreases ns, 0
  {
    LeafStable(pending);
    if ns != [] {
      var n, rest := ns[0], ns[1..];
      match n
      case Pcdata(value) =>
        CanonNodesStable(pending + CStr(value), rest);
      case Cdata(value) =>
        CanonNodesStable([], rest);
        SectionsSound(CStr(value));
        var nodes := CdataNodes(Sections(CStr(value)));
        CdataStable(Sections(CStr(value)));
        StableConcat(Leaf(pending), nodes);
        StableConcat(Leaf(pending) + nodes, CanonNodes([], rest));
      case Element(_, _, _) =>
        CanonNodesStable([], rest);
        CanonNodeStable(n);
        StableConcat(Leaf(pending), [CanonNode(n)]);
        StableConcat(Leaf(pending) + [CanonNode(n)], CanonNodes([], rest));
    }
  }

  lemma {:induction false} CanonNodeStable(n: Node)
    requires n.Element?
    ensures StableNode(CanonNode(n))
    decreases n, 0
  {
    CanonNodesStable([], n.children);
    forall i | 0 <= i < |n.attrs|
      ensures NUL !in CanonAttrs(n.attrs)[i].value && TAB !in CanonAttrs(n.attrs)[i].value
    {
      DetabStable(CStr(n.attrs[i].value));
    }
  }

  lemma DetabStable(v: seq<byte>)
    requires NUL !in v
    ensures NUL !in Detab(v) && TAB !in Detab(v)
  {
    forall i | 0 <= i < |v|
      ensures Detab(v)[i] != NUL && Detab(v)[i] != TAB
    {
      assert v[i] in v;
    }
  }

  lemma {:induction false} StableNodesCanonical(ns: seq<Node>)
    requires StableNodes(ns)
    ensures CanonNodes([], ns) == ns
    decreases ns, 0
  {
    if ns != [] {
      var n, rest := ns[0], ns[1..];
      StableTail(ns);
      StableNodesCanonical(rest);
      assert [n] + rest == ns;
      match n
      case Pcdata(value) =>
        LeafIdentity(value);
        CStrId(value);
        PendingFlushed(value, rest);
      case Cdata(value) =>
        SectionsIdentity(value);
      case Element(_, attrs, children) =>
        AttrsIdentity(attrs);
        StableNodesCanonical(children);
    }
  }

  /** Pending text is a node of its own when no text follows. */
  lemma PendingFlushed(pending: seq<byte>, ns: seq<Node>)
    requires ns != [] ==> !ns[0].Pcdata?
    ensures CanonNodes(pending, ns) == Leaf(pending) + CanonNodes([], ns)
    ensures CanonNodes([] + pending, ns) == CanonNodes(pending, ns)
  {
    assert [] + pending == pending;
    if ns != [] {
      assert Leaf([]) == [];
    }
  }

  /** Printing and parsing gives the tree itself exactly for the stable trees. */
  lemma CanonIdentity(n: Node)
    requires n.Element?
    ensures CanonNode(n) == n <==> StableNode(n)
  {
    CanonNodeStable(n);
    if StableNode(n) {
      AttrsIdentity(n.attrs);
      StableNodesCanonical(n.children);
    }
  }
}
