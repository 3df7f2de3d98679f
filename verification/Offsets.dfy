/**
 * Trees whose names and values are positions in the parsed buffer, as the parser builds them: every
 * string is read from its position up to the next zero byte.
 */
module Offsets {
  import opened Chars
  import opened StrConv
  import opened Dom
  import opened Parser

  datatype AttrAt = AttrAt(name: nat, value: nat)

  datatype NodeAt =
    | ElementAt(name: nat, attrs: seq<AttrAt>, children: seq<NodeAt>)
    | PcdataAt(value: nat)
    | CdataAt(value: nat)

  datatype CursorAt =
    | DocAt(children: seq<NodeAt>)
    | OpenAt(name: nat, attrs: seq<AttrAt>, children: seq<NodeAt>, parent: CursorAt)

  function Str(a: seq<byte>, p: nat): seq<byte> {
    if p <= |a| then CStr(a[p..]) else []
  }

  function ReadAttr(a: seq<byte>, x: AttrAt): Attr {
    Attr(Str(a, x.name), Str(a, x.value))
  }

  function ReadAttrs(a: seq<byte>, xs: seq<AttrAt>): (r: seq<Attr>)
    ensures |r| == |xs|
  {
    seq(|xs|, i requires 0 <= i < |xs| => ReadAttr(a, xs[i]))
  }

  function ReadNode(a: seq<byte>, n: NodeAt): Node {
    match n
    case ElementAt(name, attrs, children) =>
      Element(Str(a, name), ReadAttrs(a, attrs),
          seq(|children|, i requires 0 <= i < |children| => ReadNode(a, children[i])))
    case PcdataAt(value) => Pcdata(Str(a, value))
    case CdataAt(value) => Cdata(Str(a, value))
  }

  function ReadNodes(a: seq<byte>, ns: seq<NodeAt>): (r: seq<Node>)
    ensures |r| == |ns|
  {
    seq(|ns|, i requires 0 <= i < |ns| => ReadNode(a, ns[i]))
  }

  function ReadCursor(a: seq<byte>, c: CursorAt): Cursor {
    match c
    case DocAt(children) => Doc(ReadNodes(a, children))
    case OpenAt(name, attrs, children, parent) =>
      Open(Str(a, name), ReadAttrs(a, attrs), ReadNodes(a, children), ReadCursor(a, parent))
  }

  /** The string at p ends before s. */
  predicate Ends(a: seq<byte>, p: nat, s: nat) {
    p <= s <= |a| && NUL in a[p..s]
  }

  predicate SettledAttrs(a: seq<byte>, xs: seq<AttrAt>, s: nat) {
    forall i :: 0 <= i < |xs| ==> Ends(a, xs[i].name, s) && Ends(a, xs[i].value, s)
  }

  /** Every string of the tree ends before s. */
  predicate Settled(a: seq<byte>, n: NodeAt, s: nat) {
    match n
    case ElementAt(name, attrs, children) =>
      Ends(a, name, s) && SettledAttrs(a, attrs, s) && forall i :: 0 <= i < |children| ==> Settled(a, children[i], s)
    case PcdataAt(value) => Ends(a, value, s)
    case CdataAt(value) => Ends(a, value, s)
  }

  predicate SettledNodes(a: seq<byte>, ns: seq<NodeAt>, s: nat) {
    forall i :: 0 <= i < |ns| ==> Settled(a, ns[i], s)
  }

  predicate SettledCursor(a: seq<byte>, c: CursorAt, s: nat) {
    match c
    case DocAt(children) => SettledNodes(a, children, s)
    case OpenAt(name, attrs, children, parent) =>
      Ends(a, name, s) && SettledAttrs(a, attrs, s) && SettledNodes(a, children, s) && SettledCursor(a, parent, s)
  }

  /** b agrees with a below s. */
  predicate SameBelow(a: seq<byte>, b: seq<byte>, s: nat) {
    |a| == |b| && s <= |a| && forall i :: 0 <= i < s ==> b[i] == a[i]
  }

  lemma {:induction false} CStrDecided(x: seq<byte>, y: seq<byte>, k: nat)
    requires k <= |x| && k <= |y| && NUL in x[..k] && forall i :: 0 <= i < k ==> x[i] == y[i]
    ensures CStr(x) == CStr(y)
  {
    if x[0] != NUL {
      var j :| 0 <= j < k && x[..k][j] == NUL;
      assert x[1..][..k - 1][j - 1] == NUL;
      CStrDecided(x[1..], y[1..], k - 1);
    }
  }

  /** A string that ends before s is not disturbed by writes from s on. */
  lemma StrKept(a: seq<byte>, b: seq<byte>, p: nat, s: nat, s': nat)
    requires Ends(a, p, s) && SameBelow(a, b, s) && s <= s' <= |b|
    ensures Ends(b, p, s') && Str(b, p) == Str(a, p)
  {
    var j :| 0 <= j < s - p && a[p..s][j] == NUL;
    assert b[p..s'][j] == NUL;
    assert a[p..][..s - p] == a[p..s];
    CStrDecided(a[p..], b[p..], s - p);
  }

  lemma AttrsKept(a: seq<byte>, b: seq<byte>, xs: seq<AttrAt>, s: nat, s': nat)
    requires SettledAttrs(a, xs, s) && SameBelow(a, b, s) && s <= s' <= |b|
    ensures SettledAttrs(b, xs, s') && ReadAttrs(b, xs) == ReadAttrs(a, xs)
  {
    forall i | 0 <= i < |xs|
      ensures Ends(b, xs[i].name, s') && Ends(b, xs[i].value, s') && ReadAttr(b, xs[i]) == ReadAttr(a, xs[i])
    {
      StrKept(a, b, xs[i].name, s, s');
      StrKept(a, b, xs[i].value, s, s');
    }
  }

  lemma {:induction false} NodeKept(a: seq<byte>, b: seq<byte>, n: NodeAt, s: nat, s': nat)
    requires Settled(a, n, s) && SameBelow(a, b, s) && s <= s' <= |b|
    ensures Settled(b, n, s') && ReadNode(b, n) == ReadNode(a, n)
  {
    match n
    case ElementAt(name, attrs, children) =>
      StrKept(a, b, name, s, s');
      AttrsKept(a, b, attrs, s, s');
      forall i | 0 <= i < |children|
        ensures Settled(b, children[i], s') && ReadNode(b, children[i]) == ReadNode(a, children[i])
      {
        NodeKept(a, b, children[i], s, s');
      }
    case PcdataAt(value) => StrKept(a, b, value, s, s');
    case CdataAt(value) => StrKept(a, b, value, s, s');
  }

  lemma NodesKept(a: seq<byte>, b: seq<byte>, ns: seq<NodeAt>, s: nat, s': nat)
    requires SettledNodes(a, ns, s) && SameBelow(a, b, s) && s <= s' <= |b|
    ensures SettledNodes(b, ns, s') && ReadNodes(b, ns) == ReadNodes(a, ns)
  {
    forall i | 0 <= i < |ns|
      ensures Settled(b, ns[i], s') && ReadNode(b, ns[i]) == ReadNode(a, ns[i])
    {
      NodeKept(a, b, ns[i], s, s');
    }
  }

  /** Nothing the parser has finished changes while it rewrites the buffer further on. */
  lemma {:induction false} CursorKept(a: seq<byte>, b: seq<byte>, c: CursorAt, s: nat, s': nat)
    requires SettledCursor(a, c, s) && SameBelow(a, b, s) && s <= s' <= |b|
    ensures SettledCursor(b, c, s') && ReadCursor(b, c) == ReadCursor(a, c)
  {
    match c
    case DocAt(children) =>
      NodesKept(a, b, children, s, s');
    case OpenAt(name, attrs, children, parent) =>
      StrKept(a, b, name, s, s');
      AttrsKept(a, b, attrs, s, s');
      NodesKept(a, b, children, s, s');
      CursorKept(a, b, parent, s, s');
  }

  function AddChildAt(c: CursorAt, n: NodeAt): CursorAt {
    match c
    case DocAt(children) => DocAt(children + [n])
    case OpenAt(name, attrs, children, parent) => OpenAt(name, attrs, children + [n], parent)
  }

  function PopAt(c: CursorAt): CursorAt
    requires c.OpenAt?
  {
    AddChildAt(c.parent, ElementAt(c.name, c.attrs, c.children))
  }

  lemma AddChildRead(a: seq<byte>, c: CursorAt, n: NodeAt, s: nat)
    requires SettledCursor(a, c, s) && Settled(a, n, s)
    ensures SettledCursor(a, AddChildAt(c, n), s)
    ensures ReadCursor(a, AddChildAt(c, n)) == AddChild(ReadCursor(a, c), ReadNode(a, n))
  {
    assert ReadNodes(a, c.children + [n]) == ReadNodes(a, c.children) + [ReadNode(a, n)];
  }

  lemma PopRead(a: seq<byte>, c: CursorAt, s: nat)
    requires SettledCursor(a, c, s) && c.OpenAt?
    ensures SettledCursor(a, PopAt(c), s)
    ensures ReadCursor(a, PopAt(c)) == Pop(ReadCursor(a, c))
  {
    var n := ElementAt(c.name, c.attrs, c.children);
    assert ReadNode(a, n) == Element(Str(a, c.name), ReadAttrs(a, c.attrs), ReadNodes(a, c.children));
    AddChildRead(a, c.parent, n, s);
  }

  /** A text held at p is what a string at p reads, up to an embedded zero. */
  lemma HeldRead(a: seq<byte>, p: nat, text: seq<byte>, s: nat)
    requires Holds(a, p, text) && p + |text| < s <= |a|
    ensures Str(a, p) == CStr(text) && Ends(a, p, s)
  {
    hide CStr;
    var z := p + |text|;
    assert a[p..] == a[p..z] + a[z..];
    assert a[z..] == [NUL] + a[z + 1..];
    assert a[p..] == text + [NUL] + a[z + 1..];
    CStrOfTerminated(text, a[z + 1..]);
    assert a[p..s][|text|] == a[z];
  }
}
