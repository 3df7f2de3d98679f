/**
 * Copying a node with everything below it, possibly into itself. Nodes are records in a store, named by
 * numbers; a new node gets the next number.
 */
module DeepCopy {
  import opened Common
  import opened NodeKind

  datatype Record = Record(kind: Kind, name: string, value: string, attrs: seq<(string, string)>, children: seq<nat>)

  /** A node with everything below it. */
  datatype Content = Content(kind: Kind, name: string, value: string, attrs: seq<(string, string)>,
      children: seq<Content>)

  const XML: string := "xml"

  predicate AllowInsertChild(parent: Kind, child: Kind) {
    (parent == Document || parent == Element) && child != Document &&
        (parent != Document ==> child != Declaration && child != Doctype)
  }

  /** A document takes everything but a document; an element takes elements, text, comments and instructions. */
  lemma Allowed(child: Kind)
    ensures AllowInsertChild(Document, child) <==> child in [Element, Pcdata, Cdata, Comment, Pi, Declaration, Doctype]
    ensures AllowInsertChild(Element, child) <==> child in [Element, Pcdata, Cdata, Comment, Pi]
    ensures forall parent :: AllowInsertChild(parent, child) ==> parent in [Document, Element]
  {
  }

  /** The record x of the store is the root of this content. */
  predicate Shows(m: map<nat, Record>, x: nat, t: Content)
    decreases t
  {
    x in m && m[x].kind == t.kind && m[x].name == t.name && m[x].value == t.value && m[x].attrs == t.attrs &&
    |m[x].children| == |t.children| && forall i :: 0 <= i < |t.children| ==> Shows(m, m[x].children[i], t.children[i])
  }

  function Size(t: Content): nat {
    1 + SizeAll(t.children)
  }

  function SizeAll(ts: seq<Content>): nat {
    if ts == [] then 0 else SizeAll(ts[..|ts| - 1]) + Size(ts[|ts| - 1])
  }

  lemma {:induction false} SizePrefix(ts: seq<Content>, i: nat)
    requires i < |ts|
    ensures SizeAll(ts[..i + 1]) == SizeAll(ts[..i]) + Size(ts[i]) <= SizeAll(ts)
    decreases |ts|
  {
    assert ts[..i + 1][..i] == ts[..i];
    if i + 1 < |ts| {
      var front := ts[..|ts| - 1];
      SizePrefix(front, i);
      assert front[..i + 1] == ts[..i + 1] && front[..i] == ts[..i];
    } else {
      assert ts[..i + 1] == ts;
    }
  }

  /**
   * The record x is the root of this content, and the records below it have the numbers that follow, in
   * document order: each node has a record of its own.
   */
  predicate Numbered(m: map<nat, Record>, x: nat, t: Content)
    decreases t
  {
    x in m && m[x].kind == t.kind && m[x].name == t.name && m[x].value == t.value && m[x].attrs == t.attrs &&
    |m[x].children| == |t.children| &&
    forall i :: 0 <= i < |t.children| ==>
      m[x].children[i] == x + 1 + SizeAll(t.children[..i]) && Numbered(m, m[x].children[i], t.children[i])
  }

  lemma {:induction false} NumberedShows(m: map<nat, Record>, x: nat, t: Content)
    requires Numbered(m, x, t)
    ensures Shows(m, x, t)
    decreases t
  {
    forall i | 0 <= i < |t.children|
      ensures Shows(m, m[x].children[i], t.children[i])
    {
      NumberedShows(m, m[x].children[i], t.children[i]);
    }
  }

  /** Content is not disturbed by changes to other records. */
  lemma {:induction false} NumberedKept(m: map<nat, Record>, m': map<nat, Record>, x: nat, t: Content)
    requires Numbered(m, x, t)
    requires forall y :: y in m && x <= y < x + Size(t) ==> y in m' && m'[y] == m[y]
    ensures Numbered(m', x, t)
    decreases t
  {
    hide SizeAll;
    forall i | 0 <= i < |t.children|
      ensures Numbered(m', m[x].children[i], t.children[i])
    {
      SizePrefix(t.children, i);
      NumberedKept(m, m', m[x].children[i], t.children[i]);
    }
  }

  // ---------- What is copied ----------

  /** Of each kind of node what the copy takes over. */
  function Plain(t: Content): Content {
    match t.kind
    case Element => Content(Element, t.name, "", t.attrs,
      seq(|t.children|, i requires 0 <= i < |t.children| => Plain(t.children[i])))
    case Pi => Content(Pi, t.name, t.value, [], [])
    case Declaration => Content(Declaration, t.name, "", t.attrs, [])
    case _ => Content(t.kind, "", t.value, [], [])
  }

  /** Nodes have only what their kind can have. */
  predicate WellFormed(t: Content) {
    match t.kind
    case Element => t.value == "" && forall i :: 0 <= i < |t.children| ==> WellFormed(t.children[i])
    case Pi => t.attrs == [] && t.children == []
    case Declaration => t.value == "" && t.children == []
    case _ => t.name == "" && t.attrs == [] && t.children == []
  }

  /** The copy equals the original exactly for well formed content. */
  lemma {:induction false} PlainIdentity(t: Content)
    ensures Plain(t) == t <==> WellFormed(t)
  {
    if t.kind == Element {
      forall i | 0 <= i < |t.children|
        ensures Plain(t.children[i]) == t.children[i] <==> WellFormed(t.children[i])
      {
        PlainIdentity(t.children[i]);
      }
      if WellFormed(t) {
        assert Plain(t).children == t.children;
      }
      if Plain(t) == t {
        assert forall i :: 0 <= i < |t.children| ==> Plain(t).children[i] == t.children[i];
      }
    }
  }

  /** Elements hold only nodes that may be inserted into them. */
  predicate WellNested(t: Content) {
    t.kind == Element ==>
        forall i :: 0 <= i < |t.children| ==> AllowInsertChild(Element, t.children[i].kind) && WellNested(t.children[i])
  }

  // ---------- The new node among the source's children ----------

  function WithoutNode(s: seq<nat>, skip: nat): (r: seq<nat>)
    ensures |r| <= |s|
  {
    if s == [] then []
    else WithoutNode(s[..|s| - 1], skip) + if s[|s| - 1] == skip then [] else [s[|s| - 1]]
  }

  lemma {:induction false} WithoutAbsent(s: seq<nat>, skip: nat)
    requires skip !in s
    ensures WithoutNode(s, skip) == s
  {
    if s != [] {
      WithoutAbsent(s[..|s| - 1], skip);
    }
  }

  lemma {:induction false} WithoutInserted(s: seq<nat>, k: nat, skip: nat)
    requires skip !in s && k <= |s|
    ensures WithoutNode(s[..k] + [skip] + s[k..], skip) == s
    decreases |s| - k
  {
    var r := s[..k] + [skip] + s[k..];
    if k == |s| {
      assert r[..|r| - 1] == s;
      WithoutAbsent(s, skip);
    } else {
      var front := s[..|s| - 1];
      WithoutInserted(front, k, skip);
      assert r[..|r| - 1] == front[..k] + [skip] + front[k..];
    }
  }

  lemma {:induction false} WithoutPrefix(s: seq<nat>, skip: nat, i: nat)
    requires i <= |s|
    ensures WithoutNode(s[..i], skip) <= WithoutNode(s, skip)
    ensures i < |s| && s[i] != skip ==>
      |WithoutNode(s[..i], skip)| < |WithoutNode(s, skip)| && WithoutNode(s, skip)[|WithoutNode(s[..i], skip)|] == s[i]
    ensures i < |s| ==> WithoutNode(s[..i + 1], skip) == WithoutNode(s[..i], skip) + if s[i] == skip then [] else [s[i]]
    decreases |s| - i
  {
    if i < |s| {
      WithoutPrefix(s, skip, i + 1);
      assert s[..i + 1][..i] == s[..i];
    } else {
      assert s[..i] == s;
    }
  }

  /** The records of the store s are still there, except that the node skip may stand among their children. */
  ghost predicate SourceKept(m: map<nat, Record>, s: map<nat, Record>, skip: nat) {
    forall x :: x in s ==>
      x in m && m[x].(children := []) == s[x].(children := []) && WithoutNode(m[x].children, skip) == s[x].children
  }

  class Store {
    var nodes: map<nat, Record>
    var next: nat

    constructor ()
      ensures Valid() && nodes == map[]
    {
      nodes, next := map[], 0;
    }

    ghost predicate Valid()
      reads this
    {
      forall x :: x in nodes ==> x < next && forall i :: 0 <= i < |nodes[x].children| ==> nodes[x].children[i] < next
    }

    /** A new node before position k of the children. */
    method InsertChild(parent: nat, k: nat, kind: Kind) returns (n: nat)
      requires Valid() && parent in nodes && k <= |nodes[parent].children|
      modifies this
      ensures Valid() && n == old(next) && next == old(next) + 1 && n !in old(nodes)
      ensures var p := old(nodes)[parent];
        nodes == old(nodes)[parent := p.(children := p.children[..k] + [n] + p.children[k..])]
                           [n := Record(kind, if kind == Declaration then XML else "", "", [], [])]
    {
      n := next;
      next := next + 1;
      var p := nodes[parent];
      nodes := nodes[parent := p.(children := p.children[..k] + [n] + p.children[k..])];
      nodes := nodes[n := Record(kind, if kind == Declaration then XML else "", "", [], [])];
    }

    /** The name, the value and the attributes of a node are set. */
    method Fill(dest: nat, name: string, value: string, attrs: seq<(string, string)>)
      requires Valid() && dest in nodes
      modifies this`nodes
      ensures Valid() && nodes == old(nodes)[dest := old(nodes)[dest].(name := name, value := value, attrs := attrs)]
    {
      nodes := nodes[dest := nodes[dest].(name := name, value := value, attrs := attrs)];
    }

    /** recursive_copy_skip: dest becomes a copy of source as it was in s, although skip may stand inside source. */
    method CopySkip(dest: nat, source: nat, skip: nat, ghost s: map<nat, Record>, ghost t: Content)
      requires Valid() && dest in nodes && dest !in s && Shows(s, source, t) && SourceKept(nodes, s, skip)
      requires WellNested(t) && t.kind != Document && nodes[dest].kind == t.kind
      requires nodes[dest] == Record(t.kind, nodes[dest].name, "", [], [])
      modifies this
      ensures Valid() && next >= old(next) && SourceKept(nodes, s, skip)
      ensures forall x :: x in old(nodes) ==> x in nodes && (x != dest ==> nodes[x] == old(nodes)[x])
      ensures Copied(nodes, dest, Plain(t), old(next), next)
      decreases t, 1
    {
      hide SizeAll, Numbered, Shows, Copied, WellNested, SourceKept, Plain, Store.Valid;
      SourceRoot(s, source, skip, t);
      ghost var before := nodes;
      if nodes[source].kind == Element {
        Fill(dest, nodes[source].name, "", nodes[source].attrs);
        OthersKept(before, nodes, dest, s, skip);
        InRange(dest);
        CopyChildren(dest, source, skip, s, t);
      } else {
        CopyLeaf(dest, source, t);
        OthersKept(before, nodes, dest, s, skip);
        LeafCopied(nodes, dest, t, next);
      }
    }

    lemma InRange(x: nat)
      requires Valid() && x in nodes
      ensures x < next
    {
    }

    lemma OthersKept(m: map<nat, Record>, m': map<nat, Record>, dest: nat, s: map<nat, Record>, skip: nat)
      requires SourceKept(m, s, skip) && dest !in s && forall x :: x in m && x != dest ==> x in m' && m'[x] == m[x]
      ensures SourceKept(m', s, skip)
    {
      hide WithoutNode;
    }

    /** Of a node without children the copy takes over what its kind has. */
    method CopyLeaf(dest: nat, source: nat, ghost t: Content)
      requires Valid() && dest in nodes && source in nodes && t.kind != Element && t.kind != Document
      requires var r := nodes[source]; r.kind == t.kind && r.name == t.name && r.value == t.value && r.attrs == t.attrs
      modifies this`nodes
      ensures var u := Plain(t);
        Valid() && nodes == old(nodes)[dest := old(nodes)[dest].(name := u.name, value := u.value, attrs := u.attrs)]
    {
      match nodes[source].kind {
        case Element =>
        case Pi => Fill(dest, nodes[source].name, nodes[source].value, []);
        case Declaration => Fill(dest, nodes[source].name, "", nodes[source].attrs);
        case Document =>
        case Pcdata => Fill(dest, "", nodes[source].value, []);
        case Cdata => Fill(dest, "", nodes[source].value, []);
        case Comment => Fill(dest, "", nodes[source].value, []);
        case Doctype => Fill(dest, "", nodes[source].value, []);
      }
    }

    lemma SourceRoot(s: map<nat, Record>, source: nat, skip: nat, t: Content)
      requires Shows(s, source, t) && SourceKept(nodes, s, skip)
      ensures source in s && source in nodes
      ensures var r := nodes[source]; r.kind == t.kind && r.name == t.name && r.value == t.value && r.attrs == t.attrs
    {
      hide WithoutNode;
      assert nodes[source].(children := []) == s[source].(children := []);
    }

    /** The loop over the children of an element: the new node is passed over, every other child is copied. */
    method CopyChildren(dest: nat, source: nat, skip: nat, ghost s: map<nat, Record>, ghost t: Content)
      requires Valid() && dest in nodes && dest !in s && Shows(s, source, t) && SourceKept(nodes, s, skip)
      requires WellNested(t) && t.kind == Element && nodes[dest] == Record(Element, t.name, "", t.attrs, []) &&
          dest < next
      modifies this
      ensures Valid() && next >= old(next) && SourceKept(nodes, s, skip)
      ensures forall x :: x in old(nodes) ==> x in nodes && (x != dest ==> nodes[x] == old(nodes)[x])
      ensures Copied(nodes, dest, Plain(t), old(next), next)
      decreases t, 0
    {
      hide Numbered, SizeAll, SourceKept, WithoutNode, Plain, WellNested, Shows, CopiedFront, Store.Valid;
      ghost var lo, d := next, 0;
      ghost var before := nodes;
      ghost var kids := SourceChildren(s, source, skip, t);
      FrontBegins(nodes, dest, t, lo);
      var i := 0;
      while i < |nodes[source].children|
        invariant Valid() && lo <= next && SourceKept(nodes, s, skip) && dest in nodes && source in nodes
        invariant nodes[source].children == kids && i <= |kids| && d == |WithoutNode(kids[..i], skip)|
        invariant forall x :: x in before ==> x in nodes && (x != dest ==> nodes[x] == before[x])
        invariant CopiedFront(nodes, dest, t, lo, next, d)
        decreases |kids| - i
      {
        var c := nodes[source].children[i];
        WithoutPrefix(kids, skip, i);
        if c != skip {
          ChildShown(s, source, t, d);
          CopyOne(dest, c, skip, s, t, lo, d);
          d := d + 1;
        }
        i := i + 1;
      }
      assert kids[..i] == kids;
      FrontEnds(nodes, dest, t, lo, next);
    }

    /** The children of the source as they are now: those it had, and perhaps the new node. */
    ghost method SourceChildren(s: map<nat, Record>, source: nat, skip: nat, t: Content) returns (kids: seq<nat>)
      requires Shows(s, source, t) && SourceKept(nodes, s, skip)
      ensures source in nodes && source in s && kids == nodes[source].children &&
          WithoutNode(kids, skip) == s[source].children
      ensures |s[source].children| == |t.children| && WithoutNode([], skip) == []
    {
      kids := nodes[source].children;
    }

    /** One child: a node of its kind is appended and filled. */
    method CopyOne(dest: nat, c: nat, skip: nat, ghost s: map<nat, Record>, ghost t: Content, ghost lo: nat,
        ghost d: nat)
      requires Valid() && dest in nodes && dest !in s && dest < lo <= next && SourceKept(nodes, s, skip)
      requires WellNested(t) && t.kind == Element && d < |t.children| && Shows(s, c, t.children[d])
      requires CopiedFront(nodes, dest, t, lo, next, d)
      modifies this
      ensures Valid() && next >= old(next) && SourceKept(nodes, s, skip)
      ensures forall x :: x in old(nodes) ==> x in nodes && (x != dest ==> nodes[x] == old(nodes)[x])
      ensures CopiedFront(nodes, dest, t, lo, next, d + 1)
      decreases t.children[d], 2
    {
      hide Numbered, SizeAll, WithoutNode, Plain, Copied;
      ghost var m0, next0 := nodes, next;
      var cc := InsertChild(dest, |nodes[dest].children|, nodes[c].kind);
      ghost var m1 := nodes;
      CopySkip(cc, c, skip, s, t.children[d]);
      FrontGrows(m0, m1, nodes, dest, cc, t, lo, next0, next, d);
    }

    // ---------- Copies of a node ----------

    /** The new node is filled; nothing that was there before changes, and all below the node is new. */
    method FillCopy(n: nat, proto: nat, ghost s: map<nat, Record>, ghost t: Content)
      requires Valid() && n in nodes && n !in s && next == n + 1 &&
        nodes[n] == Record(t.kind, nodes[n].name, "", [], [])
      requires Shows(s, proto, t) && SourceKept(nodes, s, n) && WellNested(t) && t.kind != Document
      modifies this
      ensures Valid() && Numbered(nodes, n, Plain(t)) && next == n + Size(Plain(t))
      ensures forall x :: x in old(nodes) ==> x in nodes && (x != n ==> nodes[x] == old(nodes)[x])
    {
      hide SourceKept, Plain, WellNested, SizeAll;
      CopySkip(n, proto, n, s, t);
      CopiedIsShown(nodes, n, Plain(t), n + 1, next);
    }

    /** A copy becomes a child of parent before position k; parent may be proto or lie anywhere below it. */
    method InsertCopy(parent: nat, k: nat, proto: nat, ghost t: Content) returns (result: Option<nat>)
      requires Valid() && parent in nodes && k <= |nodes[parent].children| && Shows(nodes, proto, t) && WellNested(t)
      modifies this
      ensures Valid() && next >= old(next)
      ensures result.None? <==> !AllowInsertChild(old(nodes)[parent].kind, t.kind)
      ensures result.None? ==> nodes == old(nodes)
      ensures result.Some? ==>
        result.value == old(next) && Numbered(nodes, old(next), Plain(t)) && next == old(next) + Size(Plain(t)) &&
        parent in nodes &&
        (var kids := old(nodes)[parent].children;
         nodes[parent] == old(nodes)[parent].(children := kids[..k] + [result.value] + kids[k..])) &&
        forall x :: x in old(nodes) && x != parent ==> x in nodes && nodes[x] == old(nodes)[x]
    {
      hide Plain, WellNested;
      if !AllowInsertChild(nodes[parent].kind, nodes[proto].kind) {
        return None;
      }
      ghost var s := nodes;
      var n := InsertChild(parent, k, nodes[proto].kind);
      InsertedKept(s, nodes, parent, k, n);
      FillCopy(n, proto, s, t);
      result := Some(n);
    }

    method AppendCopy(parent: nat, proto: nat, ghost t: Content) returns (result: Option<nat>)
      requires Valid() && parent in nodes && Shows(nodes, proto, t) && WellNested(t)
      modifies this
      ensures Valid() && (result.None? ==> nodes == old(nodes))
      ensures result.None? <==> !AllowInsertChild(old(nodes)[parent].kind, t.kind)
      ensures result.Some? ==>
        result.value == old(next) && Numbered(nodes, old(next), Plain(t)) && next == old(next) + Size(Plain(t)) &&
        parent in nodes &&
        nodes[parent] == old(nodes)[parent].(children := old(nodes)[parent].children + [result.value]) &&
        forall x :: x in old(nodes) && x != parent ==> x in nodes && nodes[x] == old(nodes)[x]
    {
      hide Plain, WellNested;
      result := InsertCopy(parent, |nodes[parent].children|, proto, t);
    }

    method PrependCopy(parent: nat, proto: nat, ghost t: Content) returns (result: Option<nat>)
      requires Valid() && parent in nodes && Shows(nodes, proto, t) && WellNested(t)
      modifies this
      ensures Valid() && (result.None? ==> nodes == old(nodes))
      ensures result.None? <==> !AllowInsertChild(old(nodes)[parent].kind, t.kind)
      ensures result.Some? ==>
        result.value == old(next) && Numbered(nodes, old(next), Plain(t)) && next == old(next) + Size(Plain(t)) &&
        parent in nodes &&
        nodes[parent] == old(nodes)[parent].(children := [result.value] + old(nodes)[parent].children) &&
        forall x :: x in old(nodes) && x != parent ==> x in nodes && nodes[x] == old(nodes)[x]
    {
      hide Plain, WellNested;
      result := InsertCopy(parent, 0, proto, t);
    }

    /** The copy goes next to an existing child, before or after it; a node that is no child is refused. */
    method InsertCopyBeside(parent: nat, proto: nat, node: nat, after: bool,
        ghost t: Content) returns (result: Option<nat>, k: nat)
      requires Valid() && parent in nodes && Shows(nodes, proto, t) && WellNested(t)
      modifies this
      ensures Valid() && (result.None? ==> nodes == old(nodes))
      ensures result.None? <==>
        !AllowInsertChild(old(nodes)[parent].kind, t.kind) || node !in old(nodes)[parent].children
      ensures result.Some? ==>
        k < |old(nodes)[parent].children| && old(nodes)[parent].children[k] == node &&
        result.value == old(next) && Numbered(nodes, old(next), Plain(t)) && next == old(next) + Size(Plain(t)) &&
        parent in nodes &&
        (var at := if after then k + 1 else k;
         var kids := old(nodes)[parent].children;
         nodes[parent] == old(nodes)[parent].(children := kids[..at] + [result.value] + kids[at..])) &&
        forall x :: x in old(nodes) && x != parent ==> x in nodes && nodes[x] == old(nodes)[x]
    {
      hide Plain, WellNested;
      k := 0;
      var kids := nodes[parent].children;
      while k < |kids| && kids[k] != node
        invariant k <= |kids| && forall j :: 0 <= j < k ==> kids[j] != node
      {
        k := k + 1;
      }
      if k == |kids| {
        return None, k;
      }
      result := InsertCopy(parent, if after then k + 1 else k, proto, t);
    }
  }

  lemma CopiedIsShown(m: map<nat, Record>, x: nat, t: Content, lo: nat, hi: nat)
    requires Copied(m, x, t, lo, hi) && lo == x + 1
    ensures Numbered(m, x, t) && hi == x + Size(t)
  {
  }

  /** A new node among the children of one record leaves every record of the old store recognisable. */
  lemma InsertedKept(s: map<nat, Record>, m: map<nat, Record>, parent: nat, k: nat, n: nat)
    requires parent in s && k <= |s[parent].children| && n !in s && parent in m
    requires forall x :: x in s ==> n !in s[x].children
    requires m[parent] == s[parent].(children := s[parent].children[..k] + [n] + s[parent].children[k..])
    requires forall x :: x in s && x != parent ==> x in m && m[x] == s[x]
    ensures SourceKept(m, s, n)
  {
    forall x | x in s
      ensures x in m && m[x].(children := []) == s[x].(children := []) && WithoutNode(m[x].children, n) == s[x].children
    {
      if x == parent {
        WithoutInserted(s[x].children, k, n);
      } else {
        WithoutAbsent(s[x].children, n);
      }
    }
  }

  lemma ChildShown(s: map<nat, Record>, source: nat, t: Content, d: nat)
    requires Shows(s, source, t) && d < |t.children|
    ensures Shows(s, s[source].children[d], t.children[d])
  {
  }

  lemma LeafCopied(m: map<nat, Record>, dest: nat, t: Content, lo: nat)
    requires t.kind != Element && dest in m && m[dest].children == []
    requires var u := Plain(t);
      m[dest].kind == t.kind && m[dest].name == u.name && m[dest].value == u.value && m[dest].attrs == u.attrs
    ensures Copied(m, dest, Plain(t), lo, lo)
  {
  }

  lemma FrontBegins(m: map<nat, Record>, dest: nat, t: Content, lo: nat)
    requires dest in m && m[dest] == Record(Element, t.name, "", t.attrs, []) && t.kind == Element
    ensures CopiedFront(m, dest, t, lo, lo, 0)
  {
    assert Plain(t).children[..0] == [];
  }

  lemma FrontEnds(m: map<nat, Record>, dest: nat, t: Content, lo: nat, hi: nat)
    requires t.kind == Element && CopiedFront(m, dest, t, lo, hi, |t.children|)
    ensures Copied(m, dest, Plain(t), lo, hi)
  {
    hide SizeAll, Numbered;
    var u := Plain(t);
    assert u.children[..|t.children|] == u.children;
  }

  /** One more child behind those already copied. */
  lemma FrontGrows(m0: map<nat, Record>, m1: map<nat, Record>, m2: map<nat, Record>, dest: nat, cc: nat, t: Content,
      lo: nat, hi: nat, hi': nat, d: nat)
    requires t.kind == Element && CopiedFront(m0, dest, t, lo, hi, d) && d < |t.children| && dest < lo && cc == hi < hi'
    requires dest in m1 && m1[dest] == m0[dest].(children := m0[dest].children + [cc]) &&
      forall x :: x in m0 && x != dest ==> x in m1 && m1[x] == m0[x]
    requires forall x :: x in m1 ==> x in m2 && (x != cc ==> m2[x] == m1[x])
    requires Copied(m2, cc, Plain(t.children[d]), hi + 1, hi')
    ensures CopiedFront(m2, dest, t, lo, hi', d + 1)
  {
    hide Plain, SizeAll, Numbered, Copied;
    var us := PlainChildren(t);
    CopiedIsShown(m2, cc, us[d], hi + 1, hi');
    SizePrefix(us, d);
    var kids := m2[dest].children;
    forall i | 0 <= i < d
      ensures Numbered(m2, kids[i], us[i])
    {
      SizePrefix(us, i);
      SizeMonotone(us, i + 1, d);
      NumberedKept(m0, m2, kids[i], us[i]);
    }
  }

  lemma {:induction false} SizeMonotone(ts: seq<Content>, i: nat, j: nat)
    requires i <= j <= |ts|
    ensures SizeAll(ts[..i]) <= SizeAll(ts[..j])
    decreases j
  {
    hide SizeAll;
    if i < j {
      SizeMonotone(ts, i, j - 1);
      SizePrefix(ts, j - 1);
    }
  }

  function PlainChildren(t: Content): (us: seq<Content>)
    requires t.kind == Element
    ensures us == Plain(t).children && |us| == |t.children| &&
      forall i :: 0 <= i < |us| ==> us[i] == Plain(t.children[i])
  {
    Plain(t).children
  }

  /** The first d children are copied, under the numbers from lo up to hi. */
  ghost predicate CopiedFront(m: map<nat, Record>, dest: nat, t: Content, lo: nat, hi: nat, d: nat)
    requires t.kind == Element
  {
    var us := PlainChildren(t);
    dest in m && m[dest] == Record(Element, t.name, "", t.attrs, m[dest].children) && |m[dest].children| == d <= |us| &&
    hi == lo + SizeAll(us[..d]) &&
    forall i :: 0 <= i < d ==> m[dest].children[i] == lo + SizeAll(us[..i]) && Numbered(m, m[dest].children[i], us[i])
  }

  /** dest is the root of this content and what is below it is numbered from lo up to hi. */
  predicate Copied(m: map<nat, Record>, dest: nat, t: Content, lo: nat, hi: nat) {
    dest in m && m[dest].kind == t.kind && m[dest].name == t.name && m[dest].value == t.value &&
    m[dest].attrs == t.attrs &&
    |m[dest].children| == |t.children| && hi == lo + SizeAll(t.children) &&
    forall i :: 0 <= i < |t.children| ==>
      m[dest].children[i] == lo + SizeAll(t.children[..i]) && Numbered(m, m[dest].children[i], t.children[i])
  }
}
