/** What reading a request does with messages that no sender of this system wrote. */
module MessageLaws {
  import opened Chars
  import opened Dom
  import opened Parser
  import opened Decimal
  import opened Message
  import opened MessageParse

  // ---------- Entries and lines ----------

  predicate LastNamed(ns: seq<Node>, i: nat, name: text) {
    i < |ns| && NameOf(ns[i]) == name && forall j :: i < j < |ns| ==> NameOf(ns[j]) != name
  }

  /** Only the names of children have entries. */
  lemma {:induction false} EntriesAre(ns: seq<Node>, name: text)
    ensures name in Entries(ns) <==> exists i :: 0 <= i < |ns| && NameOf(ns[i]) == name
    decreases |ns|
  {
    hide NameOf, ChildValue, Entries;
    EntriesLast(ns);
    if ns != [] {
      var n := |ns| - 1;
      var front := ns[..n];
      EntriesAre(front, name);
      assert forall i :: 0 <= i < n ==> front[i] == ns[i];
    }
  }

  /** The last child of a name decides its entry. */
  lemma {:induction false} EntryOfLast(ns: seq<Node>, i: nat, name: text)
    requires LastNamed(ns, i, name)
    ensures name in Entries(ns) && Entries(ns)[name] == ChildValue(ns[i])
    decreases |ns|
  {
    hide NameOf, ChildValue, Entries;
    EntriesLast(ns);
    var n := |ns| - 1;
    if i < n {
      var front := ns[..n];
      assert forall j :: 0 <= j < n ==> front[j] == ns[j];
      EntryOfLast(front, i, name);
    }
  }

  lemma EntriesLast(ns: seq<Node>)
    ensures ns == [] ==> Entries(ns) == map[]
    ensures ns != [] ==>
      var n := |ns| - 1;
      Entries(ns) == Entries(ns[..n])[NameOf(ns[n]) := ChildValue(ns[n])]
  {
    hide NameOf, ChildValue;
  }

  /** Children of other names are no lines, wherever they stand. */
  lemma {:induction false} LinesOnly(x: seq<Node>, y: seq<Node>)
    ensures LineTexts(x + y) == LineTexts(x) + LineTexts(y)
    decreases |y|
  {
    hide ChildValue, LineTexts;
    LineLast(y);
    LineLast(x + y);
    if y == [] {
      assert x + y == x;
    } else {
      LinesOnly(x, y[..|y| - 1]);
      assert (x + y)[..|x + y| - 1] == x + y[..|y| - 1];
    }
  }

  lemma LineLast(ns: seq<Node>)
    ensures ns == [] ==> LineTexts(ns) == []
    ensures ns != [] ==>
      var last := ns[|ns| - 1];
      LineTexts(ns) == LineTexts(ns[..|ns| - 1]) + if last.Element? && last.name == LINE then [ChildValue(last)] else []
  {
    hide ChildValue;
  }

  /** A single child is a line exactly when it is an element of that name; its first text is the line. */
  lemma LineOfOne(n: Node)
    ensures LineTexts([n]) == if n.Element? && n.name == LINE then [ChildValue(n)] else []
  {
    hide ChildValue;
    assert [n][..0] == [] && LineTexts([]) == [];
  }

  lemma {:induction false} FirstTextIs(ns: seq<Node>, i: nat)
    requires i <= |ns| && forall j :: 0 <= j < i ==> ns[j].Element?
    ensures i == |ns| ==> FirstText(ns) == []
    ensures i < |ns| && !ns[i].Element? ==> FirstText(ns) == ns[i].value
    decreases i
  {
    if i > 0 {
      FirstTextIs(ns[1..], i - 1);
    }
  }

  // ---------- Messages that are not understood ----------

  predicate HasChild(ns: seq<Node>, name: text) {
    exists i :: 0 <= i < |ns| && ns[i].Element? && ns[i].name == name
  }

  lemma FoundChild(ns: seq<Node>, name: text)
    ensures FindChild(ns, name).Some? <==> HasChild(ns, name)
  {
    var j := NextNamed(ns, 0, name);
    if j < |ns| {
      assert ns[j].Element? && ns[j].name == name;
    }
  }

  /** A text is no request exactly when it does not parse, or has no request element with type, sender and port. */
  lemma NoRequest(xml: text)
    ensures ParseRequest(xml).None? <==>
      match ParseBuffer(xml)
      case Error(_, _) => true
      case Parsed(nodes) =>
        !HasChild(nodes, REQUEST) ||
        var ns := FindChild(nodes, REQUEST).value.children;
        !HasChild(ns, TYPE) || !HasChild(ns, FROM_PEER) || !HasChild(ns, LISTEN_PORT)
  {
    hide ParseBuffer, FindChild, HasChild, Entries, LineTexts, Members, ChildValue, TaskIdOf;
    var r := ParseBuffer(xml);
    if r.Parsed? {
      FoundChild(r.nodes, REQUEST);
      if FindChild(r.nodes, REQUEST).Some? {
        var ns := FindChild(r.nodes, REQUEST).value.children;
        FoundChild(ns, TYPE);
        FoundChild(ns, FROM_PEER);
        FoundChild(ns, LISTEN_PORT);
      }
    }
  }

  // ---------- Numbers ----------

  predicate AllCSpace(s: seq<byte>) {
    forall i :: 0 <= i < |s| ==> IsCSpace(s[i])
  }

  /** White space and a sign in front and anything but a figure behind make no difference to atoi. */
  lemma {:induction false} AtoiReads(space: seq<byte>, sign: seq<byte>, n: nat, rest: seq<byte>)
    requires AllCSpace(space) && (sign == [] || sign == [DASH] || sign == [43]) && (rest != [] ==> !IsDecimal(rest[0]))
    ensures Atoi(space + (sign + (Digits(n) + rest))) == if sign == [DASH] then 0 - n as int else n as int
    decreases |space|
  {
    hide Digits, ReadDigits;
    var figures := Digits(n) + rest;
    DigitsRead(n, rest);
    assert IsDecimal(figures[0]) && !IsCSpace(figures[0]);
    var all := space + (sign + figures);
    if space != [] {
      AtoiReads(space[1..], sign, n, rest);
      assert all[1..] == space[1..] + (sign + figures) && all[0] == space[0];
    } else {
      assert all == sign + figures;
      if sign != [] {
        assert all[0] == sign[0] && all[1..] == figures;
      } else {
        assert all == figures;
      }
    }
  }

  lemma DigitsRead(n: nat, rest: seq<byte>)
    requires rest != [] ==> !IsDecimal(rest[0])
    ensures ReadDigits(Digits(n) + rest, 0) == n && IsDecimal((Digits(n) + rest)[0])
  {
    hide ReadDigits;
    ReadWritten(n);
    StopsThere(Digits(n), rest, 0);
  }

  lemma {:induction false} StopsThere(x: seq<byte>, rest: seq<byte>, value: nat)
    requires (forall i :: 0 <= i < |x| ==> IsDecimal(x[i])) && (rest != [] ==> !IsDecimal(rest[0]))
    ensures ReadDigits(x + rest, value) == ReadDigits(x, value)
    decreases |x|
  {
    if x == [] {
      assert x + rest == rest;
    } else {
      StopsThere(x[1..], rest, 10 * value + (x[0] - ZERO));
      assert (x + rest)[1..] == x[1..] + rest;
    }
  }
}
