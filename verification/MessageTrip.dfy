/** A request sent and read back: what survives, and when all of it does. */
module MessageTrip {
  import opened Common
  import opened Chars
  import opened Refs
  import opened Dom
  import opened Parser
  import opened Printer
  import opened Escaping
  import opened Canon
  import opened Layout
  import opened RoundTrip
  import opened Decimal
  import opened Message
  import opened MessageParse

  /** What arrives of a value: all of it up to a zero, line ends normalised, nothing of white space alone. */
  function Heard(v: text): text {
    if AllSpace(CStr(v)) then [] else Convert(CStr(v), Eol, false)
  }

  function HeardMap(m: MessageMap): (r: MessageMap)
    ensures r.Keys == m.Keys && forall k :: k in m ==> r[k] == Heard(m[k])
  {
    map k | k in m :: Heard(m[k])
  }

  function HeardAll(lines: seq<text>): (r: seq<text>)
    ensures |r| == |lines| && forall i :: 0 <= i < |lines| ==> r[i] == Heard(lines[i])
  {
    seq(|lines|, i requires 0 <= i < |lines| => Heard(lines[i]))
  }

  /** Values that survive. */
  predicate Sound(v: text) {
    NUL !in v && CR !in v && (v == [] || !AllSpace(v))
  }

  lemma HeardSound(v: text)
    ensures Heard(v) == v <==> Sound(v)
  {
    hide AllSpace, Convert, CStr;
    var c := CStr(v);
    EolIdentity(c);
    NothingIsSpace();
    if NUL !in v {
      CStrId(v);
      EolIdentity(v);
    } else {
      assert c != v;
      assert |c| < |v|;
    }
  }

  lemma NothingIsSpace()
    ensures AllSpace([])
  {
  }

  // ---------- The tree that arrives ----------
  /** The tree is read back as it is, whether indented or not. */
  predicate Readable(n: Node) {
    Named(n) && TextAlone(n)
  }

  /** A field after printing and parsing. */
  function Received(name: text, value: text): Node {
    Element(name, [], Leaf(CStr(value)))
  }

  lemma FieldReceived(name: text, value: text)
    requires IsName(name)
    ensures CanonNode(Field(name, value)) == Received(name, value)
    ensures Readable(Field(name, value))
    ensures ChildValue(Received(name, value)) == Heard(value)
  {
    var c := CStr(value);
    CStrId(name) by { assert forall i :: 0 <= i < |name| ==> IsSymbol(name[i]); }
    CStrId(c);
    var inner := [Pcdata(c)];
    assert inner[1..] == [] && [] + c == c;
    assert CanonNodes([], inner) == CanonNodes([] + CStr(c), inner[1..]) == Leaf(c);
    assert CanonAttrs([]) == [];
  }

  /** Elements stay separate. */
  lemma {:induction false} ElementsCanon(ns: seq<Node>)
    requires forall i :: 0 <= i < |ns| ==> ns[i].Element?
    ensures |CanonNodes([], ns)| == |ns| && forall i :: 0 <= i < |ns| ==> CanonNodes([], ns)[i] == CanonNode(ns[i])
  {
    hide CanonNode;
    NothingIsSpace();
    if ns != [] {
      ElementsCanon(ns[1..]);
      assert CanonNodes([], ns) == Leaf([]) + [CanonNode(ns[0])] + CanonNodes([], ns[1..]);
    }
  }

  /** The fields of a map or a list as they arrive. */
  function ReceivedFields(names: seq<text>, values: seq<text>): (r: seq<Node>)
    requires |names| == |values|
    ensures |r| == |names| && forall i :: 0 <= i < |r| ==> r[i] == Received(names[i], values[i])
  {
    seq(|names|, i requires 0 <= i < |names| => Received(names[i], values[i]))
  }

  ghost predicate AreFields(ns: seq<Node>, names: seq<text>, values: seq<text>) {
    |ns| == |names| == |values| && forall i :: 0 <= i < |ns| ==> IsName(names[i]) && ns[i] == Field(names[i], values[i])
  }

  /** What the receiver finds under a name: the group when it was written. */
  ghost predicate GroupReads(ns: seq<Node>, group: text, names: seq<text>, values: seq<text>) {
    |names| == |values| && ns == if names == [] then [] else [Element(group, [], ReceivedFields(names, values))]
  }

  lemma FieldsReceived(ns: seq<Node>, names: seq<text>, values: seq<text>)
    requires AreFields(ns, names, values)
    ensures CanonNodes([], ns) == ReceivedFields(names, values)
    ensures forall i :: 0 <= i < |ns| ==> ns[i].Element? && Readable(ns[i])
  {
    hide Field, IsName, CanonNode, Readable, Received;
    forall i | 0 <= i < |ns|
      ensures ns[i].Element? && Readable(ns[i]) && CanonNode(ns[i]) == Received(names[i], values[i])
    {
      FieldReceived(names[i], values[i]);
      FieldIsElement(names[i], values[i]);
    }
    ElementsCanon(ns);
  }

  lemma FieldIsElement(name: text, value: text)
    ensures Field(name, value).Element?
  {
  }

  lemma GroupReceived(group: text, ns: seq<Node>, names: seq<text>, values: seq<text>)
    requires IsName(group) && AreFields(ns, names, values)
    ensures forall i :: 0 <= i < |Group(group, ns)| ==> Group(group, ns)[i].Element? && Readable(Group(group, ns)[i])
    ensures GroupReads(CanonNodes([], Group(group, ns)), group, names, values)
  {
    hide IsName, ReceivedFields, Received, Field;
    if ns != [] {
      FieldsReceived(ns, names, values);
      var e := Element(group, [], ns);
      assert CanonAttrs([]) == [];
      ElementsCanon([e]);
      assert !SingleText(ns) && NoPcdata(ns);
      assert Readable(e);
      assert CanonNodes([], [e]) == [CanonNode(e)];
    } else {
      NothingIsSpace();
    }
  }

  // ---------- Finding things ----------

  lemma {:induction false} NextNamedConcat(x: seq<Node>, y: seq<Node>, i: nat, name: text)
    requires i <= |x|
    ensures NextNamed(x + y, i, name) ==
      if NextNamed(x, i, name) < |x| then NextNamed(x, i, name) else |x| + NextNamed(y, 0, name)
  {
    var j := NextNamed(x + y, i, name);
    assert forall k :: 0 <= k < |x| ==> (x + y)[k] == x[k];
    assert forall k :: 0 <= k < |y| ==> (x + y)[|x| + k] == y[k];
    if NextNamed(x, i, name) < |x| {
      assert j == NextNamed(x, i, name);
    } else {
      assert j >= |x|;
      var k := NextNamed(y, 0, name);
      assert j <= |x| + k;
      assert forall l :: |x| <= l < |x| + k ==> (x + y)[l] == y[l - |x|];
    }
  }

  lemma FindConcat(x: seq<Node>, y: seq<Node>, name: text)
    ensures FindChild(x + y, name) == if FindChild(x, name).Some? then FindChild(x, name) else FindChild(y, name)
  {
    hide NextNamed;
    NextNamedConcat(x, y, 0, name);
  }

  lemma FindInGroup(ns: seq<Node>, group: text, names: seq<text>, values: seq<text>, name: text)
    requires GroupReads(ns, group, names, values)
    ensures name != group ==> FindChild(ns, name).None?
    ensures name == group ==>
      Members(ns, name) == ReceivedFields(names, values) && (FindChild(ns, name).Some? <==> names != [])
  {
    hide ReceivedFields;
    var j := NextNamed(ns, 0, name);
  }

  /** The element names of a request are pairwise different. */
  lemma NamesDiffer()
    ensures TYPE != FROM_PEER && TYPE != LISTEN_PORT && FROM_PEER != LISTEN_PORT && TASK != RESULT &&
        TASK != HISTORY && TASK != STATE
    ensures RESULT != HISTORY && RESULT != STATE && HISTORY != STATE
    ensures TYPE !in [TASK, RESULT, HISTORY, STATE] && FROM_PEER !in [TASK, RESULT, HISTORY, STATE]
    ensures LISTEN_PORT !in [TASK, RESULT, HISTORY, STATE]
  {
    assert TYPE[1] != TASK[1];
    assert |TYPE| == |TASK| == 4 && |FROM_PEER| == 8 && |LISTEN_PORT| == 10 && |RESULT| == 6 && |HISTORY| == 7 &&
        |STATE| == 5;
  }

  /** A map written in any order is read back value by value. */
  lemma {:induction false} EntriesReceived(names: seq<text>, values: seq<text>)
    requires |names| == |values| && NoRepeats(names)
    ensures forall k :: k in Entries(ReceivedFields(names, values)) <==> k in names
    ensures forall i :: 0 <= i < |names| ==> Entries(ReceivedFields(names, values))[names[i]] == Heard(values[i])
  {
    hide Heard, ReceivedFields, Entries;
    var n := |names|;
    EntriesSnoc(names, values);
    var ns := ReceivedFields(names, values);
    if n > 0 {
      var names', values' := names[..n - 1], values[..n - 1];
      EntriesReceived(names', values');
      assert names == names' + [names[n - 1]];
      forall i | 0 <= i < n
        ensures Entries(ns)[names[i]] == Heard(values[i])
      {
        if i < n - 1 {
          assert names'[i] == names[i] && values'[i] == values[i];
        }
      }
    }
  }

  lemma EntriesSnoc(names: seq<text>, values: seq<text>)
    requires |names| == |values|
    ensures var n, e := |names|, Entries(ReceivedFields(names, values));
      e == if n == 0 then map[]
           else Entries(ReceivedFields(names[..n - 1], values[..n - 1]))[names[n - 1] := Heard(values[n - 1])]
  {
    hide Heard, ChildValue, Received;
    var ns, n := ReceivedFields(names, values), |names|;
    if n > 0 {
      assert ns[..n - 1] == ReceivedFields(names[..n - 1], values[..n - 1]);
      ReceivedReads(names[n - 1], values[n - 1]);
    }
  }

  lemma ReceivedReads(name: text, value: text)
    ensures NameOf(Received(name, value)) == name && ChildValue(Received(name, value)) == Heard(value)
    ensures Received(name, value).Element? && Received(name, value).name == name
  {
  }

  lemma {:induction false} LinesReceived(names: seq<text>, values: seq<text>)
    requires |names| == |values| && forall i :: 0 <= i < |names| ==> names[i] == LINE
    ensures LineTexts(ReceivedFields(names, values)) == HeardAll(values)
  {
    hide Heard, ChildValue, Received;
    var ns, n := ReceivedFields(names, values), |names|;
    if n > 0 {
      LinesReceived(names[..n - 1], values[..n - 1]);
      assert ns[..n - 1] == ReceivedFields(names[..n - 1], values[..n - 1]);
      ReceivedReads(names[n - 1], values[n - 1]);
      assert HeardAll(values) == HeardAll(values[..n - 1]) + [Heard(values[n - 1])];
    }
  }

  // ---------- The whole request ----------

  function MapValues(m: MessageMap, order: seq<text>): (r: seq<text>)
    requires forall i :: 0 <= i < |order| ==> order[i] in m
    ensures |r| == |order| && forall i :: 0 <= i < |r| ==> r[i] == m[order[i]]
  {
    seq(|order|, i requires 0 <= i < |order| => m[order[i]])
  }

  function LineNames(lines: seq<text>): (r: seq<text>)
    ensures |r| == |lines| && forall i :: 0 <= i < |r| ==> r[i] == LINE
  {
    seq(|lines|, _ => LINE)
  }

  ghost predicate NamedKeys(m: MessageMap) {
    forall k :: k in m ==> IsName(k)
  }

  lemma ElementsConcat(x: seq<Node>, y: seq<Node>)
    requires (forall i :: 0 <= i < |x| ==> x[i].Element?) && (forall i :: 0 <= i < |y| ==> y[i].Element?)
    ensures CanonNodes([], x + y) == CanonNodes([], x) + CanonNodes([], y)
  {
    hide CanonNode, CanonNodes;
    ElementsCanon(x);
    ElementsCanon(y);
    ElementsCanon(x + y);
    var l, r := CanonNodes([], x + y), CanonNodes([], x) + CanonNodes([], y);
    assert |l| == |r|;
    forall i | 0 <= i < |l|
      ensures l[i] == r[i]
    {
      if i < |x| {
        assert (x + y)[i] == x[i];
      } else {
        assert (x + y)[i] == y[i - |x|];
      }
    }
  }

  ghost predicate Good(ns: seq<Node>) {
    forall i :: 0 <= i < |ns| ==> ns[i].Element? && Readable(ns[i])
  }

  lemma GoodConcat(x: seq<Node>, y: seq<Node>)
    requires Good(x) && Good(y)
    ensures Good(x + y) && CanonNodes([], x + y) == CanonNodes([], x) + CanonNodes([], y)
  {
    ElementsConcat(x, y);
  }

  function HeaderValues(m: Request): (r: seq<text>)
    ensures |r| == 3
  {
    [ToText(m.reqType), ToText(m.fromPeerId), ToText(m.listenPort)]
  }

  /** The groups of the request element as the receiver has them. */
  ghost predicate GroupsRead(t: seq<Node>, r: seq<Node>, h: seq<Node>, s: seq<Node>, m: Request, stateMap: MessageMap,
                             taskOrder: seq<text>, historyOrder: seq<text>, stateOrder: seq<text>)
    requires Enumerates(taskOrder, m.taskMap) && Enumerates(historyOrder, m.sysHistory) &&
        Enumerates(stateOrder, stateMap)
  {
    GroupReads(t, TASK, taskOrder, MapValues(m.taskMap, taskOrder)) &&
        GroupReads(r, RESULT, LineNames(m.resultList), m.resultList) &&
    GroupReads(h, HISTORY, historyOrder, MapValues(m.sysHistory, historyOrder)) &&
    GroupReads(s, STATE, stateOrder, MapValues(stateMap, stateOrder))
  }

  lemma NamesAreNames()
    ensures IsName(REQUEST) && IsName(TYPE) && IsName(FROM_PEER) && IsName(LISTEN_PORT) && IsName(TASK) &&
        IsName(RESULT)
    ensures IsName(LINE) && IsName(HISTORY) && IsName(STATE)
  {
  }

  lemma MapAreFields(m: MessageMap, order: seq<text>)
    requires Enumerates(order, m) && NamedKeys(m)
    ensures AreFields(MapFields(m, order), order, MapValues(m, order))
  {
    hide IsName, Field, Enumerates;
  }

  lemma MapReceived(group: text, m: MessageMap, order: seq<text>) returns (ns: seq<Node>)
    requires IsName(group) && Enumerates(order, m) && NamedKeys(m)
    ensures Good(Group(group, MapFields(m, order))) && ns == CanonNodes([], Group(group, MapFields(m, order)))
    ensures GroupReads(ns, group, order, MapValues(m, order))
  {
    hide IsName, Field, GroupReads, Group, CanonNodes, Readable, AreFields, NamedKeys, Enumerates, MapFields,
        MapValues;
    MapAreFields(m, order);
    GroupReceived(group, MapFields(m, order), order, MapValues(m, order));
    ns := CanonNodes([], Group(group, MapFields(m, order)));
  }

  lemma LinesGroupReceived(lines: seq<text>) returns (ns: seq<Node>)
    ensures Good(Group(RESULT, LineFields(lines))) && ns == CanonNodes([], Group(RESULT, LineFields(lines)))
    ensures GroupReads(ns, RESULT, LineNames(lines), lines)
  {
    hide IsName, Field, GroupReads, Group, CanonNodes, Readable;
    NamesAreNames();
    GroupReceived(RESULT, LineFields(lines), LineNames(lines), lines);
    ns := CanonNodes([], Group(RESULT, LineFields(lines)));
  }

  lemma HeaderReceived(m: Request)
    ensures var h := Header(m.reqType, m.fromPeerId, m.listenPort);
      Good(h) && CanonNodes([], h) == ReceivedFields([TYPE, FROM_PEER, LISTEN_PORT], HeaderValues(m))
  {
    hide IsName, Field, CanonNodes, Readable, ToText;
    NamesAreNames();
    FieldsReceived(Header(m.reqType, m.fromPeerId, m.listenPort), [TYPE, FROM_PEER, LISTEN_PORT], HeaderValues(m));
  }

  lemma RequestReceived(m: Request, stateMap: MessageMap, taskOrder: seq<text>, historyOrder: seq<text>,
      stateOrder: seq<text>)
    returns (t: seq<Node>, r: seq<Node>, h: seq<Node>, s: seq<Node>)
    requires Enumerates(taskOrder, m.taskMap) && Enumerates(historyOrder, m.sysHistory) &&
        Enumerates(stateOrder, stateMap)
    requires NamedKeys(m.taskMap) && NamedKeys(m.sysHistory) && NamedKeys(stateMap)
    ensures GroupsRead(t, r, h, s, m, stateMap, taskOrder, historyOrder, stateOrder)
    ensures var n := RequestNode(m, stateMap, taskOrder, historyOrder, stateOrder);
      Readable(n) && CanonNode(n).name == REQUEST &&
      CanonNode(n).children == ReceivedFields([TYPE, FROM_PEER, LISTEN_PORT], HeaderValues(m)) + t + r + h + s
  {
    hide IsName, GroupReads, Group, CanonNodes, Header, HeaderValues, ReceivedFields, Enumerates, NamedKeys, Good;
    NamesAreNames();
    HeaderReceived(m);
    var h0 := Header(m.reqType, m.fromPeerId, m.listenPort);
    t := MapReceived(TASK, m.taskMap, taskOrder);
    r := LinesGroupReceived(m.resultList);
    h := MapReceived(HISTORY, m.sysHistory, historyOrder);
    s := MapReceived(STATE, stateMap, stateOrder);
    var t0, r0 := Group(TASK, MapFields(m.taskMap, taskOrder)), Group(RESULT, LineFields(m.resultList));
    var y0, s0 := Group(HISTORY, MapFields(m.sysHistory, historyOrder)), Group(STATE, MapFields(stateMap, stateOrder));
    GoodConcat(h0, t0);
    GoodConcat(h0 + t0, r0);
    GoodConcat(h0 + t0 + r0, y0);
    GoodConcat(h0 + t0 + r0 + y0, s0);
    RequestReadable(h0 + t0 + r0 + y0 + s0);
  }

  lemma RequestReadable(ns: seq<Node>)
    requires Good(ns)
    ensures Readable(Element(REQUEST, [], ns))
    ensures CanonNode(Element(REQUEST, [], ns)) == Element(REQUEST, [], CanonNodes([], ns))
  {
    NamesAreNames();
    hide IsName, CanonNodes;
    assert CanonAttrs([]) == [];
  }

  /** The request as it arrives. */
  function Recovered(m: Request): Request {
    Request(m.reqType, m.fromPeerId, m.listenPort, TaskIdOf(HeardMap(m.taskMap)), HeardMap(m.taskMap),
            HeardAll(m.resultList), m.resultList != [], HeardMap(m.sysHistory))
  }

  lemma HeaderRead(h: seq<Node>, rest: seq<Node>, m: Request)
    requires h == ReceivedFields([TYPE, FROM_PEER, LISTEN_PORT], HeaderValues(m))
    ensures FindChild(h + rest, TYPE) == Some(h[0]) && Atoi(ChildValue(h[0])) == m.reqType
    ensures FindChild(h + rest, FROM_PEER) == Some(h[1]) && Atoi(ChildValue(h[1])) == m.fromPeerId
    ensures FindChild(h + rest, LISTEN_PORT) == Some(h[2]) && Atoi(ChildValue(h[2])) == m.listenPort
  {
    hide Received, ChildValue, Heard, ToText, Atoi;
    NamesDiffer();
    var ns := h + rest;
    var names, values := [TYPE, FROM_PEER, LISTEN_PORT], HeaderValues(m);
    ReceivedReads(names[0], values[0]);
    ReceivedReads(names[1], values[1]);
    ReceivedReads(names[2], values[2]);
    NumberHeard(m.reqType);
    NumberHeard(m.fromPeerId);
    NumberHeard(m.listenPort);
    assert ns[0] == h[0] && ns[1] == h[1] && ns[2] == h[2];
  }

  lemma NumberHeard(n: int)
    ensures Atoi(Heard(ToText(n))) == n
  {
    hide Heard, Atoi;
    var v := ToText(n);
    assert !IsSpace(v[0]);
    assert forall i :: 0 <= i < |v| ==> v[i] != NUL && v[i] != CR;
    HeardSound(v);
    AtoiToText(n);
  }

  lemma FindMiddle(x: seq<Node>, g: seq<Node>, z: seq<Node>, name: text)
    requires FindChild(x, name).None? && FindChild(z, name).None?
    ensures FindChild(x + g + z, name) == FindChild(g, name) && Members(x + g + z, name) == Members(g, name)
  {
    hide FindChild;
    FindConcat(x, g, name);
    FindConcat(x + g, z, name);
  }

  lemma FindNone(x: seq<Node>, y: seq<Node>, name: text)
    requires FindChild(x, name).None? && FindChild(y, name).None?
    ensures FindChild(x + y, name).None?
  {
    hide FindChild;
    FindConcat(x, y, name);
  }

  lemma HeaderHasNoGroup(h: seq<Node>, m: Request, name: text)
    requires h == ReceivedFields([TYPE, FROM_PEER, LISTEN_PORT], HeaderValues(m)) && name in [TASK, RESULT, HISTORY]
    ensures FindChild(h, name).None?
  {
    hide Received, HeaderValues;
    NamesDiffer();
    var names, values := [TYPE, FROM_PEER, LISTEN_PORT], HeaderValues(m);
    ReceivedReads(names[0], values[0]);
    ReceivedReads(names[1], values[1]);
    ReceivedReads(names[2], values[2]);
    assert h[0].name == TYPE && h[1].name == FROM_PEER && h[2].name == LISTEN_PORT;
  }

  lemma MapRead(m: MessageMap, order: seq<text>)
    requires Enumerates(order, m)
    ensures Entries(ReceivedFields(order, MapValues(m, order))) == HeardMap(m)
  {
    hide Heard, Entries, ReceivedFields;
    EntriesReceived(order, MapValues(m, order));
    var e := Entries(ReceivedFields(order, MapValues(m, order)));
    forall k | k in m
      ensures k in e && e[k] == Heard(m[k])
    {
      var i :| 0 <= i < |order| && order[i] == k;
      assert e[order[i]] == Heard(MapValues(m, order)[i]);
    }
    assert forall k :: k in e <==> k in m;
  }

  lemma GroupsFound(h: seq<Node>, t: seq<Node>, r: seq<Node>, y: seq<Node>, s: seq<Node>, name: text)
    requires FindChild(h, name).None? && FindChild(s, name).None?
    requires name == TASK ==> FindChild(r, name).None? && FindChild(y, name).None?
    requires name == RESULT ==> FindChild(t, name).None? && FindChild(y, name).None?
    requires name == HISTORY ==> FindChild(t, name).None? && FindChild(r, name).None?
    ensures name == TASK ==> Members(h + t + r + y + s, name) == Members(t, name)
    ensures name == RESULT ==>
      FindChild(h + t + r + y + s, name) == FindChild(r, name) && Members(h + t + r + y + s, name) == Members(r, name)
    ensures name == HISTORY ==> Members(h + t + r + y + s, name) == Members(y, name)
  {
    hide FindChild, Members;
    if name == TASK {
      FindNone(r, y, name);
      FindNone(r + y, s, name);
      FindMiddle(h, t, r + y + s, name);
      assert h + t + (r + y + s) == h + t + r + y + s;
    } else if name == RESULT {
      FindNone(h, t, name);
      FindNone(y, s, name);
      FindMiddle(h + t, r, y + s, name);
      assert h + t + r + (y + s) == h + t + r + y + s;
    } else if name == HISTORY {
      FindNone(h, t, name);
      FindNone(h + t, r, name);
      FindMiddle(h + t + r, y, s, name);
    }
  }

  lemma UnderstoodRead(t: seq<Node>, r: seq<Node>, h: seq<Node>, s: seq<Node>, m: Request, stateMap: MessageMap,
                       taskOrder: seq<text>, historyOrder: seq<text>, stateOrder: seq<text>)
    requires Enumerates(taskOrder, m.taskMap) && Enumerates(historyOrder, m.sysHistory) &&
        Enumerates(stateOrder, stateMap)
    requires GroupsRead(t, r, h, s, m, stateMap, taskOrder, historyOrder, stateOrder)
    ensures Understood(ReceivedFields([TYPE, FROM_PEER, LISTEN_PORT], HeaderValues(m)) + t + r + h + s) ==
      Some(Recovered(m))
  {
    hide GroupReads, HeaderValues, ReceivedFields, Enumerates, FindChild, Members, Understood, Recovered;
    var header := ReceivedFields([TYPE, FROM_PEER, LISTEN_PORT], HeaderValues(m));
    TaskFound(header, t, r, h, s, m, taskOrder, historyOrder, MapValues(stateMap, stateOrder), stateOrder);
    var ns := header + t + r + h + s;
    assert ns == header + (t + r + h + s);
    GroupsUnderstood(ns, header, t + r + h + s, m, taskOrder, historyOrder);
  }

  lemma GroupsUnderstood(ns: seq<Node>, header: seq<Node>, groups: seq<Node>, m: Request, taskOrder: seq<text>,
      historyOrder: seq<text>)
    requires Enumerates(taskOrder, m.taskMap) && Enumerates(historyOrder, m.sysHistory)
    requires header == ReceivedFields([TYPE, FROM_PEER, LISTEN_PORT], HeaderValues(m)) && ns == header + groups
    requires Members(ns, TASK) == ReceivedFields(taskOrder, MapValues(m.taskMap, taskOrder))
    requires Members(ns, RESULT) == ReceivedFields(LineNames(m.resultList), m.resultList)
    requires FindChild(ns, RESULT).Some? <==> m.resultList != []
    requires Members(ns, HISTORY) == ReceivedFields(historyOrder, MapValues(m.sysHistory, historyOrder))
    ensures Understood(ns) == Some(Recovered(m))
  {
    hide HeaderValues, ReceivedFields, Enumerates, FindChild, Members, Atoi, ChildValue, Entries, LineTexts,
        HeardMap, HeardAll, TaskIdOf;
    HeaderRead(header, groups, m);
    MapRead(m.taskMap, taskOrder);
    MapRead(m.sysHistory, historyOrder);
    LinesReceived(LineNames(m.resultList), m.resultList);
  }

  /** Each group is found under its own name only. */
  lemma TaskFound(header: seq<Node>, t: seq<Node>, r: seq<Node>, h: seq<Node>, s: seq<Node>, m: Request,
                  taskOrder: seq<text>, historyOrder: seq<text>, stateValues: seq<text>, stateOrder: seq<text>)
    requires Enumerates(taskOrder, m.taskMap) && Enumerates(historyOrder, m.sysHistory)
    requires header == ReceivedFields([TYPE, FROM_PEER, LISTEN_PORT], HeaderValues(m))
    requires GroupReads(t, TASK, taskOrder, MapValues(m.taskMap, taskOrder)) &&
        GroupReads(r, RESULT, LineNames(m.resultList), m.resultList)
    requires GroupReads(h, HISTORY, historyOrder, MapValues(m.sysHistory, historyOrder)) &&
        GroupReads(s, STATE, stateOrder, stateValues)
    ensures var ns := header + t + r + h + s;
      Members(ns, TASK) == ReceivedFields(taskOrder, MapValues(m.taskMap, taskOrder)) &&
      Members(ns, RESULT) == ReceivedFields(LineNames(m.resultList), m.resultList) &&
      (FindChild(ns, RESULT).Some? <==> m.resultList != []) &&
      Members(ns, HISTORY) == ReceivedFields(historyOrder, MapValues(m.sysHistory, historyOrder))
  {
    hide GroupReads, HeaderValues, ReceivedFields, Enumerates, FindChild, Members;
    NamesDiffer();
    forall name | name in [TASK, RESULT, HISTORY]
      ensures name == TASK ==> Members(header + t + r + h + s, name) == Members(t, name)
      ensures name == RESULT ==>
        FindChild(header + t + r + h + s, name) == FindChild(r, name) &&
        Members(header + t + r + h + s, name) == Members(r, name)
      ensures name == HISTORY ==> Members(header + t + r + h + s, name) == Members(h, name)
    {
      HeaderHasNoGroup(header, m, name);
      FindInGroup(t, TASK, taskOrder, MapValues(m.taskMap, taskOrder), name);
      FindInGroup(r, RESULT, LineNames(m.resultList), m.resultList, name);
      FindInGroup(h, HISTORY, historyOrder, MapValues(m.sysHistory, historyOrder), name);
      FindInGroup(s, STATE, stateOrder, stateValues, name);
      GroupsFound(header, t, r, h, s, name);
    }
    FindInGroup(t, TASK, taskOrder, MapValues(m.taskMap, taskOrder), TASK);
    FindInGroup(r, RESULT, LineNames(m.resultList), m.resultList, RESULT);
    FindInGroup(h, HISTORY, historyOrder, MapValues(m.sysHistory, historyOrder), HISTORY);
    assert TASK in [TASK, RESULT, HISTORY] && RESULT in [TASK, RESULT, HISTORY] && HISTORY in [TASK, RESULT, HISTORY];
  }

  /**
   * A request, written in whatever order its maps iterate, is read back with every value replaced by
   * what arrives of it; the task identifier comes from the task map and the result flag from the list.
   */
  lemma RequestRoundTrip(m: Request, stateMap: MessageMap, taskOrder: seq<text>, historyOrder: seq<text>,
      stateOrder: seq<text>)
    requires Enumerates(taskOrder, m.taskMap) && Enumerates(historyOrder, m.sysHistory) &&
        Enumerates(stateOrder, stateMap)
    requires NamedKeys(m.taskMap) && NamedKeys(m.sysHistory) && NamedKeys(stateMap)
    ensures
      var doc := [RequestNode(m, stateMap, taskOrder, historyOrder, stateOrder)];
      ParseRequest(PrintDocument(doc, DEFAULT, true)) == Some(Recovered(m))
  {
    hide NamedKeys, Enumerates, PrintDocument, ParseBuffer, CanonNode, GroupsRead, Named, TextAlone, Understood,
        Recovered,
        RequestNode, ReceivedFields, HeaderValues;
    var t, r, h, s := RequestReceived(m, stateMap, taskOrder, historyOrder, stateOrder);
    var n := RequestNode(m, stateMap, taskOrder, historyOrder, stateOrder);
    RequestIsElement(m, stateMap, taskOrder, historyOrder, stateOrder);
    PrintThenParseAlone(n, DEFAULT, true);
    var arrived := CanonNode(n);
    CanonIsElement(n);
    assert NextNamed([arrived], 0, REQUEST) == 0;
    assert FindChild([arrived], REQUEST) == Some(arrived);
    UnderstoodRead(t, r, h, s, m, stateMap, taskOrder, historyOrder, stateOrder);
  }

  lemma RequestIsElement(m: Request, stateMap: MessageMap, taskOrder: seq<text>, historyOrder: seq<text>,
      stateOrder: seq<text>)
    requires Enumerates(taskOrder, m.taskMap) && Enumerates(historyOrder, m.sysHistory) &&
        Enumerates(stateOrder, stateMap)
    ensures RequestNode(m, stateMap, taskOrder, historyOrder, stateOrder).Element?
    ensures AllSpace(DEFAULT.indent)
  {
    hide Enumerates;
  }

  lemma CanonIsElement(n: Node)
    requires n.Element?
    ensures CanonNode(n).Element?
  {
  }

  /** Nothing is lost exactly when every value is sound and the derived fields were already in step. */
  lemma RequestIdentity(m: Request, stateMap: MessageMap, taskOrder: seq<text>, historyOrder: seq<text>,
      stateOrder: seq<text>)
    requires Enumerates(taskOrder, m.taskMap) && Enumerates(historyOrder, m.sysHistory) &&
        Enumerates(stateOrder, stateMap)
    requires NamedKeys(m.taskMap) && NamedKeys(m.sysHistory) && NamedKeys(stateMap)
    ensures
      var doc := [RequestNode(m, stateMap, taskOrder, historyOrder, stateOrder)];
      ParseRequest(PrintDocument(doc, DEFAULT, true)) == Some(m)
      <==> (forall k :: k in m.taskMap ==> Sound(m.taskMap[k])) &&
           (forall k :: k in m.sysHistory ==> Sound(m.sysHistory[k])) &&
           (forall i :: 0 <= i < |m.resultList| ==> Sound(m.resultList[i])) &&
           m.taskId == TaskIdOf(m.taskMap) && m.result == (m.resultList != [])
  {
    hide NamedKeys, Enumerates, PrintDocument, ParseRequest, RequestNode, HeardMap, HeardAll, Sound, TaskIdOf;
    RequestRoundTrip(m, stateMap, taskOrder, historyOrder, stateOrder);
    MapIdentity(m.taskMap);
    MapIdentity(m.sysHistory);
    ListIdentity(m.resultList);
  }

  lemma MapIdentity(m: MessageMap)
    ensures HeardMap(m) == m <==> forall k :: k in m ==> Sound(m[k])
  {
    hide Heard, Sound;
    forall k | k in m
      ensures Heard(m[k]) == m[k] <==> Sound(m[k])
    {
      HeardSound(m[k]);
    }
  }

  lemma ListIdentity(lines: seq<text>)
    ensures HeardAll(lines) == lines <==> forall i :: 0 <= i < |lines| ==> Sound(lines[i])
  {
    hide Heard, Sound;
    forall i | 0 <= i < |lines|
      ensures Heard(lines[i]) == lines[i] <==> Sound(lines[i])
    {
      HeardSound(lines[i]);
    }
    assert (forall i :: 0 <= i < |lines| ==> Sound(lines[i])) ==> HeardAll(lines) == lines;
  }
}
