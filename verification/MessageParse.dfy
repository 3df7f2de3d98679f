/** Reading a request message: the document is parsed in place and searched by element names. */
module MessageParse {
  import opened Common
  import opened Chars
  import opened Dom
  import opened Parser
  import opened Offsets
  import opened ParserImpl
  import opened Decimal
  import opened Message

  /** The name of a node; text nodes have none. */
  function NameOf(n: Node): text {
    if n.Element? then n.name else []
  }

  /** The first child of that name from position i on, or the end. */
  function NextNamed(ns: seq<Node>, i: nat, name: text): (j: nat)
    requires i <= |ns|
    ensures i <= j <= |ns| && (j < |ns| ==> ns[j].Element? && ns[j].name == name)
    ensures forall k :: i <= k < j ==> !(ns[k].Element? && ns[k].name == name)
    decreases |ns| - i
  {
    if i == |ns| || (ns[i].Element? && ns[i].name == name) then i else NextNamed(ns, i + 1, name)
  }

  function FindChild(ns: seq<Node>, name: text): (r: Option<Node>)
    ensures r.Some? ==> r.value.Element? && r.value.name == name
  {
    var j := NextNamed(ns, 0, name);
    if j < |ns| then Some(ns[j]) else None
  }

  /** The first text among the nodes. */
  function FirstText(ns: seq<Node>): text {
    if ns == [] then [] else if !ns[0].Element? then ns[0].value else FirstText(ns[1..])
  }

  function ChildValue(n: Node): text {
    if n.Element? then FirstText(n.children) else []
  }

  /** Each child is an entry; a later child of the same name wins. */
  function Entries(ns: seq<Node>): MessageMap
    decreases |ns|
  {
    if ns == [] then map[]
    else
      var last := ns[|ns| - 1];
      Entries(ns[..|ns| - 1])[NameOf(last) := ChildValue(last)]
  }

  /** The texts of the children named "line". */
  function LineTexts(ns: seq<Node>): seq<text>
    decreases |ns|
  {
    if ns == [] then []
    else
      var last := ns[|ns| - 1];
      LineTexts(ns[..|ns| - 1]) + if last.Element? && last.name == LINE then [ChildValue(last)] else []
  }

  /** The children of the first child of that name; none when there is no such child. */
  function Members(ns: seq<Node>, name: text): seq<Node> {
    var group := FindChild(ns, name);
    if group.Some? then group.value.children else []
  }

  function TaskIdOf(taskMap: MessageMap): int {
    Atoi(if TASK_ID in taskMap then taskMap[TASK_ID] else [ZERO])
  }

  /** The request a "Request" element stands for; without type, sender or port there is none. */
  function Understood(ns: seq<Node>): Option<Request> {
    var reqType, peer, port := FindChild(ns, TYPE), FindChild(ns, FROM_PEER), FindChild(ns, LISTEN_PORT);
    if reqType.None? || peer.None? || port.None? then None
    else
      var taskMap := Entries(Members(ns, TASK));
      Some(Request(Atoi(ChildValue(reqType.value)), Atoi(ChildValue(peer.value)), Atoi(ChildValue(port.value)),
                   TaskIdOf(taskMap), taskMap, LineTexts(Members(ns, RESULT)), FindChild(ns, RESULT).Some?,
                   Entries(Members(ns, HISTORY))))
  }

  function ParseRequest(xml: text): Option<Request> {
    match ParseBuffer(xml)
    case Error(_, _) => None
    case Parsed(nodes) =>
      var request := FindChild(nodes, REQUEST);
      if request.None? then None else Understood(request.value.children)
  }

  method GetTaskMap(node: Node) returns (m: MessageMap)
    requires node.Element?
    ensures m == Entries(node.children)
  {
    m := map[];
    var ns := node.children;
    var i := 0;
    while i < |ns|
      invariant i <= |ns| && m == Entries(ns[..i])
    {
      m := m[NameOf(ns[i]) := ChildValue(ns[i])];
      i := i + 1;
      assert ns[..i][..i - 1] == ns[..i - 1];
    }
    assert ns[..i] == ns;
  }

  method GetResult(node: Node) returns (lines: seq<text>)
    requires node.Element?
    ensures lines == LineTexts(node.children)
  {
    var ns := node.children;
    lines := [];
    var i := NextNamed(ns, 0, LINE);
    NoLines(ns, 0, i);
    while i < |ns|
      invariant i <= |ns| && lines == LineTexts(ns[..i]) && (i < |ns| ==> ns[i].Element? && ns[i].name == LINE)
      decreases |ns| - i
    {
      lines := lines + [ChildValue(ns[i])];
      assert ns[..i + 1][..i] == ns[..i];
      var next := NextNamed(ns, i + 1, LINE);
      NoLines(ns, i + 1, next);
      i := next;
    }
    assert ns[..i] == ns;
  }

  lemma {:induction false} NoLines(ns: seq<Node>, i: nat, j: nat)
    requires i <= j <= |ns| && forall k :: i <= k < j ==> !(ns[k].Element? && ns[k].name == LINE)
    ensures LineTexts(ns[..j]) == LineTexts(ns[..i])
  {
    if i < j {
      NoLines(ns, i, j - 1);
      assert ns[..j][..j - 1] == ns[..j - 1];
    }
  }

  lemma EmptyGroups()
    ensures Entries([]) == map[] && LineTexts([]) == []
  {
  }

  /** The header first, then the groups that are there. */
  method Understand(node: Node) returns (r: Option<Request>)
    requires node.Element?
    ensures r == Understood(node.children)
  {
    hide Entries, LineTexts, Atoi, NextNamed, FirstText;
    EmptyGroups();
    var ns := node.children;
    var reqType := FindChild(ns, TYPE);
    if reqType == None {
      return None;
    }
    var peer := FindChild(ns, FROM_PEER);
    if peer == None {
      return None;
    }
    var taskMap, history, lines, result := map[], map[], [], false;
    var group := FindChild(ns, TASK);
    if group != None {
      taskMap := GetTaskMap(group.value);
    }
    group := FindChild(ns, HISTORY);
    if group != None {
      history := GetTaskMap(group.value);
    }
    var taskId := [ZERO];
    if TASK_ID in taskMap {
      taskId := taskMap[TASK_ID];
    }
    var port := FindChild(ns, LISTEN_PORT);
    if port == None {
      return None;
    }
    group := FindChild(ns, RESULT);
    if group != None {
      result := true;
      lines := GetResult(group.value);
    }
    r := Some(Request(Atoi(ChildValue(reqType.value)), Atoi(ChildValue(peer.value)), Atoi(ChildValue(port.value)),
                      Atoi(taskId), taskMap, lines, result, history));
  }

  /** The text is copied into a buffer of its own, which the parser rewrites. */
  method ParseRequestMessage(xml: text) returns (r: Option<Request>)
    ensures r == ParseRequest(xml)
  {
    hide ParseBuffer, ReadNodes, Understood;
    var buffer := new byte[|xml|](i requires 0 <= i < |xml| => xml[i]);
    assert buffer[..] == xml;
    var parsed := ParseInPlace(buffer);
    if parsed.ErrorAt? {
      return None;
    }
    var nodes := ReadNodes(buffer[..], parsed.nodes);
    var request := FindChild(nodes, REQUEST);
    if request == None {
      return None;
    }
    r := Understand(request.value);
  }
}
