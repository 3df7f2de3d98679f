/** Request messages: building the XML text and reading it back. */
module Message {
  import opened Common
  import opened Chars
  import opened Dom
  import opened BufferedWriter
  import opened Printer
  import opened Decimal

  type text = seq<byte>
  type MessageMap = map<text, text>

  const REQUEST: text := [82, 101, 113, 117, 101, 115, 116]
  const TYPE: text := [116, 121, 112, 101]
  const FROM_PEER: text := [102, 114, 111, 109, 112, 101, 101, 114]
  const LISTEN_PORT: text := [108, 105, 115, 116, 101, 110, 112, 111, 114, 116]
  const TASK: text := [116, 97, 115, 107]
  const RESULT: text := [114, 101, 115, 117, 108, 116]
  const LINE: text := [108, 105, 110, 101]
  const HISTORY: text := [104, 105, 115, 116, 111, 114, 121]
  const STATE: text := [115, 116, 97, 116, 101]
  const TASK_ID: text := [116, 97, 115, 107, 105, 100]
  const TAB_INDENT: text := [TAB]

  /** format_default with the default indentation */
  const DEFAULT: Format := Format(false, true, TAB_INDENT)

  /** The fields of a request that travel, or are derived on arrival. */
  datatype Request = Request(reqType: int, fromPeerId: int, listenPort: int, taskId: int,
                             taskMap: MessageMap, resultList: seq<text>, result: bool, sysHistory: MessageMap)

  // ---------- Building ----------

  /** append_child(name) with a text child; both arguments are C strings. */
  function Field(name: text, value: text): Node {
    Element(CStr(name), [], [Pcdata(CStr(value))])
  }

  /** The keys of a map, each once. */
  ghost predicate Enumerates(order: seq<text>, m: MessageMap)
    ensures Enumerates(order, m) ==> forall i :: 0 <= i < |order| ==> order[i] in m
  {
    NoRepeats(order) && (forall k :: k in m <==> k in order)
  }

  function MapFields(m: MessageMap, order: seq<text>): (r: seq<Node>)
    requires forall i :: 0 <= i < |order| ==> order[i] in m
    ensures |r| == |order| && forall i :: 0 <= i < |r| ==> r[i] == Field(order[i], m[order[i]])
  {
    if order == [] then [] else [Field(order[0], m[order[0]])] + MapFields(m, order[1..])
  }

  function LineFields(lines: seq<text>): (r: seq<Node>)
    ensures |r| == |lines| && forall i :: 0 <= i < |r| ==> r[i] == Field(LINE, lines[i])
  {
    if lines == [] then [] else [Field(LINE, lines[0])] + LineFields(lines[1..])
  }

  /** A group is written only when it has members. */
  function Group(name: text, members: seq<Node>): seq<Node> {
    if members == [] then [] else [Element(name, [], members)]
  }

  function Header(reqType: int, fromPeerId: int, listenPort: int): seq<Node> {
    [Field(TYPE, ToText(reqType)), Field(FROM_PEER, ToText(fromPeerId)), Field(LISTEN_PORT, ToText(listenPort))]
  }

  class RequestMessage {
    var reqType: int
    var fromPeerId: int
    var listenPort: int
    var taskId: int
    var taskMap: MessageMap
    var stateMap: MessageMap
    var sysHistory: MessageMap
    var resultList: seq<text>
    var result: bool
    /** The text, kept after the first GetXML. */
    var xml: text

    constructor ()
      ensures reqType == 0 && fromPeerId == 0 && listenPort == 0 && taskId == 0 && !result
      ensures taskMap == map[] && stateMap == map[] && sysHistory == map[] && resultList == [] && xml == []
    {
      reqType, fromPeerId, listenPort, taskId, result := 0, 0, 0, 0, false;
      taskMap, stateMap, sysHistory, resultList, xml := map[], map[], map[], [], [];
    }

    function Sent(): Request
      reads this
    {
      Request(reqType, fromPeerId, listenPort, taskId, taskMap, resultList, result, sysHistory)
    }

    method AddGeneralHeader(reqType: int, fromPeerId: int, listenPort: int)
      modifies this`reqType, this`fromPeerId, this`listenPort
      ensures Sent() == old(Sent()).(reqType := reqType, fromPeerId := fromPeerId, listenPort := listenPort)
    {
      this.reqType, this.fromPeerId, this.listenPort := reqType, fromPeerId, listenPort;
    }

    method AddTaskInfo(values: MessageMap)
      modifies this`taskMap
      ensures Sent() == old(Sent()).(taskMap := values)
    {
      taskMap := values;
    }

    method AddResult(lines: seq<text>)
      modifies this`resultList
      ensures Sent() == old(Sent()).(resultList := lines)
    {
      resultList := lines;
    }

    /** The document is built child by child; a text built before is returned whatever changed since. */
    method GetXML() returns (text: text, ghost taskOrder: seq<text>, ghost historyOrder: seq<text>,
        ghost stateOrder: seq<text>)
      modifies this`xml
      ensures text == xml
      ensures old(xml) != [] ==> xml == old(xml)
      ensures old(xml) == [] ==>
        Enumerates(taskOrder, taskMap) && Enumerates(historyOrder, sysHistory) && Enumerates(stateOrder, stateMap) &&
        xml == PrintDocument([RequestNode(Sent(), stateMap, taskOrder, historyOrder, stateOrder)], DEFAULT, true)
    {
      hide PrintDocument, Enumerates;
      taskOrder, historyOrder, stateOrder := [], [], [];
      if xml != [] {
        return xml, [], [], [];
      }
      var root;
      root, taskOrder, historyOrder, stateOrder := BuildRoot();
      ghost var pieces;
      text, pieces := Save([root], DEFAULT, true, EncodingUtf8);
      xml := text;
    }

    method BuildRoot() returns (root: Node, ghost taskOrder: seq<text>, ghost historyOrder: seq<text>,
        ghost stateOrder: seq<text>)
      ensures Enumerates(taskOrder, taskMap) && Enumerates(historyOrder, sysHistory) && Enumerates(stateOrder, stateMap)
      ensures root == RequestNode(Sent(), stateMap, taskOrder, historyOrder, stateOrder)
    {
      hide Header, Enumerates, Group, Field;
      var children := Header(reqType, fromPeerId, listenPort);
      children, taskOrder := AppendMap(children, TASK, taskMap);
      children := AppendLines(children, resultList);
      children, historyOrder := AppendMap(children, HISTORY, sysHistory);
      children, stateOrder := AppendMap(children, STATE, stateMap);
      root := Element(REQUEST, [], children);
    }
  }

  function RequestNode(m: Request, stateMap: MessageMap, taskOrder: seq<text>, historyOrder: seq<text>,
      stateOrder: seq<text>): Node
    requires forall i :: 0 <= i < |taskOrder| ==> taskOrder[i] in m.taskMap
    requires forall i :: 0 <= i < |historyOrder| ==> historyOrder[i] in m.sysHistory
    requires forall i :: 0 <= i < |stateOrder| ==> stateOrder[i] in stateMap
  {
    Element(REQUEST, [], Header(m.reqType, m.fromPeerId, m.listenPort)
      + Group(TASK, MapFields(m.taskMap, taskOrder)) + Group(RESULT, LineFields(m.resultList))
      + Group(HISTORY, MapFields(m.sysHistory, historyOrder)) + Group(STATE, MapFields(stateMap, stateOrder)))
  }

  lemma EmptyOrder(m: MessageMap, order: seq<text>)
    requires Enumerates(order, m)
    ensures |m| == 0 <==> order == []
  {
    if order == [] {
      assert m == map[];
    } else {
      assert order[0] in m;
    }
  }

  method AppendMap(children: seq<Node>, name: text, m: MessageMap) returns (extended: seq<Node>, ghost order: seq<text>)
    ensures Enumerates(order, m) && extended == children + Group(name, MapFields(m, order))
  {
    hide Field, Enumerates;
    extended := children;
    var fields;
    fields, order := WriteMap(m);
    EmptyOrder(m, order);
    if |m| > 0 {
      extended := extended + [Element(name, [], fields)];
    }
  }

  method AppendLines(children: seq<Node>, lines: seq<text>) returns (extended: seq<Node>)
    ensures extended == children + Group(RESULT, LineFields(lines))
  {
    hide Field;
    extended := children;
    if |lines| > 0 {
      var fields := WriteLines(lines);
      extended := extended + [Element(RESULT, [], fields)];
    }
  }

  /** One field for each entry, in the order of the map's iteration. */
  method WriteMap(m: MessageMap) returns (fields: seq<Node>, ghost order: seq<text>)
    ensures Enumerates(order, m) && fields == MapFields(m, order)
  {
    var rest := m.Keys;
    fields, order := [], [];
    while rest != {}
      invariant rest <= m.Keys && (forall k :: k in m <==> k in rest || k in order) &&
        (forall k :: k in rest ==> k !in order)
      invariant NoRepeats(order)
      invariant fields == MapFields(m, order)
      decreases |rest|
    {
      var k :| k in rest;
      MapFieldsSnoc(m, order, k);
      fields := fields + [Field(k, m[k])];
      order := order + [k];
      rest := rest - {k};
    }
  }

  lemma MapFieldsSnoc(m: MessageMap, order: seq<text>, k: text)
    requires k in m && forall i :: 0 <= i < |order| ==> order[i] in m
    ensures MapFields(m, order + [k]) == MapFields(m, order) + [Field(k, m[k])]
  {
  }

  method WriteLines(lines: seq<text>) returns (fields: seq<Node>)
    ensures fields == LineFields(lines)
  {
    fields := [];
    var i := 0;
    while i < |lines|
      invariant i <= |lines| && |fields| == i && forall j :: 0 <= j < i ==> fields[j] == Field(LINE, lines[j])
    {
      fields := fields + [Field(LINE, lines[i])];
      i := i + 1;
    }
  }
}
