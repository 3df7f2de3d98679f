/** The requests a task sends through a peer node, and what the other side makes of them. */
module PeerWire {
  import opened Common
  import opened Chars
  import opened Refs
  import opened Escaping
  import opened Printer
  import opened Canon
  import opened Decimal
  import opened Message
  import opened MessageParse
  import opened MessageTrip
  import Task

  const TASK_EXECUTE := 2
  const TASK_REQUEST := 4
  const TASK_RESULT := 5
  const TASK_PARAM: text := [116, 97, 115, 107, 80, 97, 114, 97, 109]
  const STATUS: text := [115, 116, 97, 116, 117, 115]

  /** A fresh request goes out as text that is understood as the request, as far as its values survive. */
  method Transmit(m: RequestMessage) returns (xml: text)
    requires m.xml == [] && m.stateMap == map[] && NamedKeys(m.taskMap) && NamedKeys(m.sysHistory)
    modifies m`xml
    ensures ParseRequest(xml) == Some(Recovered(m.Sent()))
  {
    hide ParseRequest, Recovered, PrintDocument, RequestNode, Enumerates, NamedKeys;
    ghost var taskOrder, historyOrder, stateOrder;
    xml, taskOrder, historyOrder, stateOrder := m.GetXML();
    NoKeys();
    RequestRoundTrip(m.Sent(), m.stateMap, taskOrder, historyOrder, stateOrder);
  }

  lemma NoKeys()
    ensures NamedKeys(map[]) && HeardMap(map[]) == map[] && HeardAll([]) == []
  {
  }

  lemma KeysAreNames()
    ensures IsName(TASK_ID) && IsName(TASK_PARAM) && IsName(STATUS)
    ensures TASK_ID != TASK_PARAM && TASK_ID != STATUS && TASK_PARAM != STATUS
  {
    assert TASK_PARAM[4] != TASK_ID[4] && |STATUS| != |TASK_PARAM| && STATUS[0] != TASK_ID[0];
  }

  lemma NumberKept(n: int)
    ensures Heard(ToText(n)) == ToText(n) && Atoi(ToText(n)) == n
  {
    hide Heard, Atoi;
    var v := ToText(n);
    assert !IsSpace(v[0]);
    assert forall i :: 0 <= i < |v| ==> v[i] != NUL && v[i] != CR;
    HeardSound(v);
    AtoiToText(n);
  }

  /** The peer asked learns who asks, for which task, and the parameter as far as it survives. */
  method TaskRequest(self: int, port: int, taskId: int, param: text) returns (xml: text)
    ensures ParseRequest(xml) == Some(Request(TASK_REQUEST, self, port, taskId,
      map[TASK_ID := ToText(taskId), TASK_PARAM := Heard(param)], [], false, map[]))
  {
    hide ParseRequest, Heard, HeardMap, HeardAll, ToText, IsName, TASK_PARAM, TASK_ID;
    var m := new RequestMessage();
    m.AddGeneralHeader(TASK_REQUEST, self, port);
    KeysAreNames();
    NoKeys();
    var values := map[TASK_ID := ToText(taskId), TASK_PARAM := param];
    m.AddTaskInfo(values);
    xml := Transmit(m);
    NumberKept(taskId);
    assert HeardMap(values) == map[TASK_ID := ToText(taskId), TASK_PARAM := Heard(param)];
  }

  /** The order to execute carries the task and nothing else. */
  method TaskExecute(self: int, port: int, taskId: int) returns (xml: text)
    ensures ParseRequest(xml) ==
      Some(Request(TASK_EXECUTE, self, port, taskId, map[TASK_ID := ToText(taskId)], [], false, map[]))
  {
    hide ParseRequest, Heard, HeardMap, HeardAll, ToText, IsName, TASK_ID;
    var m := new RequestMessage();
    m.AddGeneralHeader(TASK_EXECUTE, self, port);
    KeysAreNames();
    NoKeys();
    var values := map[TASK_ID := ToText(taskId)];
    m.AddTaskInfo(values);
    xml := Transmit(m);
    NumberKept(taskId);
    assert HeardMap(values) == map[TASK_ID := ToText(taskId)];
  }

  /** The result arrives line by line, with the parameter echoed; it counts as one only if it has a line. */
  method TaskExecuteResult(self: int, port: int, taskId: int, status: bool, lines: seq<text>, param: text)
    returns (xml: text)
    ensures ParseRequest(xml) == Some(Request(TASK_RESULT, self, port, taskId,
      map[TASK_ID := ToText(taskId), STATUS := ToText(if status then 1 else 0), TASK_PARAM := Heard(param)],
      HeardAll(lines), lines != [], map[]))
  {
    hide ParseRequest, Heard, HeardMap, HeardAll, ToText, IsName, NamedKeys, TaskIdOf, TASK_PARAM, TASK_ID, STATUS;
    var m := new RequestMessage();
    m.AddGeneralHeader(TASK_RESULT, self, port);
    m.AddResult(lines);
    KeysAreNames();
    NoKeys();
    var values := map[TASK_ID := ToText(taskId), STATUS := ToText(if status then 1 else 0), TASK_PARAM := param];
    m.AddTaskInfo(values);
    ResultInfoHeard(taskId, if status then 1 else 0, param);
    xml := Transmit(m);
  }

  lemma ResultInfoHeard(taskId: int, status: int, param: text)
    ensures var values := map[TASK_ID := ToText(taskId), STATUS := ToText(status), TASK_PARAM := param];
      var heard := HeardMap(values);
      NamedKeys(values) && TaskIdOf(heard) == taskId &&
      heard == map[TASK_ID := ToText(taskId), STATUS := ToText(status), TASK_PARAM := Heard(param)]
  {
    hide Heard, HeardMap, ToText, Atoi, IsName, TASK_PARAM, TASK_ID, STATUS;
    KeysAreNames();
    NumberKept(taskId);
    NumberKept(status);
  }

  // ---------- The echo ----------

  /** A value that has travelled once travels unchanged. */
  lemma HeardAgain(v: text)
    ensures Heard(Heard(v)) == Heard(v)
  {
    hide AllSpace, Convert, CStr;
    var c := CStr(v);
    NothingIsSpace();
    EolNoNul(c);
    EolIdentity(c);
    EolSpace(c);
    HeardSound(Heard(v));
  }

  lemma FirstParamIs<T>(params: seq<T>, p: nat, i: nat, x: T)
    requires i <= p < |params|
    ensures Task.FirstParam(params, x, i) == p <==> params[p] == x && forall j :: i <= j < p ==> params[j] != x
  {
  }

  /**
   * The parameter goes out with the request and comes back with the result. The result is then recorded
   * under its own index exactly when the parameter survives the journey and no earlier one is equal.
   */
  lemma EchoFound(params: seq<text>, p: nat)
    requires p < |params|
    ensures Task.FirstParam(params, Heard(Heard(params[p])), 0) == p
       <==> Sound(params[p]) && forall j :: 0 <= j < p ==> params[j] != params[p]
  {
    hide Heard, Sound, Task.FirstParam;
    HeardAgain(params[p]);
    HeardSound(params[p]);
    FirstParamIs(params, p, 0, Heard(Heard(params[p])));
  }
}
