/**
 * Where the parameters of a task are, as a value: open for allotment, offered to a node, or allotted to
 * one. The node type is arbitrary. The steps are those of the message handlers.
 */
module TaskState {
  import opened Common

  /**
   * tryMap and peerMap name the node a parameter was offered or allotted to. For the record: held is the
   * parameter of every node ever asked, waiting the nodes whose request was sent and is not answered,
   * running the nodes that accepted and have not failed since.
   */
  datatype State<N(==)> = State(params: nat, remaining: int, unAllot: seq<int>, tryMap: map<int, N>,
                                peerMap: map<int, N>, taskNodes: seq<N>, stopped: bool, held: map<N, int>,
                                waiting: set<N>, running: set<N>)

  /** A node was asked; the request was sent or not. */
  datatype Offer<N> = Offer(node: N, sent: bool)

  /** What a round of asking did: the offers it made, and whether it gave up on the listed peers. */
  datatype Asking<N> = Asking(offers: seq<Offer<N>>, gaveUp: bool)

  function Max(a: int, b: int): int {
    if a < b then b else a
  }

  // ---------- Steps ----------

  /** The first open parameter is offered, and leaves the list once the request is sent. */
  function Ask<N>(s: State<N>, o: Offer<N>): (r: State<N>)
    requires s.unAllot != []
    ensures r.held.Keys == s.held.Keys + {o.node} && r.remaining == s.remaining
  {
    var p := s.unAllot[0];
    s.(tryMap := s.tryMap[p := o.node], held := s.held[o.node := p],
       unAllot := if o.sent then s.unAllot[1..] else s.unAllot,
       waiting := if o.sent then s.waiting + {o.node} else s.waiting)
  }

  /** Only nodes never asked before are asked, and only while a parameter is open. */
  predicate CanAsk<N>(s: State<N>, offers: seq<Offer<N>>)
    decreases |offers|, 0
  {
    offers == [] ||
    (var front, last := offers[..|offers| - 1], offers[|offers| - 1];
     CanAsk(s, front) && last.node !in AskAll(s, front).held && AskAll(s, front).unAllot != [])
  }

  function AskAll<N>(s: State<N>, offers: seq<Offer<N>>): State<N>
    requires CanAsk(s, offers)
    decreases |offers|, 1
  {
    if offers == [] then s else Ask(AskAll(s, offers[..|offers| - 1]), offers[|offers| - 1])
  }

  function Cancel<N>(s: State<N>): State<N> {
    s.(stopped := true, tryMap := map[], peerMap := map[], taskNodes := [], waiting := {}, running := {})
  }

  /** A round that gave up, or found fewer nodes than are missing, cancels the task. */
  predicate FallsShort<N>(s: State<N>, asking: Asking<N>) {
    asking.gaveUp || |asking.offers| < s.remaining
  }

  /** A round of asking: the task goes on with the nodes found, or is cancelled when they are too few. */
  ghost predicate Round<N>(s: State<N>, s': State<N>, asking: Asking<N>) {
    |asking.offers| <= Max(1, s.remaining) && (asking.gaveUp ==> |asking.offers| < Max(1, s.remaining)) &&
    CanAsk(s, asking.offers) &&
    s' == if FallsShort(s, asking) then Cancel(AskAll(s, asking.offers))
          else AskAll(s, asking.offers).(remaining := s.remaining - |asking.offers|)
  }

  function Reopen(unAllot: seq<int>, p: int): seq<int> {
    if p in unAllot then unAllot else unAllot + [p]
  }

  /** A node accepts its parameter. */
  function Accept<N>(s: State<N>, n: N): State<N>
    requires n in s.held
  {
    var p := s.held[n];
    s.(remaining := s.remaining - 1, taskNodes := s.taskNodes + [n], peerMap := s.peerMap[p := n],
       tryMap := s.tryMap - {p}, waiting := s.waiting - {n}, running := s.running + {n})
  }

  /** A node refuses, or is not eligible. */
  function Refuse<N>(s: State<N>, n: N): State<N>
    requires n in s.held
  {
    s.(tryMap := s.tryMap - {s.held[n]}, unAllot := Reopen(s.unAllot, s.held[n]), waiting := s.waiting - {n})
  }

  function Without<T>(s: seq<T>, k: nat): seq<T> {
    if k < |s| then s[..k] + s[k + 1..] else s
  }

  /** A node that accepted cannot execute; the task node at position k is dropped. */
  function GiveBack<N>(s: State<N>, n: N, k: nat): State<N>
    requires n in s.held
  {
    s.(remaining := s.remaining + 1, taskNodes := Without(s.taskNodes, k), peerMap := s.peerMap - {s.held[n]},
       unAllot := Reopen(s.unAllot, s.held[n]), running := s.running - {n})
  }

  /** The connection to a task node broke. */
  function Disconnect<N>(s: State<N>, n: N, k: nat): State<N>
    requires n in s.held
  {
    GiveBack(s, n, k).(tryMap := s.tryMap - {s.held[n]})
  }

  /** A result arrived; the task node at position k is dropped. */
  function Drop<N>(s: State<N>, k: nat): State<N> {
    s.(taskNodes := Without(s.taskNodes, k))
  }

  // ---------- Invariants ----------

  /** The lists and sets name only what there is. */
  ghost predicate ListGood<N>(s: State<N>) {
    NoRepeats(s.unAllot) && (forall p :: p in s.unAllot ==> 0 <= p < s.params) &&
    (forall n :: n in s.held ==> 0 <= s.held[n] < s.params) &&
    s.waiting <= s.held.Keys && s.running <= s.held.Keys && forall n :: n in s.taskNodes ==> n in s.held
  }

  /** No parameter is lost. */
  ghost predicate Covered<N>(s: State<N>) {
    forall p :: 0 <= p < s.params ==> p in s.unAllot || p in s.tryMap || p in s.peerMap
  }

  ghost predicate Safe<N>(s: State<N>) {
    ListGood(s) && (s.stopped || Covered(s))
  }

  /** Between two messages no peer is missing. */
  ghost predicate Quiet<N>(s: State<N>) {
    Safe(s) && (s.stopped || s.remaining <= 0)
  }

  /** A parameter a node is working on, or has been sent, is nowhere else. */
  ghost predicate Exclusive<N>(s: State<N>) {
    (forall p :: p in s.unAllot ==> p !in s.peerMap) && s.waiting !! s.running &&
    (forall n :: n in s.waiting ==> n in s.held && Only(s, s.held[n], s.tryMap, n) && s.held[n] !in s.peerMap) &&
    (forall n :: n in s.running ==> n in s.held && Only(s, s.held[n], s.peerMap, n) && s.held[n] !in s.tryMap)
  }

  predicate Only<N>(s: State<N>, p: int, m: map<int, N>, n: N) {
    p !in s.unAllot && p in m && m[p] == n
  }

  /** The task nodes are running, each listed once. */
  ghost predicate Listed<N>(s: State<N>) {
    NoRepeats(s.taskNodes) && forall n :: n in s.taskNodes ==> n in s.running
  }

  ghost predicate Orderly<N>(s: State<N>) {
    Exclusive(s) && Listed(s)
  }

  lemma ExclusiveHolders<N>(s: State<N>, a: N, b: N)
    requires Exclusive(s) && a != b && a in s.waiting + s.running && b in s.waiting + s.running
    ensures a in s.held && b in s.held && s.held[a] != s.held[b]
  {
  }

  /** No node of the set but n was given the parameter of n. */
  predicate NoOther<N>(s: State<N>, n: N, nodes: set<N>)
    requires n in s.held
  {
    forall m :: m in nodes && m != n && m in s.held ==> s.held[m] != s.held[n]
  }

  // ---------- What every step keeps, and when a parameter stays in one place ----------

  lemma ReopenGood(unAllot: seq<int>, p: int)
    requires NoRepeats(unAllot)
    ensures NoRepeats(Reopen(unAllot, p)) && forall q :: q in Reopen(unAllot, p) <==> q in unAllot || q == p
  {
  }

  lemma AskKeeps<N>(s: State<N>, o: Offer<N>)
    requires ListGood(s) && s.unAllot != [] && o.node !in s.held
    ensures ListGood(Ask(s, o)) && (Covered(s) ==> Covered(Ask(s, o)))
    ensures Exclusive(Ask(s, o)) <==> Exclusive(s)
  {
    var p, rest := s.unAllot[0], s.unAllot[1..];
    var t := Ask(s, o);
    assert p in s.unAllot;
    assert forall q :: q in s.unAllot <==> q == p || q in rest;
    assert p !in rest;
    if Exclusive(t) {
      AskReflects(s, o);
    }
  }

  /** Asking hides no clash: a state it makes exclusive was so before. */
  lemma AskReflects<N>(s: State<N>, o: Offer<N>)
    requires ListGood(s) && s.unAllot != [] && o.node !in s.held && Exclusive(Ask(s, o))
    ensures Exclusive(s)
  {
    var p, t := s.unAllot[0], Ask(s, o);
    assert p in s.unAllot;
    assert forall q :: q in s.unAllot <==> q == p || q in s.unAllot[1..];
    assert o.node !in s.waiting && o.node !in s.running;
    assert forall n :: n in s.held ==> n in t.held && t.held[n] == s.held[n];
    assert o.sent ==> o.node in t.waiting;
    assert forall n :: n in s.waiting ==> n in t.waiting;
  }

  lemma {:induction false} AskAllKeeps<N>(s: State<N>, offers: seq<Offer<N>>)
    requires ListGood(s) && CanAsk(s, offers)
    ensures var t := AskAll(s, offers);
      ListGood(t) && (Covered(s) ==> Covered(t)) && (Exclusive(t) <==> Exclusive(s)) && t.stopped == s.stopped &&
      t.params == s.params && t.peerMap == s.peerMap && t.taskNodes == s.taskNodes && t.running == s.running &&
      |t.unAllot| >= |s.unAllot| - |offers|
    decreases |offers|
  {
    hide ListGood, Covered, Exclusive;
    if offers != [] {
      AskAllKeeps(s, offers[..|offers| - 1]);
      AskKeeps(AskAll(s, offers[..|offers| - 1]), offers[|offers| - 1]);
    }
  }

  /**
   * After a round no peer is missing, or the task was cancelled; a round that goes on neither makes nor mends
   * a clash.
   */
  lemma RoundKeeps<N>(s: State<N>, s': State<N>, asking: Asking<N>)
    requires Safe(s) && !s.stopped && Round(s, s', asking)
    ensures Quiet(s') && (s'.stopped <==> FallsShort(s, asking)) && (Listed(s) ==> Listed(s'))
    ensures Exclusive(s') <==> s'.stopped || Exclusive(s)
  {
    hide CanAsk, AskAll;
    AskAllKeeps(s, asking.offers);
  }

  /** Acceptance: the parameter must not be open again and no other node may have it. */
  lemma AcceptKeeps<N>(s: State<N>, n: N)
    requires ListGood(s) && n in s.held
    ensures ListGood(Accept(s, n)) && (Covered(s) ==> Covered(Accept(s, n)))
    ensures Exclusive(s) ==>
      (Exclusive(Accept(s, n)) <==> s.held[n] !in s.unAllot && NoOther(s, n, s.waiting + s.running))
    ensures Listed(s) ==> (Listed(Accept(s, n)) <==> n !in s.taskNodes)
  {
    var t := Accept(s, n);
    assert n in t.running;
    if Listed(s) {
      ListedAccept(s, n);
    }
    if Exclusive(t) {
      assert forall m :: m in s.waiting && m != n ==> m in t.waiting;
      assert forall m :: m in s.running ==> m in t.running;
    }
  }

  lemma ListedAccept<N>(s: State<N>, n: N)
    requires n in s.held && Listed(s)
    ensures Listed(Accept(s, n)) <==> n !in s.taskNodes
  {
    var t := Accept(s, n);
    if n in s.taskNodes {
      var i :| 0 <= i < |s.taskNodes| && s.taskNodes[i] == n;
      assert t.taskNodes[i] == t.taskNodes[|s.taskNodes|];
    }
  }

  /** Refusal: the parameter must not be allotted, and no other node may be waiting with it. */
  lemma RefuseKeeps<N>(s: State<N>, n: N)
    requires ListGood(s) && n in s.held
    ensures ListGood(Refuse(s, n)) && (Covered(s) ==> Covered(Refuse(s, n))) && Refuse(s, n).unAllot != []
    ensures Exclusive(s) ==> (Exclusive(Refuse(s, n)) <==> s.held[n] !in s.peerMap && NoOther(s, n, s.waiting))
    ensures Listed(Refuse(s, n)) <==> Listed(s)
  {
    ReopenGood(s.unAllot, s.held[n]);
    assert s.held[n] in Refuse(s, n).unAllot;
    assert forall m :: m in s.waiting && m != n ==> m in Refuse(s, n).waiting;
  }

  /**
   * A failed execution, or a lost connection: no other node may have the parameter and the node itself may
   * not be waiting. Whichever task node is dropped, the parameters stay where they are.
   */
  lemma GiveBackKeeps<N>(s: State<N>, n: N, k: nat)
    requires ListGood(s) && n in s.held
    ensures ListGood(GiveBack(s, n, k)) && (Covered(s) ==> Covered(GiveBack(s, n, k))) &&
      GiveBack(s, n, k).unAllot != []
    ensures Exclusive(s) ==> (Exclusive(GiveBack(s, n, k)) <==> n !in s.waiting && NoOther(s, n, s.waiting + s.running))
    ensures Listed(s) ==> (Listed(GiveBack(s, n, k)) <==> Drops(s, n, k))
  {
    hide Without;
    ReopenGood(s.unAllot, s.held[n]);
    assert s.held[n] in GiveBack(s, n, k).unAllot;
    WithoutIn(s.taskNodes, k);
    assert forall m :: m in s.running && m != n ==> m in GiveBack(s, n, k).running;
    if Listed(s) {
      ListedGiveBack(s, n, k);
    }
  }

  /** Dropping position k removes the node n and no other. */
  predicate Drops<N(==)>(s: State<N>, n: N, k: nat) {
    (k < |s.taskNodes| && s.taskNodes[k] == n) || n !in s.taskNodes
  }

  lemma WithoutIn<T>(s: seq<T>, k: nat)
    ensures forall x :: x in Without(s, k) ==> x in s
  {
  }

  lemma WithoutKeeps<T>(s: seq<T>, k: nat)
    requires NoRepeats(s)
    ensures NoRepeats(Without(s, k)) && (k < |s| ==> s[k] !in Without(s, k))
  {
  }

  lemma WithoutOther<T>(s: seq<T>, k: nat, x: T)
    requires x in s && !(k < |s| && s[k] == x)
    ensures x in Without(s, k)
  {
    var i :| 0 <= i < |s| && s[i] == x;
    if k < |s| {
      assert Without(s, k)[if i < k then i else i - 1] == x;
    }
  }

  /** The list of task nodes stays true exactly when the node removed is the node meant. */
  lemma ListedGiveBack<N>(s: State<N>, n: N, k: nat)
    requires n in s.held && Listed(s)
    ensures Listed(GiveBack(s, n, k)) <==> Drops(s, n, k)
  {
    hide Without;
    WithoutIn(s.taskNodes, k);
    WithoutKeeps(s.taskNodes, k);
    if !Drops(s, n, k) {
      WithoutOther(s.taskNodes, k, n);
    }
  }

  lemma DisconnectKeeps<N>(s: State<N>, n: N, k: nat)
    requires ListGood(s) && n in s.held
    ensures ListGood(Disconnect(s, n, k)) && (Covered(s) ==> Covered(Disconnect(s, n, k))) &&
      Disconnect(s, n, k).unAllot != []
    ensures Exclusive(s) ==>
      (Exclusive(Disconnect(s, n, k)) <==> n !in s.waiting && NoOther(s, n, s.waiting + s.running))
    ensures Listed(s) ==> (Listed(Disconnect(s, n, k)) <==> Drops(s, n, k))
  {
    hide Without;
    GiveBackKeeps(s, n, k);
  }

  lemma ResultKeeps<N>(s: State<N>, k: nat)
    requires ListGood(s)
    ensures ListGood(Drop(s, k)) && (Covered(s) ==> Covered(Drop(s, k)))
    ensures (Exclusive(Drop(s, k)) <==> Exclusive(s)) && (Listed(s) ==> Listed(Drop(s, k)))
  {
    hide Without;
    WithoutIn(s.taskNodes, k);
    if Listed(s) {
      WithoutKeeps(s.taskNodes, k);
    }
  }

  /** While a round is short of nodes, the list it takes parameters from is not empty. */
  lemma OpenWhileAsking<N>(s: State<N>, offers: seq<Offer<N>>)
    requires ListGood(s) && s.unAllot != [] && |s.unAllot| >= s.remaining
    requires CanAsk(s, offers) && |offers| < Max(1, s.remaining)
    ensures AskAll(s, offers).unAllot != []
  {
    AskAllKeeps(s, offers);
  }

  // ---------- Runs ----------

  /** A message, with the round of asking it leads to. */
  datatype Event<N> =
    | Accepted(node: N)
    | Refused(node: N, asking: Asking<N>)
    | Failed(node: N, dropped: nat, asking: Asking<N>)
    | Lost(node: N, dropped: nat, asking: Asking<N>)
    | Finished(dropped: nat)

  ghost predicate Next<N>(s: State<N>, e: Event<N>, s': State<N>) {
    !s.stopped &&
    match e
    case Accepted(n) => n in s.held && s' == Accept(s, n)
    case Refused(n, asking) => n in s.held && Round(Refuse(s, n), s', asking)
    case Failed(n, k, asking) => n in s.held && Round(GiveBack(s, n, k), s', asking)
    case Lost(n, k, asking) => n in s.held && k < |s.taskNodes| && s.taskNodes[k] == n &&
      Round(Disconnect(s, n, k), s', asking)
    case Finished(k) => s' == Drop(s, k)
  }

  /**
   * The message takes a parameter from no other node, nor reopens one that is allotted, nor allots one that
   * is open.
   */
  predicate Clean<N>(s: State<N>, e: Event<N>) {
    match e
    case Accepted(n) => n in s.held && s.held[n] !in s.unAllot && NoOther(s, n, s.waiting + s.running)
    case Refused(n, _) => n in s.held && s.held[n] !in s.peerMap && NoOther(s, n, s.waiting)
    case Failed(n, _, _) => n in s.held && n !in s.waiting && NoOther(s, n, s.waiting + s.running)
    case Lost(n, _, _) => n in s.held && n !in s.waiting && NoOther(s, n, s.waiting + s.running)
    case Finished(_) => true
  }

  /** The peer speaks in turn: it answers a request it was sent, once, and only a node that accepted fails. */
  predicate InTurn<N>(s: State<N>, e: Event<N>) {
    match e
    case Accepted(n) => n in s.waiting
    case Refused(n, _) => n in s.waiting
    case Failed(n, _, _) => n in s.running
    case Lost(_, _, _) => true
    case Finished(_) => true
  }

  /** The node a failure removes from the task nodes is the one that failed, not another node of its peer. */
  predicate RemovesItself<N>(s: State<N>, e: Event<N>) {
    e.Failed? ==> Drops(s, e.node, e.dropped)
  }

  /** All parameters open, no node asked. */
  predicate Initial<N>(s: State<N>) {
    s.params > 0 && s.remaining == s.params == |s.unAllot| && (forall i :: 0 <= i < s.params ==> s.unAllot[i] == i) &&
    s.tryMap == map[] && s.peerMap == map[] && s.taskNodes == [] && !s.stopped && s.held == map[] &&
        s.waiting == {} && s.running == {}
  }

  /** A start, the first round, and the messages that follow. */
  ghost predicate Run<N>(trace: seq<State<N>>, first: Asking<N>, events: seq<Event<N>>) {
    |trace| == |events| + 2 && Initial(trace[0]) && Round(trace[0], trace[1], first) &&
    forall i :: 0 <= i < |events| ==> Next(trace[i + 1], events[i], trace[i + 2])
  }

  /** After a message no parameter is in two places if and only if the message was clean, or ended the task. */
  lemma NextKeeps<N>(s: State<N>, e: Event<N>, s': State<N>)
    requires Quiet(s) && Next(s, e, s')
    ensures Quiet(s')
    ensures Exclusive(s) ==> (Exclusive(s') <==> s'.stopped || Clean(s, e))
    ensures Orderly(s) && InTurn(s, e) && RemovesItself(s, e) ==> Orderly(s')
  {
    hide ListGood, Covered, Exclusive, Listed, Round, NoOther, Drops;
    if Orderly(s) && InTurn(s, e) {
      InTurnClean(s, e);
    }
    match e
    case Accepted(n) =>
      AcceptKeeps(s, n);
    case Refused(n, asking) =>
      RefuseKeeps(s, n);
      RoundKeeps(Refuse(s, n), s', asking);
    case Failed(n, k, asking) =>
      GiveBackKeeps(s, n, k);
      RoundKeeps(GiveBack(s, n, k), s', asking);
    case Lost(n, k, asking) =>
      DisconnectKeeps(s, n, k);
      RoundKeeps(Disconnect(s, n, k), s', asking);
      ItselfDropped(s, n, k);
    case Finished(k) =>
      ResultKeeps(s, k);
  }

  lemma ItselfDropped<N>(s: State<N>, n: N, k: nat)
    requires k < |s.taskNodes| && s.taskNodes[k] == n
    ensures Drops(s, n, k)
  {
  }

  /**
   * A peer that speaks in turn sends clean messages, except that a connection may break to a listed node
   * that gave its parameter back before.
   */
  lemma InTurnClean<N>(s: State<N>, e: Event<N>)
    requires Exclusive(s) && InTurn(s, e)
    ensures !e.Lost? ==> Clean(s, e)
    ensures e.Lost? && e.node in s.running ==> Clean(s, e)
    ensures e.Accepted? && Listed(s) ==> e.node !in s.taskNodes
    ensures Listed(s) && e.Lost? && e.node in s.taskNodes ==> Clean(s, e)
  {
    if !e.Finished? && e.node in s.waiting + s.running {
      forall m | m in s.waiting + s.running && m != e.node
        ensures m in s.held && s.held[m] != s.held[e.node]
      {
        ExclusiveHolders(s, m, e.node);
      }
    }
  }

  /** What may end the task: giving up, or finding nobody for the one node that just failed. */
  lemma WhyCancelled<N>(s: State<N>, e: Event<N>, s': State<N>)
    requires Quiet(s) && Next(s, e, s') && s'.stopped
    ensures !e.Accepted? && !e.Finished?
    ensures e.asking.gaveUp || (!e.Refused? && e.asking.offers == [] && s.remaining == 0)
  {
    hide ListGood, Covered, Round;
    match e
    case Accepted(_) =>
    case Refused(n, asking) =>
      RefuseKeeps(s, n);
      RoundKeeps(Refuse(s, n), s', asking);
    case Failed(n, k, asking) =>
      GiveBackKeeps(s, n, k);
      RoundKeeps(GiveBack(s, n, k), s', asking);
    case Lost(n, k, asking) =>
      DisconnectKeeps(s, n, k);
      RoundKeeps(Disconnect(s, n, k), s', asking);
    case Finished(_) =>
  }

  lemma InitialSafe<N>(s: State<N>)
    requires Initial(s)
    ensures Safe(s) && Orderly(s)
  {
    forall p | 0 <= p < s.params
      ensures p in s.unAllot
    {
      assert s.unAllot[p] == p;
    }
  }

  /**
   * In every run, until it is cancelled, every parameter is in the open list or a key of one of the maps,
   * the open list has no repeats, and no peer is missing between messages.
   */
  lemma {:induction false} RunSafe<N>(trace: seq<State<N>>, first: Asking<N>, events: seq<Event<N>>, i: nat)
    requires Run(trace, first, events) && 1 <= i < |trace|
    ensures Quiet(trace[i])
  {
    hide Quiet, Orderly, Round, Next;
    InitialSafe(trace[0]);
    if i == 1 {
      RoundKeeps(trace[0], trace[1], first) by { assert Safe(trace[0]); }
    } else {
      RunSafe(trace, first, events, i - 1);
      assert Next(trace[i - 2 + 1], events[i - 2], trace[i - 2 + 2]);
      NextKeeps(trace[i - 1], events[i - 2], trace[i]);
    }
  }

  /**
   * No parameter is ever in two places if and only if every message is clean, but for one that ends the
   * task: what the code promises about any run, with nothing assumed of the peers.
   */
  lemma {:induction false} RunExclusive<N>(trace: seq<State<N>>, first: Asking<N>, events: seq<Event<N>>, i: nat)
    requires Run(trace, first, events) && 1 <= i < |trace|
    ensures (forall j :: 1 <= j <= i ==> Exclusive(trace[j]))
       <==> (forall j :: 0 <= j < i - 1 ==> trace[j + 2].stopped || Clean(trace[j + 1], events[j]))
  {
    hide Quiet, Exclusive, Round, Next, Clean;
    InitialSafe(trace[0]);
    if i == 1 {
      RoundKeeps(trace[0], trace[1], first) by { assert Safe(trace[0]); }
    } else {
      RunExclusive(trace, first, events, i - 1);
      RunSafe(trace, first, events, i - 1);
      assert Next(trace[i - 2 + 1], events[i - 2], trace[i - 2 + 2]);
      NextKeeps(trace[i - 1], events[i - 2], trace[i]);
    }
  }

  /**
   * When peers speak in turn, only a broken connection can bring a parameter into two hands: to a listed
   * node that gave its parameter back before, and only if another node has been given it since.
   */
  lemma RunInTurn<N>(trace: seq<State<N>>, first: Asking<N>, events: seq<Event<N>>, i: nat)
    requires Run(trace, first, events) && 1 <= i < |trace|
    requires forall j :: 0 <= j < i - 1 ==> InTurn(trace[j + 1], events[j])
    ensures (forall j :: 1 <= j <= i ==> Exclusive(trace[j]))
       <==> (forall j :: 0 <= j < i - 1 && events[j].Lost? ==> trace[j + 2].stopped || Clean(trace[j + 1], events[j]))
  {
    hide Exclusive, Next, Round, Clean, InTurn, Initial;
    RunExclusive(trace, first, events, i);
    if forall j :: 0 <= j < i - 1 && events[j].Lost? ==> trace[j + 2].stopped || Clean(trace[j + 1], events[j]) {
      InTurnAllClean(trace, first, events, i);
    }
  }

  lemma {:induction false} InTurnAllClean<N>(trace: seq<State<N>>, first: Asking<N>, events: seq<Event<N>>, i: nat)
    requires Run(trace, first, events) && 1 <= i < |trace|
    requires forall j :: 0 <= j < i - 1 ==> InTurn(trace[j + 1], events[j])
    requires forall j :: 0 <= j < i - 1 && events[j].Lost? ==> trace[j + 2].stopped || Clean(trace[j + 1], events[j])
    ensures forall j :: 0 <= j < i - 1 ==> trace[j + 2].stopped || Clean(trace[j + 1], events[j])
  {
    hide Exclusive, Next, Round, Clean, InTurn, Initial;
    if i > 1 {
      InTurnAllClean(trace, first, events, i - 1);
      RunExclusive(trace, first, events, i - 1);
      assert InTurn(trace[i - 2 + 1], events[i - 2]);
      InTurnClean(trace[i - 1], events[i - 2]);
    }
  }

  /**
   * When peers speak in turn and a failing node is itself the one removed, the state stays orderly; so no
   * parameter is ever in the hands of two nodes.
   */
  lemma {:induction false} RunOrderly<N>(trace: seq<State<N>>, first: Asking<N>, events: seq<Event<N>>, i: nat)
    requires Run(trace, first, events) && 1 <= i < |trace|
    requires forall j :: 0 <= j < i - 1 ==> InTurn(trace[j + 1], events[j]) && RemovesItself(trace[j + 1], events[j])
    ensures Orderly(trace[i])
  {
    hide Quiet, Exclusive, Listed, Round, Next, InTurn, RemovesItself;
    InitialSafe(trace[0]);
    if i == 1 {
      RoundKeeps(trace[0], trace[1], first);
    } else {
      RunOrderly(trace, first, events, i - 1);
      RunSafe(trace, first, events, i - 1);
      assert Next(trace[i - 2 + 1], events[i - 2], trace[i - 2 + 2]);
      assert InTurn(trace[i - 2 + 1], events[i - 2]) && RemovesItself(trace[i - 2 + 1], events[i - 2]);
      NextKeeps(trace[i - 1], events[i - 2], trace[i]);
    }
  }

  // ---------- Runs in which a parameter gets into two hands ----------

  /** The open parameter of the node n is offered to m. */
  function Reoffered<N>(s: State<N>, n: N, m: N): State<N>
    requires n in s.held
  {
    s.(tryMap := s.tryMap[s.held[n] := m], held := s.held[m := s.held[n]], unAllot := [], waiting := s.waiting + {m},
       remaining := s.remaining - 1)
  }

  lemma RoundOfOne<N>(s: State<N>, n: N, m: N)
    requires n in s.held && s.unAllot == [s.held[n]] && m !in s.held && s.remaining <= 1
    ensures Round(s, Reoffered(s, n, m), Asking([Offer(m, true)], false))
  {
    var offers := [Offer(m, true)];
    assert offers[..0] == [] && s.unAllot[1..] == [];
    assert CanAsk(s, []) && AskAll(s, []) == s;
  }

  lemma RefusedRound<N>(s: State<N>, n: N, m: N)
    requires n in s.held && s.unAllot == [] && m !in s.held && s.remaining <= 0 && !s.stopped
    ensures Next(s, Refused(n, Asking([Offer(m, true)], false)), Reoffered(s.(waiting := s.waiting - {n}), n, m))
  {
    hide Round;
    var t := Refuse(s, n);
    RoundOfOne(t, n, m);
    assert Reoffered(t, n, m) == Reoffered(s.(waiting := s.waiting - {n}), n, m);
  }

  /** Two nodes wait with the same parameter. */
  predicate SharedBy<N>(s: State<N>, b: N, c: N) {
    b != c && b in s.waiting && c in s.waiting && b in s.held && c in s.held && s.held[b] == s.held[c]
  }

  function OneOpen<N>(): State<N> {
    State(1, 1, [0], map[], map[], [], false, map[], {}, {})
  }

  function OneOffered<N>(a: N): State<N> {
    State(1, 0, [], map[0 := a], map[], [], false, map[a := 0], {a}, {})
  }

  lemma FirstOfOne<N>(a: N)
    ensures Initial<N>(OneOpen()) && Round(OneOpen(), OneOffered(a), Asking([Offer(a, true)], false))
  {
    var offers := [Offer(a, true)];
    var s: State<N> := OneOpen();
    assert offers[..0] == [] && [0][1..] == [];
    assert CanAsk(s, []) && AskAll(s, []) == s;
  }

  /**
   * A node that refuses twice: its parameter, offered to b after the first refusal, is taken back from b
   * and offered to c.
   */
  lemma RefusedTwice<N>(a: N, b: N, c: N)
    requires a != b && a != c && b != c
    ensures exists trace: seq<State<N>>, first, events: seq<Event<N>> ::
        Run(trace, first, events) && |events| == 2 &&
            (forall j :: 0 <= j < 2 ==> events[j].Refused? && events[j].node == a) &&
        InTurn(trace[1], events[0]) && !InTurn(trace[2], events[1]) && SharedBy(trace[3], b, c)
  {
    hide Round, Initial, OneOpen, Next;
    var s1 := OneOffered(a);
    var s2 := Reoffered(s1.(waiting := s1.waiting - {a}), a, b);
    var s3 := Reoffered(s2.(waiting := s2.waiting - {a}), a, c);
    FirstOfOne(a);
    RefusedRound(s1, a, b);
    RefusedRound(s2, a, c);
    assert a !in s2.waiting && SharedBy(s3, b, c);
    var e1, e2 := Refused(a, Asking([Offer(b, true)], false)), Refused(a, Asking([Offer(c, true)], false));
    assert Run([OneOpen(), s1, s2, s3], Asking([Offer(a, true)], false), [e1, e2]);
  }

  function TwoOpen<N>(): State<N> {
    State(2, 2, [0, 1], map[], map[], [], false, map[], {}, {})
  }

  function TwoOffered<N>(a: N, n: N): State<N> {
    State(2, 0, [], map[0 := a, 1 := n], map[], [], false, map[a := 0, n := 1], {a, n}, {})
  }

  /** a and n have accepted. */
  function TwoRunning<N>(a: N, n: N): State<N> {
    State(2, -2, [], map[], map[0 := a, 1 := n], [a, n], false, map[a := 0, n := 1], {}, {a, n})
  }

  lemma FirstOfTwo<N>(a: N, n: N)
    requires a != n
    ensures Initial<N>(TwoOpen()) && Round(TwoOpen(), TwoOffered(a, n), Asking([Offer(a, true), Offer(n, true)], false))
  {
    var s: State<N>, o, o' := TwoOpen(), Offer(a, true), Offer(n, true);
    var offers := [o, o'];
    assert offers[..1] == [o] && [o][..0] == [] && [0, 1][1..] == [1] && [1][1..] == [];
    assert CanAsk(s, []) && AskAll(s, []) == s;
    assert CanAsk(s, [o]) && AskAll(s, [o]) == Ask(s, o);
    assert Ask(Ask(s, o), o').(remaining := 0) == TwoOffered(a, n);
  }

  lemma BothAccept<N>(a: N, n: N)
    requires a != n
    ensures a in TwoOffered(a, n).held
    ensures var s := Accept(TwoOffered(a, n), a);
      Next(TwoOffered(a, n), Accepted(a), s) && Next(s, Accepted(n), TwoRunning(a, n)) &&
      InTurn(TwoOffered(a, n), Accepted(a)) && InTurn(s, Accepted(n))
  {
    var s := Accept(TwoOffered(a, n), a);
    assert Accept(s, n) == TwoRunning(a, n);
  }

  /** n fails and a is dropped in its place; the parameter goes to b. */
  function WrongDropped<N>(a: N, n: N, b: N): State<N> {
    State(2, -2, [], map[1 := b], map[0 := a], [n], false, map[a := 0, n := 1, b := 1], {b}, {a})
  }

  lemma WrongDrop<N>(a: N, n: N, b: N)
    requires a != n && a != b && n != b
    ensures var e := Failed(n, 0, Asking([Offer(b, true)], false));
      Next(TwoRunning(a, n), e, WrongDropped(a, n, b)) && InTurn(TwoRunning(a, n), e)
  {
    hide Round;
    var t := GiveBack(TwoRunning(a, n), n, 0);
    assert t == State(2, -1, [1], map[], map[0 := a], [n], false, map[a := 0, n := 1], {}, {a});
    RoundOfOne(t, n, b);
    assert Reoffered(t, n, b) == WrongDropped(a, n, b);
  }

  /** The connection to n, still listed, breaks; the parameter goes to c as well. */
  function BothOffered<N>(a: N, n: N, b: N, c: N): State<N> {
    State(2, -2, [], map[1 := c], map[0 := a], [], false, map[a := 0, n := 1, b := 1, c := 1], {b, c}, {a})
  }

  lemma LostLater<N>(a: N, n: N, b: N, c: N)
    requires a != n && a != b && a != c && n != b && n != c && b != c
    ensures var e := Lost(n, 0, Asking([Offer(c, true)], false));
      Next(WrongDropped(a, n, b), e, BothOffered(a, n, b, c)) && InTurn(WrongDropped(a, n, b), e)
    ensures SharedBy(BothOffered(a, n, b, c), b, c)
  {
    hide Round;
    var t := Disconnect(WrongDropped(a, n, b), n, 0);
    assert t == State(2, -1, [1], map[], map[0 := a], [], false, map[a := 0, n := 1, b := 1], {b}, {a});
    RoundOfOne(t, n, c);
    assert Reoffered(t, n, c) == BothOffered(a, n, b, c);
  }

  /**
   * Every peer speaks in turn, but when n fails the node a is dropped in its place. The connection to n,
   * still listed, then breaks: the parameter b has been offered is taken back and offered to c.
   */
  lemma WrongNodeRemoved<N>(a: N, n: N, b: N, c: N)
    requires a != n && a != b && a != c && n != b && n != c && b != c
    ensures exists trace: seq<State<N>>, first, events: seq<Event<N>> ::
        Run(trace, first, events) && |events| == 4 && (forall j :: 0 <= j < 4 ==> InTurn(trace[j + 1], events[j])) &&
        (forall j :: 0 <= j < 4 && !events[j].Failed? ==> RemovesItself(trace[j + 1], events[j])) &&
            SharedBy(trace[5], b, c)
  {
    hide Round, Initial, Next, TwoOpen, TwoOffered, TwoRunning, WrongDropped, BothOffered, InTurn, SharedBy, Accept;
    var s1, s3, s4, s5 := TwoOffered(a, n), TwoRunning(a, n), WrongDropped(a, n, b), BothOffered(a, n, b, c);
    BothAccept(a, n);
    var s2 := Accept(s1, a);
    FirstOfTwo(a, n);
    WrongDrop(a, n, b);
    LostLater(a, n, b, c);
    var e3, e4 := Failed(n, 0, Asking([Offer(b, true)], false)), Lost(n, 0, Asking([Offer(c, true)], false));
    assert Run([TwoOpen(), s1, s2, s3, s4, s5], Asking([Offer(a, true), Offer(n, true)], false),
        [Accepted(a), Accepted(n), e3, e4]);
  }
}
