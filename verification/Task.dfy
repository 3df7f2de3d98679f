/**
 * The protocol that hands the parameters of a task to peers and takes them back on refusal, failure or
 * disconnection. Connecting and sending are outside: their results are functions of the attempt number.
 */
module Task {
  import opened TaskState

  type text = string

  /** Results of Connect and TaskRequest, by attempt. */
  datatype Network = Network(connects: nat -> int, sends: nat -> int)

  /** The work history a peer reports. */
  datatype History = NoHistory | History(workload: real, totalExecuted: real, totalFailure: real)

  const HIGH_THRESHOLD: real := 2.0
  const MEDIUM_THRESHOLD: real := 1.0

  function Eligibility(h: History): real {
    match h
    case NoHistory => 0.0
    case History(workload, totalExecuted, totalFailure) =>
      if totalExecuted == 0.0 then MEDIUM_THRESHOLD + 0.1
      else totalExecuted - (totalFailure * 2.0 + if workload <= 0.0 then 0.0 else 1.0 / workload)
  }

  // ---------- Which peers are good enough ----------

  /** Successes against twice the failures, with room for one execution spread over the workload. */
  predicate Welcome(h: History, threshold: real) {
    match h
    case NoHistory => false
    case History(workload, totalExecuted, totalFailure) =>
      var room := totalExecuted - 2.0 * totalFailure - threshold;
      if totalExecuted == 0.0 then threshold == MEDIUM_THRESHOLD
      else if workload <= 0.0 then room >= 0.0
      else workload * room >= 1.0
  }

  lemma Inverse(w: real, x: real)
    requires w > 0.0
    ensures x >= 1.0 / w <==> w * x >= 1.0
  {
    var y := 1.0 / w;
    assert w * y == 1.0;
    assert w * x - 1.0 == w * (x - y);
    if x >= y {
      assert w * (x - y) >= 0.0;
    } else {
      assert w * (x - y) < 0.0;
    }
  }

  /** At either threshold the figure computed decides what the history deserves. */
  lemma EligibleExactly(h: History, threshold: real)
    requires threshold == HIGH_THRESHOLD || threshold == MEDIUM_THRESHOLD
    ensures Eligibility(h) >= threshold <==> Welcome(h, threshold)
  {
    if h.History? && h.totalExecuted != 0.0 && h.workload > 0.0 {
      Inverse(h.workload, h.totalExecuted - 2.0 * h.totalFailure - threshold);
    }
  }

  /** No history is never enough, and the lower threshold turns nobody away. */
  lemma WelcomeAtBoth(h: History)
    ensures h.NoHistory? ==> !Welcome(h, HIGH_THRESHOLD) && !Welcome(h, MEDIUM_THRESHOLD)
    ensures Welcome(h, HIGH_THRESHOLD) ==> Welcome(h, MEDIUM_THRESHOLD)
    ensures h.History? && h.totalExecuted == 0.0 ==> !Welcome(h, HIGH_THRESHOLD) && Welcome(h, MEDIUM_THRESHOLD)
  {
    if h.History? && h.workload > 0.0 {
      var room := h.totalExecuted - 2.0 * h.totalFailure - HIGH_THRESHOLD;
      assert h.workload * (room + 1.0) == h.workload * room + h.workload;
    }
  }

  /** Without failures and without a workload the executions alone must reach the threshold. */
  lemma WelcomeUnfailing(h: History, threshold: real)
    requires h.History? && h.totalExecuted != 0.0 && h.totalFailure == 0.0 && h.workload <= 0.0
    ensures Welcome(h, threshold) <==> h.totalExecuted >= threshold
    ensures Welcome(h, HIGH_THRESHOLD) <==> h.totalExecuted >= 2.0
    ensures Welcome(h, MEDIUM_THRESHOLD) <==> h.totalExecuted >= 1.0
  {
  }

  /** More executions, fewer failures or a higher workload do not turn a welcome peer away. */
  lemma WelcomeMore(h: History, h': History, threshold: real)
    requires h.History? && h'.History? && h.totalExecuted != 0.0 && h'.totalExecuted != 0.0 && Welcome(h, threshold)
    requires h'.totalExecuted >= h.totalExecuted && h'.totalFailure <= h.totalFailure
    requires (h.workload <= 0.0 && h'.workload <= 0.0) || 0.0 < h.workload <= h'.workload
    ensures Welcome(h', threshold)
  {
    if h.workload > 0.0 {
      var room := h.totalExecuted - 2.0 * h.totalFailure - threshold;
      var room' := h'.totalExecuted - 2.0 * h'.totalFailure - threshold;
      MoreRoom(h.workload, h'.workload, room, room');
    }
  }

  lemma SameSign(w: real, x: real)
    requires w > 0.0
    ensures x <= 0.0 ==> w * x <= 0.0
  {
  }

  lemma MoreRoom(w: real, w': real, x: real, x': real)
    requires 0.0 < w <= w' && x <= x' && w * x >= 1.0
    ensures w' * x' >= 1.0
  {
    SameSign(w, x);
    assert w' * x' - w * x == (w' - w) * x' + w * (x' - x);
    assert (w' - w) * x' >= 0.0 && w * (x' - x) >= 0.0;
  }

  class PeerNode {
    var peerId: int
    var paramIndex: int

    constructor (peerId: int)
      ensures this.peerId == peerId && paramIndex == -1
    {
      this.peerId, paramIndex := peerId, -1;
    }

    /** A node takes the identity its messages claim. */
    method ReceiveMessage(fromPeerId: int)
      modifies this`peerId
      ensures peerId == fromPeerId
    {
      peerId := fromPeerId;
    }
  }

  /** The position of the first node with that identity, or the end. */
  function FirstById(nodes: seq<PeerNode>, peerId: int, i: nat): (k: nat)
    requires i <= |nodes|
    reads nodes
    ensures i <= k <= |nodes| && (k < |nodes| ==> nodes[k].peerId == peerId)
    ensures forall j :: i <= j < k ==> nodes[j].peerId != peerId
    decreases |nodes| - i
  {
    if i == |nodes| || nodes[i].peerId == peerId then i else FirstById(nodes, peerId, i + 1)
  }

  function FirstParam<T(==)>(params: seq<T>, param: T, i: nat): (k: int)
    requires i <= |params|
    ensures k == -1 || (i <= k < |params| && params[k] == param)
    ensures forall j :: i <= j < (if k == -1 then |params| else k) ==> params[j] != param
    decreases |params| - i
  {
    if i == |params| then -1 else if params[i] == param then i else FirstParam(params, param, i + 1)
  }

  ghost predicate Recipients(nodes: set<PeerNode>, offers: seq<Offer<PeerNode>>, peers: seq<int>, self: int)
    reads nodes
  {
    forall o :: o in offers ==> o.node in nodes && o.node.peerId in peers && o.node.peerId != self
  }

  ghost predicate Known(nodes: seq<PeerNode>, peerId: int)
    reads nodes
  {
    exists n :: n in nodes && n.peerId == peerId
  }

  /** A candidate is passed over for a reason: it is this peer, it is being tried, or it could not be reached. */
  ghost predicate PassedOver(tried: seq<PeerNode>, peers: seq<int>, self: int, net: Network, failed: map<nat, nat>,
      j: nat)
    reads tried
  {
    j < |peers| && (peers[j] == self || Known(tried, peers[j]) || (j in failed && net.connects(failed[j]) < 0))
  }

  ghost predicate AllPassedOver(tried: seq<PeerNode>, peers: seq<int>, self: int, net: Network, 
      failed: map<nat, nat>, i: nat)
    reads tried
  {
    forall j: nat :: j < i ==> PassedOver(tried, peers, self, net, failed, j)
  }

  /** How a round went: restarts, the failed attempt of each candidate, and the try list at the end. */
  datatype Search = Search(restarts: nat, failed: map<nat, nat>, tried: seq<PeerNode>)

  class Task {
    var params: seq<text>
    var numRequired: int
    var numRemaining: int
    var numMaxToTry: int
    var numTried: int
    var threshold: real
    var unAllot: seq<int>
    var tryMap: map<int, PeerNode>
    var peerMap: map<int, PeerNode>
    var taskNodes: seq<PeerNode>
    var tryNodes: seq<PeerNode>
    var resultAvailable: set<PeerNode>
    var resultList: seq<seq<text>>
    var paramResults: map<int, seq<text>>
    var numResults: int
    var stopped: bool
    ghost var held: map<PeerNode, int>
    ghost var waiting: set<PeerNode>
    ghost var running: set<PeerNode>

    ghost function Abs(): State<PeerNode>
      reads this`params, this`numRemaining, this`unAllot, this`tryMap, this`peerMap, this`taskNodes, this`stopped
      reads this`held, this`waiting, this`running
    {
      State(|params|, numRemaining, unAllot, tryMap, peerMap, taskNodes, stopped, held, waiting, running)
    }

    /** The nodes know their parameters. */
    ghost predicate Informed()
      reads this`held, held.Keys
    {
      forall n :: n in held ==> n.paramIndex == held[n]
    }

    /** The try list holds nodes this task asked. */
    ghost predicate Asked()
      reads this`held, this`tryNodes
    {
      forall n :: n in tryNodes ==> n in held
    }

    ghost predicate Valid()
      reads this`held, held.Keys, this`tryNodes
    {
      Informed() && Asked()
    }

    constructor (params: seq<text>)
      ensures Valid() && (params != [] ==> Initial(Abs())) && this.params == params && numRequired == |params| &&
        fresh(this)
      ensures tryNodes == [] && resultList == [] && numResults == 0 && paramResults == map[] &&
          resultAvailable == {} && numTried == 0
    {
      this.params, numRequired, numRemaining := params, |params|, |params|;
      numMaxToTry, numTried, threshold := 3, 0, HIGH_THRESHOLD;
      tryMap, peerMap, taskNodes, tryNodes := map[], map[], [], [];
      resultAvailable, resultList, paramResults, numResults, stopped := {}, [], map[], 0, false;
      held, waiting, running := map[], {}, {};
      unAllot := seq(|params|, i => i);
    }

    method TaskCancel()
      modifies this`tryNodes, this`taskNodes, this`peerMap, this`tryMap, this`stopped, this`waiting, this`running
      ensures Abs() == Cancel(old(Abs())) && (old(Valid()) ==> Valid())
      ensures stopped && tryNodes == [] && taskNodes == [] && peerMap == map[] && tryMap == map[]
    {
      tryNodes, taskNodes := [], [];
      peerMap, tryMap := map[], map[];
      stopped := true;
      waiting, running := {}, {};
    }

    ghost predicate Tried(peerId: int)
      reads this`tryNodes, tryNodes
    {
      Known(tryNodes, peerId)
    }

    /** No two nodes of the try list stand for the same peer. */
    ghost predicate DistinctIds()
      reads this`tryNodes, tryNodes
    {
      forall i, j :: 0 <= i < j < |tryNodes| ==> tryNodes[i].peerId != tryNodes[j].peerId
    }

    /**
     * A message arrives at a node of the try list, which takes the identity the message claims: the list keeps
     * one node for each peer exactly when no other node has that identity.
     */
    method NodeSpeaks(pNode: PeerNode, fromPeerId: int)
      requires Valid() && pNode in tryNodes && DistinctIds()
      modifies pNode`peerId
      ensures Valid() && Abs() == old(Abs()) && pNode.peerId == fromPeerId
      ensures DistinctIds() <==> forall n :: n in tryNodes && n != pNode ==> n.peerId != fromPeerId
    {
      pNode.ReceiveMessage(fromPeerId);
      ghost var k :| 0 <= k < |tryNodes| && tryNodes[k] == pNode;
      assert forall j :: 0 <= j < |tryNodes| && j != k ==> tryNodes[j] != pNode;
    }

    /** The node joins the try list and is sent the first open parameter, which leaves the list if that worked. */
    method Offered(pNode: PeerNode, send: int)
      requires Valid() && unAllot != [] && pNode !in held
      modifies pNode`paramIndex, this`tryNodes, this`tryMap, this`unAllot, this`held, this`waiting
      ensures Valid() && tryNodes == old(tryNodes) + [pNode]
      ensures Abs() == Ask(old(Abs()), Offer(pNode, send > 0))
    {
      tryNodes := tryNodes + [pNode];
      tryMap := tryMap[unAllot[0] := pNode];
      pNode.paramIndex := unAllot[0];
      held := held[pNode := unAllot[0]];
      assert Valid();
      if send > 0 {
        Sent(pNode);
      }
    }

    /** The request was sent: its parameter is no longer open. */
    method Sent(pNode: PeerNode)
      requires unAllot != []
      modifies this`unAllot, this`waiting
      ensures Abs() == old(Abs()).(unAllot := old(unAllot)[1..], waiting := old(waiting) + {pNode})
    {
      unAllot := unAllot[1..];
      waiting := waiting + {pNode};
    }

    /** One candidate: a node is made for it and connected. */
    method AskOne(peerId: int, connect: int, send: int) returns (asking: bool, ghost node: PeerNode)
      requires Valid() && unAllot != []
      modifies this`numTried, this`tryNodes, this`tryMap, this`unAllot, this`held, this`waiting
      ensures Valid() && fresh(node) && node.peerId == peerId && node !in old(held)
      ensures numTried == old(numTried) + 1 && (asking <==> connect >= 0)
      ensures tryNodes == old(tryNodes) + if asking then [node] else []
      ensures Abs() == if asking then Ask(old(Abs()), Offer(node, send > 0)) else old(Abs())
      ensures (forall id :: old(Tried(id)) ==> Tried(id)) && (asking ==> Tried(peerId))
      ensures old(DistinctIds()) && !old(Tried(peerId)) ==> DistinctIds()
    {
      hide Ask, Task.Informed;
      var pNode := new PeerNode(peerId);
      node := pNode;
      numTried := numTried + 1;
      asking := connect >= 0;
      if asking {
        Offered(pNode, send);
      }
    }

    method IsInTryNodes(peerId: int) returns (found: bool)
      ensures found <==> Tried(peerId)
    {
      found := false;
      var i := 0;
      while i < |tryNodes|
        invariant i <= |tryNodes| && !found && forall j :: 0 <= j < i ==> tryNodes[j].peerId != peerId
      {
        if tryNodes[i].peerId == peerId {
          return true;
        }
        i := i + 1;
      }
    }

    /** The offers made so far in a round that began in state before: only to listed peers, not to this one. */
    ghost predicate InRound(before: State<PeerNode>, offers: seq<Offer<PeerNode>>, peers: seq<int>, self: int)
      reads this`params, this`numRemaining, this`unAllot, this`tryMap, this`peerMap, this`taskNodes, this`stopped
      reads this`held, this`waiting, this`running, held.Keys
    {
      Informed() && CanAsk(before, offers) && Abs() == AskAll(before, offers) &&
          Recipients(held.Keys, offers, peers, self)
    }

    /** One turn of the loop; the attempts so far are counted. */
    method Consider(peers: seq<int>, self: int, net: Network, i: nat, attempts: nat, ghost failed: map<nat, nat>,
                    ghost before: State<PeerNode>, ghost offers: seq<Offer<PeerNode>>)
      returns (asked: bool, attempts': nat, ghost offers': seq<Offer<PeerNode>>, ghost failed': map<nat, nat>)
      requires InRound(before, offers, peers, self) && Asked() && unAllot != [] && i < |peers| &&
          AllPassedOver(tryNodes, peers, self, net, failed, i)
      modifies this`numTried, this`tryNodes, this`tryMap, this`unAllot, this`held, this`waiting
      ensures InRound(before, offers', peers, self) && Asked() && |offers'| == |offers| + if asked then 1 else 0
      ensures AllPassedOver(tryNodes, peers, self, net, failed', i + 1) && (old(DistinctIds()) ==> DistinctIds())
      ensures old(numTried) <= numTried <= old(numTried) + if peers[i] == self then 0 else 1
    {
      hide Ask, CanAsk, AskAll, AllPassedOver;
      asked, attempts', offers', failed' := false, attempts, offers, failed;
      var known := IsInTryNodes(peers[i]);
      if peers[i] != self && !known {
        ghost var node;
        asked, node, failed' := Attempt(peers, self, net, i, attempts, failed);
        attempts' := attempts + 1;
        if asked {
          MoreOffers(before, offers, Offer(node, net.sends(attempts) > 0));
          offers' := offers + [Offer(node, net.sends(attempts) > 0)];
        }
      } else {
        OneMorePassedOver(peers, self, net, failed, i);
      }
    }

    lemma OneMorePassedOver(peers: seq<int>, self: int, net: Network, failed: map<nat, nat>, i: nat)
      requires AllPassedOver(tryNodes, peers, self, net, failed, i) && PassedOver(tryNodes, peers, self, net, failed, i)
      ensures AllPassedOver(tryNodes, peers, self, net, failed, i + 1)
    {
    }

    method Attempt(peers: seq<int>, self: int, net: Network, i: nat, attempts: nat, ghost failed: map<nat, nat>)
      returns (asking: bool, ghost node: PeerNode, ghost failed': map<nat, nat>)
      requires Valid() && unAllot != [] && i < |peers| && AllPassedOver(tryNodes, peers, self, net, failed, i) &&
        !Tried(peers[i])
      modifies this`numTried, this`tryNodes, this`tryMap, this`unAllot, this`held, this`waiting
      ensures Valid() && fresh(node) && node.peerId == peers[i] && node !in old(held)
      ensures Abs() == if asking then Ask(old(Abs()), Offer(node, net.sends(attempts) > 0)) else old(Abs())
      ensures AllPassedOver(tryNodes, peers, self, net, failed', i + 1) && (old(DistinctIds()) ==> DistinctIds())
      ensures numTried == old(numTried) + 1
    {
      hide Ask, Task.Valid, Task.DistinctIds;
      ghost var tried := set j | 0 <= j < i && Tried(peers[j]);
      assert forall j: nat :: j < i && j !in tried ==> PassedOver(tryNodes, peers, self, net, failed, j);
      asking, node := AskOne(peers[i], net.connects(attempts), net.sends(attempts));
      failed' := if asking then failed else failed[i := attempts];
      assert forall j :: j in tried ==> Tried(peers[j]);
    }

    lemma NonePassedOver(peers: seq<int>, self: int, net: Network, failed: map<nat, nat>)
      ensures AllPassedOver(tryNodes, peers, self, net, failed, 0)
    {
    }

    method LowerThreshold()
      modifies this`threshold, this`tryNodes, this`numTried
      ensures threshold == MEDIUM_THRESHOLD && tryNodes == [] && numTried == 0 && DistinctIds()
    {
      threshold := MEDIUM_THRESHOLD;
      tryNodes := [];
      numTried := 0;
    }

    /**
     * The loop over the candidates. When enough were tried it starts over once, with the lower threshold
     * and the try list forgotten; the second time it gives up.
     */
    method AskSome(peers: seq<int>, self: int, net: Network)
      returns (numAsking: nat, gaveUp: bool, ghost offers: seq<Offer<PeerNode>>, ghost restarts: nat,
          ghost failed: map<nat, nat>)
      requires Valid() && ListGood(Abs()) && unAllot != [] && |unAllot| >= numRemaining && numMaxToTry == |peers| - 1
      modifies this`numTried, this`tryNodes, this`tryMap, this`unAllot, this`held, this`waiting, this`threshold
      ensures InRound(old(Abs()), offers, peers, self) && Asked() && numAsking == |offers| <= Max(1, numRemaining)
      ensures restarts <= 1 && threshold == if restarts == 0 then HIGH_THRESHOLD else MEDIUM_THRESHOLD
      ensures old(DistinctIds()) ==> DistinctIds()
      ensures gaveUp ==>
        restarts == 1 && numAsking < Max(1, numRemaining) && |peers| > 1 && self !in peers[..|peers| - 1]
      ensures numAsking < Max(1, numRemaining) ==>
        AllPassedOver(tryNodes, peers, self, net, failed, |peers| - if gaveUp then 1 else 0)
    {
      hide CanAsk, AskAll, ListGood, Ask, AllPassedOver, Task.DistinctIds, Task.InRound;
      threshold := HIGH_THRESHOLD;
      numAsking, gaveUp, offers, restarts, failed := 0, false, [], 0, map[];
      ghost var before := Abs();
      var i, attempts := 0, 0;
      RoundBegins(peers, self);
      NonePassedOver(peers, self, net, failed);
      while i < |peers|
        invariant i <= |peers| && restarts <= 1 && InRound(before, offers, peers, self) && Asked()
        invariant numAsking == |offers| < Max(1, numRemaining)
        invariant threshold == if restarts == 0 then HIGH_THRESHOLD else MEDIUM_THRESHOLD
        invariant old(DistinctIds()) ==> DistinctIds()
        invariant AllPassedOver(tryNodes, peers, self, net, failed, i)
        invariant restarts == 1 ==> i > 0 && numTried <= i
        invariant restarts == 1 && self in peers[..i] ==> numTried < i
        decreases 1 - restarts, |peers| - i
      {
        if numTried >= numMaxToTry {
          if threshold <= MEDIUM_THRESHOLD {
            gaveUp := true;
            return;
          }
          LowerThreshold();
          restarts := restarts + 1;
          i := 0;
          NonePassedOver(peers, self, net, failed);
        }
        OpenInRound(before, offers, peers, self);
        var asked;
        asked, attempts, offers, failed := Consider(peers, self, net, i, attempts, failed, before, offers);
        if asked {
          numAsking := numAsking + 1;
          if numAsking >= numRemaining {
            return;
          }
        }
        i := i + 1;
      }
    }

    lemma RoundBegins(peers: seq<int>, self: int)
      requires Informed()
      ensures InRound(Abs(), [], peers, self)
    {
      NoOffers(Abs());
    }

    /** The list the next parameter is taken from is not empty. */
    lemma OpenInRound(before: State<PeerNode>, offers: seq<Offer<PeerNode>>, peers: seq<int>, self: int)
      requires ListGood(before) && before.unAllot != [] && |before.unAllot| >= before.remaining
      requires InRound(before, offers, peers, self) && |offers| < Max(1, before.remaining)
      ensures unAllot != []
    {
      hide CanAsk, AskAll, ListGood;
      OpenWhileAsking(before, offers);
    }

    /** A round that found too few nodes cancels the task. */
    method Conclude(numAsking: nat, gaveUp: bool, ghost before: State<PeerNode>,
        ghost offers: seq<Offer<PeerNode>>) returns (result: int)
      requires Valid() && CanAsk(before, offers) && Abs() == AskAll(before, offers) &&
          numAsking == |offers| <= Max(1, numRemaining)
      requires before.remaining == numRemaining && (gaveUp ==> numAsking < Max(1, numRemaining))
      modifies this`numRemaining, this`tryNodes, this`taskNodes, this`peerMap, this`tryMap, this`stopped,
          this`waiting, this`running
      ensures Valid() && Round(before, Abs(), Asking(offers, gaveUp))
      ensures tryNodes == if FallsShort(before, Asking(offers, gaveUp)) then [] else old(tryNodes)
      ensures result == if gaveUp then -1 else 0
    {
      hide CanAsk, AskAll, Task.Valid;
      if gaveUp || numAsking < numRemaining {
        TaskCancel();
        return if gaveUp then -1 else 0;
      }
      numRemaining := numRemaining - numAsking;
      result := 0;
    }

    /** What a round that had to find that many nodes has to show for itself. */
    ghost predicate Searched(asking: Asking<PeerNode>, search: Search, peers: seq<int>, self: int, net: Network,
        missing: int)
      reads this`held, held.Keys, this`threshold, this`tryNodes, this`stopped, search.tried
    {
      search.restarts <= 1 && threshold == (if search.restarts == 0 then HIGH_THRESHOLD else MEDIUM_THRESHOLD) &&
      Recipients(held.Keys, asking.offers, peers, self) &&
      (asking.gaveUp ==> search.restarts == 1 && |peers| > 1 && self !in peers[..|peers| - 1]) &&
      (forall n :: n in search.tried ==> n in held) && tryNodes == (if stopped then [] else search.tried) &&
      (|asking.offers| < Max(1, missing) ==>
         AllPassedOver(search.tried, peers, self, net, search.failed, |peers| - if asking.gaveUp then 1 else 0))
    }

    /**
     * A round of asking. It gives up only when, with the lower threshold, every listed peer but the last
     * was tried, this peer not being among them. The task is cancelled exactly when it gives up or finds
     * fewer nodes than are missing; and then, as in any round that asks too few, every listed peer (but the
     * last, if it gave up) was passed over for a reason.
     */
    method AskPeers(peers: seq<int>, self: int, net: Network)
      returns (result: int, ghost asking: Asking<PeerNode>, ghost search: Search)
      requires Valid() && !stopped && Safe(Abs()) && unAllot != [] && |unAllot| >= numRemaining
      modifies this`numTried, this`tryNodes, this`tryMap, this`unAllot, this`held, this`waiting, this`threshold
      modifies this`numMaxToTry, this`numRemaining, this`taskNodes, this`peerMap, this`stopped, this`running
      ensures Valid() && Round(old(Abs()), Abs(), asking)
      ensures stopped <==> asking.gaveUp || |asking.offers| < old(numRemaining)
      ensures result == if asking.gaveUp then -1 else 0
      ensures Searched(asking, search, peers, self, net, old(numRemaining)) && (old(DistinctIds()) ==> DistinctIds())
    {
      hide CanAsk, AskAll, ListGood, Covered, Exclusive, Listed, Quiet, Round, Recipients, AllPassedOver,
          Task.DistinctIds, Task.Informed;
      numMaxToTry := |peers| - 1;
      ghost var before := Abs();
      var numAsking, gaveUp;
      ghost var offers, restarts, failed;
      numAsking, gaveUp, offers, restarts, failed := AskSome(peers, self, net);
      asking, search := Asking(offers, gaveUp), Search(restarts, failed, tryNodes);
      result := Conclude(numAsking, gaveUp, before, offers);
      RoundKeeps(before, Abs(), asking);
      NothingTried();
    }

    /** The first round; a task without parameters has nothing to offer and must not be started. */
    method Start(peers: seq<int>, self: int, net: Network)
      returns (ghost asking: Asking<PeerNode>, ghost search: Search)
      requires Valid() && Initial(Abs())
      modifies this
      ensures Valid() && Round(old(Abs()), Abs(), asking) && Quiet(Abs()) && Orderly(Abs())
      ensures Searched(asking, search, peers, self, net, old(numRemaining)) && (stopped || Ready())
    {
      hide Quiet, Exclusive, Listed, Round, Safe, Task.Valid, Task.Searched;
      ghost var before := Abs();
      InitialSafe(before);
      var result;
      result, asking, search := AskPeers(peers, self, net);
      RoundKeeps(before, Abs(), asking);
      SearchedThreshold(asking, search, peers, self, net, old(numRemaining));
    }

    lemma NothingTried()
      ensures tryNodes == [] ==> DistinctIds()
    {
    }

    // ---------- Messages ----------

    /** Every node of the task was asked by it. */
    ghost predicate Ready()
      reads this, held.Keys
    {
      Valid() && !stopped && Quiet(Abs()) && ThresholdSet()
    }

    ghost predicate ThresholdSet()
      reads this`threshold
    {
      threshold == HIGH_THRESHOLD || threshold == MEDIUM_THRESHOLD
    }

    /** The answer to a request: a refusal reopens the parameter and starts a round. */
    method HandleTaskRequestResponse(pNode: PeerNode, status: bool, history: History, peers: seq<int>, self: int,
        net: Network)
      returns (ghost asking: Asking<PeerNode>, ghost search: Search)
      requires Ready() && pNode in held
      requires !(status && Welcome(history, threshold)) ==> held[pNode] in tryMap
      modifies this
      ensures Valid() && Quiet(Abs()) && (stopped || Ready())
      ensures old(status && Welcome(history, threshold)) ==> Abs() == Accept(old(Abs()), pNode)
      ensures old(!(status && Welcome(history, threshold))) ==>
        Next(old(Abs()), Refused(pNode, asking), Abs()) && Searched(asking, search, peers, self, net, old(numRemaining))
      ensures old(Orderly(Abs())) && pNode in old(waiting) ==> Orderly(Abs())
    {
      hide Quiet, Orderly, Round, Accept, Refuse, Covered, Welcome, Eligibility, Task.Valid, Task.Searched;
      asking, search := Asking([], false), Search(0, map[], []);
      EligibleExactly(history, threshold);
      var accepted := status && Eligibility(history) >= threshold;
      if accepted {
        Accepting(pNode);
      } else {
        ghost var before := Abs();
        Refusing(pNode);
        var result;
        result, asking, search := AskPeers(peers, self, net);
        NextKeeps(before, Refused(pNode, asking), Abs());
        SearchedThreshold(asking, search, peers, self, net, old(numRemaining));
      }
    }

    lemma SearchedThreshold(asking: Asking<PeerNode>, search: Search, peers: seq<int>, self: int, net: Network,
        missing: int)
      requires Searched(asking, search, peers, self, net, missing)
      ensures ThresholdSet()
    {
    }

    method Accepting(pNode: PeerNode)
      requires Ready() && pNode in held
      modifies this`numRemaining, this`taskNodes, this`peerMap, this`tryMap, this`waiting, this`running
      ensures Valid() && Abs() == Accept(old(Abs()), pNode) && Quiet(Abs())
      ensures old(Orderly(Abs())) && pNode in old(waiting) ==> Orderly(Abs())
    {
      hide Quiet, Orderly, Accept, Clean, Task.Valid;
      ghost var before := Abs();
      Allotting(pNode);
      NextKeeps(before, Accepted(pNode), Abs());
    }

    lemma ParamKnown(pNode: PeerNode)
      requires Informed() && pNode in held
      ensures pNode.paramIndex == held[pNode]
    {
    }

    method Allotting(pNode: PeerNode)
      requires Valid() && pNode in held
      modifies this`numRemaining, this`taskNodes, this`peerMap, this`tryMap, this`waiting, this`running
      ensures Valid() && Abs() == Accept(old(Abs()), pNode)
    {
      hide Task.Informed, Task.Asked;
      ParamKnown(pNode);
      var paramIndex := pNode.paramIndex;
      numRemaining := numRemaining - 1;
      taskNodes := taskNodes + [pNode];
      peerMap := peerMap[paramIndex := pNode];
      tryMap := Erase(tryMap, paramIndex);
      Starting(pNode);
    }

    ghost method Starting(pNode: PeerNode)
      modifies this`waiting, this`running
      ensures Abs() == old(Abs()).(waiting := old(waiting) - {pNode}, running := old(running) + {pNode})
    {
      waiting, running := waiting - {pNode}, running + {pNode};
    }

    method Reopening(paramIndex: int)
      modifies this`unAllot
      ensures unAllot == Reopen(old(unAllot), paramIndex)
    {
      if paramIndex !in unAllot {
        unAllot := unAllot + [paramIndex];
      }
    }

    method Refusing(pNode: PeerNode)
      requires Ready() && pNode in held && held[pNode] in tryMap
      modifies this`tryMap, this`unAllot, this`waiting
      ensures Valid() && Abs() == Refuse(old(Abs()), pNode) && Safe(Abs()) && unAllot != [] && numRemaining <= 0
    {
      hide ListGood, Covered, Exclusive, Listed, NoOther, Reopen, Without, FirstById;
      ghost var before := Abs();
      var paramIndex := pNode.paramIndex;
      tryMap := tryMap - {paramIndex};
      Reopening(paramIndex);
      waiting := waiting - {pNode};
      RefuseKeeps(before, pNode);
    }

    /** The answer to the order to execute: a failure reopens the parameter and starts a round. */
    method HandleTaskExecuteResponse(pNode: PeerNode, status: bool, peers: seq<int>, self: int, net: Network)
      returns (ghost asking: Asking<PeerNode>, ghost search: Search, ghost dropped: nat)
      requires Ready() && pNode in held
      modifies this
      ensures Valid() && Quiet(Abs()) && (stopped || Ready()) && dropped == old(FirstById(taskNodes, pNode.peerId, 0))
      ensures if status then Abs() == old(Abs()) && tryNodes == old(tryNodes) else
        Next(old(Abs()), Failed(pNode, dropped, asking), Abs()) &&
        Searched(asking, search, peers, self, net, old(numRemaining) + 1)
      ensures old(Orderly(Abs()) && pNode in running && Drops(Abs(), pNode, FirstById(taskNodes, pNode.peerId, 0))) ==>
        Orderly(Abs())
    {
      hide Quiet, Orderly, Round, GiveBack, Covered, Task.Valid, Task.Searched;
      asking, search, dropped := Asking([], false), Search(0, map[], []), FirstById(taskNodes, pNode.peerId, 0);
      if !status {
        ghost var before := Abs();
        dropped := GivingBack(pNode);
        var result;
        result, asking, search := AskPeers(peers, self, net);
        NextKeeps(before, Failed(pNode, dropped, asking), Abs());
        SearchedThreshold(asking, search, peers, self, net, old(numRemaining) + 1);
      }
    }

    method GivingBack(pNode: PeerNode) returns (ghost dropped: nat)
      requires Ready() && pNode in held
      modifies this`numRemaining, this`taskNodes, this`peerMap, this`unAllot, this`running
      ensures dropped == old(FirstById(taskNodes, pNode.peerId, 0))
      ensures Valid() && Abs() == GiveBack(old(Abs()), pNode, dropped) && Safe(Abs()) && unAllot != [] &&
          numRemaining == old(numRemaining) + 1 <= 1
    {
      hide ListGood, Covered, Exclusive, Listed, NoOther, GiveBack, FirstById, Task.Valid;
      ghost var before := Abs();
      dropped := Withdrawing(pNode);
      GiveBackKeeps(before, pNode, dropped);
    }

    method Withdrawing(pNode: PeerNode) returns (ghost dropped: nat)
      requires Valid() && pNode in held
      modifies this`numRemaining, this`taskNodes, this`peerMap, this`unAllot, this`running
      ensures dropped == old(FirstById(taskNodes, pNode.peerId, 0))
      ensures Valid() && Abs() == GiveBack(old(Abs()), pNode, dropped) && numRemaining == old(numRemaining) + 1
    {
      hide Reopen, Without, FirstById, Task.Informed, Task.Asked;
      ParamKnown(pNode);
      var paramIndex := pNode.paramIndex;
      numRemaining := numRemaining + 1;
      dropped := RemovePeerFromFinalNodes(pNode);
      peerMap := Erase(peerMap, paramIndex);
      Reopening(paramIndex);
      running := running - {pNode};
    }

    /**
     * The task node removed by its identity is the node meant exactly when no task node before it stands for
     * the same peer; so always when the task nodes stand for different peers.
     */
    lemma RemovedById(pNode: PeerNode)
      requires Listed(Abs())
      ensures Drops(Abs(), pNode, FirstById(taskNodes, pNode.peerId, 0))
         <==> forall i, j :: 0 <= i < j < |taskNodes| && taskNodes[j] == pNode ==> taskNodes[i].peerId != pNode.peerId
    {
      var k := FirstById(taskNodes, pNode.peerId, 0);
      if pNode in taskNodes {
        var j :| 0 <= j < |taskNodes| && taskNodes[j] == pNode;
        assert k <= j;
        if k < j {
          assert taskNodes[k].peerId == pNode.peerId && taskNodes[k] != pNode;
        }
      }
    }

    /** The first node that stands for the same peer is removed, whichever instance it is. */
    method RemovePeerFromFinalNodes(pNode: PeerNode) returns (ghost k: nat)
      modifies this`taskNodes
      ensures k == old(FirstById(taskNodes, pNode.peerId, 0)) && taskNodes == Without(old(taskNodes), k)
    {
      var at := FindById(taskNodes, pNode.peerId);
      k := at;
      if at < |taskNodes| {
        taskNodes := taskNodes[..at] + taskNodes[at + 1..];
      }
    }

    method RemovePeerFromTryNodes(pNode: PeerNode)
      modifies this`tryNodes
      ensures old(Asked()) ==> Asked()
      ensures tryNodes == Without(old(tryNodes), old(FirstById(tryNodes, pNode.peerId, 0)))
    {
      var at := FindById(tryNodes, pNode.peerId);
      if at < |tryNodes| {
        tryNodes := tryNodes[..at] + tryNodes[at + 1..];
      }
    }

    /**
     * A broken connection counts only for a task node that still stands for the peer and has not delivered
     * its result; for any other node, even one that was asked and has not answered, nothing happens.
     */
    method HandlePeerConnFailure(pNode: PeerNode, remotePeer: int, peers: seq<int>, self: int, net: Network)
      returns (ghost asking: Asking<PeerNode>, ghost search: Search, ghost dropped: nat)
      requires Ready()
      modifies this
      ensures Valid() && Quiet(Abs()) && (stopped || Ready())
      ensures old(pNode in taskNodes && pNode.peerId == remotePeer && pNode !in resultAvailable)
        ==> Next(old(Abs()), Lost(pNode, dropped, asking), Abs()) &&
            Searched(asking, search, peers, self, net, old(numRemaining) + 1)
      ensures !old(pNode in taskNodes && pNode.peerId == remotePeer && pNode !in resultAvailable)
        ==> Abs() == old(Abs()) && tryNodes == old(tryNodes)
      ensures old(Orderly(Abs())) ==> Orderly(Abs())
    {
      hide Quiet, Orderly, Next, Task.Valid, Task.Searched;
      asking, search, dropped := Asking([], false), Search(0, map[], []), 0;
      var index := FindInstance(pNode, remotePeer);
      if index < |taskNodes| {
        dropped := index;
        asking, search := Replacing(pNode, index, peers, self, net);
      }
    }

    /** The task node at that position is lost and another one is looked for. */
    method Replacing(pNode: PeerNode, index: nat, peers: seq<int>, self: int, net: Network)
      returns (ghost asking: Asking<PeerNode>, ghost search: Search)
      requires Ready() && index < |taskNodes| && taskNodes[index] == pNode
      modifies this
      ensures Valid() && Quiet(Abs()) && (stopped || Ready()) && (old(Orderly(Abs())) ==> Orderly(Abs()))
      ensures Next(old(Abs()), Lost(pNode, index, asking), Abs()) &&
        Searched(asking, search, peers, self, net, old(numRemaining) + 1)
    {
      hide Quiet, Orderly, Round, Disconnect, Covered, Clean, Task.Informed, Task.Searched;
      ghost var before := Abs();
      ListedHeld(index);
      Disconnecting(pNode, index);
      RemovePeerFromTryNodes(pNode);
      var result;
      result, asking, search := AskPeers(peers, self, net);
      NextKeeps(before, Lost(pNode, index, asking), Abs());
      SearchedThreshold(asking, search, peers, self, net, old(numRemaining) + 1);
    }

    method FindInstance(pNode: PeerNode, remotePeer: int) returns (index: nat)
      ensures index <= |taskNodes| && (index < |taskNodes| ==> taskNodes[index] == pNode)
      ensures index < |taskNodes| <==> pNode in taskNodes && pNode.peerId == remotePeer && pNode !in resultAvailable
    {
      index := 0;
      while index < |taskNodes|
        invariant index <= |taskNodes|
        invariant forall j :: 0 <= j < index && taskNodes[j] == pNode ==>
          pNode.peerId != remotePeer || pNode in resultAvailable
      {
        if taskNodes[index].peerId == remotePeer && pNode !in resultAvailable && pNode == taskNodes[index] {
          return;
        }
        index := index + 1;
      }
    }

    lemma ListedHeld(index: nat)
      requires Quiet(Abs()) && index < |taskNodes|
      ensures taskNodes[index] in held
    {
    }

    method RemoveTaskNode(index: nat)
      requires index < |taskNodes|
      modifies this`taskNodes
      ensures taskNodes == Without(old(taskNodes), index)
    {
      taskNodes := taskNodes[..index] + taskNodes[index + 1..];
    }

    method Disconnecting(pNode: PeerNode, index: nat)
      requires Ready() && pNode in held && index < |taskNodes| && taskNodes[index] == pNode
      modifies this`numRemaining, this`taskNodes, this`peerMap, this`tryMap, this`unAllot, this`running
      ensures Valid() && Abs() == Disconnect(old(Abs()), pNode, index) && Safe(Abs()) && unAllot != [] &&
          numRemaining == old(numRemaining) + 1 <= 1
    {
      hide ListGood, Covered, Exclusive, Listed, NoOther, Disconnect, FirstById, Task.Valid;
      ghost var before := Abs();
      Forgetting(pNode, index);
      DisconnectKeeps(before, pNode, index);
    }

    method Forgetting(pNode: PeerNode, index: nat)
      requires Valid() && pNode in held && index < |taskNodes|
      modifies this`numRemaining, this`taskNodes, this`peerMap, this`tryMap, this`unAllot, this`running
      ensures Valid() && Abs() == Disconnect(old(Abs()), pNode, index) && numRemaining == old(numRemaining) + 1
    {
      hide Reopen, FirstById, Without, Task.Informed, Task.Asked;
      ParamKnown(pNode);
      var paramIndex := pNode.paramIndex;
      tryMap := Erase(tryMap, paramIndex);
      peerMap := Erase(peerMap, paramIndex);
      Reopening(paramIndex);
      RemoveTaskNode(index);
      numRemaining := numRemaining + 1;
      running := running - {pNode};
    }

    /** The outcome of an execution; a message without a task map is ignored. */
    method HandleTaskResult(pNode: PeerNode, taskMapEmpty: bool, param: text, status: bool, result: seq<text>)
      requires Ready()
      modifies this`taskNodes, this`tryNodes, this`numResults, this`resultList, this`paramResults, this`resultAvailable
      ensures Ready() && (old(Orderly(Abs())) ==> Orderly(Abs()))
      ensures Abs() == if taskMapEmpty then old(Abs()) else Drop(old(Abs()), old(FirstById(taskNodes, pNode.peerId, 0)))
      ensures numResults == old(numResults) + if taskMapEmpty then 0 else 1
      ensures resultList == old(resultList) + if !taskMapEmpty && status then [result] else []
      ensures paramResults ==
        if !taskMapEmpty && status then old(paramResults)[FirstParam(params, param, 0) := result] else old(paramResults)
      ensures resultAvailable == old(resultAvailable) + if !taskMapEmpty && status then {pNode} else {}
    {
      hide Quiet, Orderly, FirstById, FirstParam, Drop, Task.Valid;
      if taskMapEmpty {
        return;
      }
      var paramIndex := FindParam(param);
      Dropping(pNode);
      Record(pNode, paramIndex, status, result);
    }

    method Dropping(pNode: PeerNode)
      requires Ready()
      modifies this`taskNodes, this`tryNodes
      ensures Ready() && (old(Orderly(Abs())) ==> Orderly(Abs()))
      ensures Abs() == Drop(old(Abs()), old(FirstById(taskNodes, pNode.peerId, 0)))
    {
      hide ListGood, Covered, Exclusive, Listed, FirstById, Without, Task.Informed, Task.Asked;
      ghost var before := Abs();
      ghost var k := RemovePeerFromFinalNodes(pNode);
      RemovePeerFromTryNodes(pNode);
      ResultKeeps(before, k);
    }

    method Record(pNode: PeerNode, paramIndex: int, status: bool, result: seq<text>)
      modifies this`numResults, this`resultList, this`paramResults, this`resultAvailable
      ensures numResults == old(numResults) + 1 && resultList == old(resultList) + if status then [result] else []
      ensures paramResults == if status then old(paramResults)[paramIndex := result] else old(paramResults)
      ensures resultAvailable == old(resultAvailable) + if status then {pNode} else {}
    {
      numResults := numResults + 1;
      if status {
        resultList := resultList + [result];
        paramResults := paramResults[paramIndex := result];
        resultAvailable := resultAvailable + {pNode};
      }
    }

    method FindParam(param: text) returns (paramIndex: int)
      ensures paramIndex == FirstParam(params, param, 0)
    {
      paramIndex := -1;
      var i := 0;
      while i < |params|
        invariant i <= |params| && FirstParam(params, param, 0) == FirstParam(params, param, i) && paramIndex == -1
      {
        if params[i] == param {
          return i;
        }
        i := i + 1;
      }
    }
  }

  /** Erases an entry if it is there. */
  method Erase(m: map<int, PeerNode>, p: int) returns (r: map<int, PeerNode>)
    ensures r == m - {p}
  {
    r := if p in m then m - {p} else m;
  }

  method FindById(nodes: seq<PeerNode>, peerId: int) returns (at: nat)
    ensures at == FirstById(nodes, peerId, 0)
  {
    at := 0;
    while at < |nodes|
      invariant at <= |nodes| && FirstById(nodes, peerId, 0) == FirstById(nodes, peerId, at)
    {
      if nodes[at].peerId == peerId {
        return;
      }
      at := at + 1;
    }
  }

  lemma NoOffers<N>(s: State<N>)
    ensures CanAsk(s, []) && AskAll(s, []) == s
  {
  }

  lemma MoreOffers<N>(s: State<N>, offers: seq<Offer<N>>, o: Offer<N>)
    requires CanAsk(s, offers) && AskAll(s, offers).unAllot != [] && o.node !in AskAll(s, offers).held
    ensures CanAsk(s, offers + [o]) && AskAll(s, offers + [o]) == Ask(AskAll(s, offers), o)
  {
    assert (offers + [o])[..|offers|] == offers;
  }
}
