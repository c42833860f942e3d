/** The distributed key generation: one node's receiving loop and worker that share two lists, and the
    node that sets the protocol up. */
module Dkg {
  import opened Wrappers

  type Deal = string
  type Response = string

  /** The last state that the node reported. */
  datatype Status = Initialized | Dealing | Responding | Certifying | Certified

  /** Where the worker stands: not there yet, about to start, in one of its steps, or gone. */
  datatype Worker = Absent | Launched | InDeal | InRespond | InCertify | InFinalize | Ended

  /** The protocol library: whether a generator can be made for some keys and a threshold, whether the
      processed messages certify, and the key they then give; and the Byzantine threshold of n nodes. */
  datatype Library = Library(
    threshold: nat -> nat,
    generator: (seq<string>, nat) -> bool,
    certified: (seq<Deal>, seq<Response>) -> bool,
    distKey: (seq<Deal>, seq<Response>) -> Option<int>)

  /** The shared lists, the worker's progress, and what was received and taken so far. A closed node
      receives nothing more. */
  datatype Node = Node(
    status: Status, worker: Worker, closed: bool, participants: nat, threshold: nat,
    deals: seq<Deal>, responses: seq<Response>,
    takenDeals: seq<Deal>, takenResponses: seq<Response>,
    receivedDeals: seq<Deal>, receivedResponses: seq<Response>,
    distKey: Option<int>)

  const FRESH := Node(Initialized, Absent, false, 0, 0, [], [], [], [], [], [], None)

  /** An atomic action: the receiving loop handles a message, or the worker takes its next turn. For a
      decrypt request it is given whether the shares could be submitted, for a key request whether the answer
      could be sent. */
  datatype Action =
    | ReceiveDeal(deal: Deal)
    | ReceiveResponse(response: Response)
    | ReceiveStart(start: Start)
    | ReceiveDecryptRequest(submitted: bool)
    | ReceiveKeyRequest(answered: bool)
    | ReceiveUnexpected
    | Work

  /** Pairs every address with the key that came from it. */
  datatype Start = Start(addresses: seq<string>, publicKeys: seq<string>)

  /** The start message fits and a generator can be made from it. */
  predicate CanStart(lib: Library, start: Start) {
    |start.addresses| == |start.publicKeys| && lib.generator(start.publicKeys, lib.threshold(|start.publicKeys|))
  }

  /** The worker's turn. An empty list makes it wait; without a key share it ends in its last state. */
  function WorkTurn(lib: Library, s: Node): (t: Node) {
    match s.worker
    case Launched => s.(status := Dealing, worker := InDeal)
    case InDeal => s.(status := Responding, worker := InRespond)
    case InRespond =>
      if |s.takenDeals| >= s.participants - 1 then s.(status := Certifying, worker := InCertify)
      else if s.deals == [] then s
      else s.(deals := s.deals[1..], takenDeals := s.takenDeals + [s.deals[0]])
    case InCertify =>
      if lib.certified(s.takenDeals, s.takenResponses) then s.(status := Certified, worker := InFinalize)
      else if s.responses == [] then s
      else s.(responses := s.responses[1..], takenResponses := s.takenResponses + [s.responses[0]])
    case InFinalize =>
      (match lib.distKey(s.takenDeals, s.takenResponses)
       case Some(k) => s.(worker := Ended, distKey := Some(k))
       case None => s.(worker := Ended))
    case _ => s
  }

  /** What the receiving loop does with a message. */
  function Handle(lib: Library, s: Node, a: Action): (t: Node) {
    match a
    case ReceiveDeal(d) => s.(deals := s.deals + [d], receivedDeals := s.receivedDeals + [d])
    case ReceiveResponse(r) => s.(responses := s.responses + [r], receivedResponses := s.receivedResponses + [r])
    case ReceiveStart(start) =>
      if CanStart(lib, start) then
        s.(worker := Launched, participants := |start.addresses|, threshold := lib.threshold(|start.publicKeys|))
      else s.(closed := true)
    case ReceiveDecryptRequest(_) => s.(closed := true)
    case ReceiveKeyRequest(answered) => s.(closed := !answered)
    case ReceiveUnexpected => s.(closed := true)
    case Work => s
  }

  /** The loop reports no error. A decrypt request needs a distributed key, and ends the loop in any case. */
  predicate Fine(lib: Library, s: Node, a: Action) {
    match a
    case ReceiveStart(start) => CanStart(lib, start)
    case ReceiveDecryptRequest(submitted) => s.distKey.Some? && submitted
    case ReceiveKeyRequest(answered) => answered
    case ReceiveUnexpected => false
    case _ => true
  }

  function Step(lib: Library, s: Node, a: Action): (t: Node) {
    if a.Work? then WorkTurn(lib, s) else if s.closed then s else Handle(lib, s, a)
  }

  function Schedule(lib: Library, actions: seq<Action>): (s: Node) {
    if actions == [] then FRESH else Step(lib, Schedule(lib, actions[..|actions| - 1]), actions[|actions| - 1])
  }

  /** The number of deals that a worker waits for. */
  function Needed(participants: nat): (n: nat) {
    if participants >= 1 then participants - 1 else 0
  }

  // ----- The node as it runs

  class Handler {
    const lib: Library
    var status: Status
    var worker: Worker
    var closed: bool
    var participants: nat
    var threshold: nat
    var deals: seq<Deal>
    var responses: seq<Response>
    var distKey: Option<int>
    var processedDeals: seq<Deal>
    var processedResponses: seq<Response>
    ghost var receivedDeals: seq<Deal>
    ghost var receivedResponses: seq<Response>

    ghost function State(): (s: Node)
      reads this
    {
      Node(status, worker, closed, participants, threshold, deals, responses,
           processedDeals, processedResponses, receivedDeals, receivedResponses, distKey)
    }

    constructor (lib: Library)
      ensures State() == FRESH && this.lib == lib
    {
      this.lib := lib;
      status, worker, closed, participants, threshold, distKey := Initialized, Absent, false, 0, 0, None;
      deals, responses, processedDeals, processedResponses := [], [], [], [];
      receivedDeals, receivedResponses := [], [];
    }

    /** One message of the receiving loop; an error ends the loop, and so does a decrypt request. */
    method Receive(a: Action) returns (ok: bool)
      requires !a.Work? && !closed
      modifies this
      ensures State() == Step(lib, old(State()), a)
      ensures ok <==> Fine(lib, old(State()), a)
      ensures a.ReceiveStart? ==>
                (ok <==> && |a.start.addresses| == |a.start.publicKeys|
                         && lib.generator(a.start.publicKeys, lib.threshold(|a.start.publicKeys|)))
      ensures !ok ==> State() == old(State()).(closed := true)
    {
      ok := true;
      match a {
        case ReceiveDeal(d) =>
          deals := deals + [d];
          receivedDeals := receivedDeals + [d];
        case ReceiveResponse(r) =>
          responses := responses + [r];
          receivedResponses := receivedResponses + [r];
        case ReceiveStart(start) =>
          if |start.addresses| != |start.publicKeys| {
            closed := true;
            return false;
          }
          var t := lib.threshold(|start.publicKeys|);
          if !lib.generator(start.publicKeys, t) {
            closed := true;
            return false;
          }
          participants, threshold := |start.addresses|, t;
          worker := Launched;
        case ReceiveDecryptRequest(submitted) =>
          closed := true;
          return distKey.Some? && submitted;
        case ReceiveKeyRequest(answered) =>
          closed := !answered;
          return answered;
        case ReceiveUnexpected =>
          closed := true;
          return false;
      }
    }

    /** One turn of the worker. */
    method WorkOnce()
      modifies this
      ensures State() == Step(lib, old(State()), Work)
    {
      match worker {
        case Launched =>
          status := Dealing;
          worker := InDeal;
        case InDeal =>
          status := Responding;
          worker := InRespond;
        case InRespond =>
          if |processedDeals| < participants - 1 {
            if |deals| > 0 {
              processedDeals := processedDeals + [deals[0]];
              deals := deals[1..];
            }
          } else {
            status := Certifying;
            worker := InCertify;
          }
        case InCertify =>
          if !lib.certified(processedDeals, processedResponses) {
            if |responses| > 0 {
              processedResponses := processedResponses + [responses[0]];
              responses := responses[1..];
            }
          } else {
            status := Certified;
            worker := InFinalize;
          }
        case InFinalize =>
          var key := lib.distKey(processedDeals, processedResponses);
          if key.Some? { distKey := key; }
          worker := Ended;
        case _ =>
      }
    }
  }

  // ----- Every interleaving

  ghost predicate OneStart(actions: seq<Action>) {
    forall i, j :: 0 <= i < j < |actions| ==> !(actions[i].ReceiveStart? && actions[j].ReceiveStart?)
  }

  ghost predicate NoStart(actions: seq<Action>) {
    forall i :: 0 <= i < |actions| ==> !actions[i].ReceiveStart?
  }

  predicate BeforeTaking(w: Worker) { w == Absent || w == Launched || w == InDeal }

  predicate PastCertification(w: Worker) { w == InFinalize || w == Ended }

  /** What the worker last reported. */
  predicate Reports(w: Worker, s: Status) {
    match w
    case Absent => s == Initialized case Launched => s == Initialized case InDeal => s == Dealing
    case InRespond => s == Responding case InCertify => s == Certifying
    case InFinalize => s == Certified case Ended => s == Certified
  }

  /** Nothing is lost, duplicated or reordered; the worker takes no more deals than it needs, all of them
      before it certifies, and the key appears only after certification. The threshold is that of the
      number of participants. */
  ghost predicate Inv(lib: Library, s: Node) {
    && s.receivedDeals == s.takenDeals + s.deals
    && s.receivedResponses == s.takenResponses + s.responses
    && Reports(s.worker, s.status)
    && (s.worker != Absent ==> s.threshold == lib.threshold(s.participants))
    && (BeforeTaking(s.worker) ==> s.takenDeals == [])
    && (BeforeTaking(s.worker) || s.worker == InRespond ==> s.takenResponses == [])
    && |s.takenDeals| <= Needed(s.participants)
    && (s.worker == InCertify || PastCertification(s.worker) ==> |s.takenDeals| == Needed(s.participants))
    && (PastCertification(s.worker) ==> lib.certified(s.takenDeals, s.takenResponses))
    && s.distKey == if s.worker == Ended then lib.distKey(s.takenDeals, s.takenResponses) else None
  }

  /** Taking the front of the queue keeps what was received. */
  lemma TakeFront<T>(taken: seq<T>, queue: seq<T>)
    requires queue != []
    ensures taken + queue == taken + [queue[0]] + queue[1..]
  {
  }

  lemma WorkKeepsInv(lib: Library, s: Node)
    requires Inv(lib, s)
    ensures Inv(lib, WorkTurn(lib, s))
  {
    match s.worker
    case InRespond =>
      if s.deals != [] { TakeFront(s.takenDeals, s.deals); }
    case InCertify =>
      if s.responses != [] { TakeFront(s.takenResponses, s.responses); }
    case _ =>
  }

  lemma {:induction false} IdleUntilStarted(lib: Library, actions: seq<Action>)
    requires NoStart(actions)
    ensures Schedule(lib, actions).worker == Absent
  {
    if actions != [] {
      IdleUntilStarted(lib, actions[..|actions| - 1]);
    }
  }

  /** The invariant holds in every interleaving of the receiving loop and the worker with one start. */
  lemma {:induction false} EveryInterleaving(lib: Library, actions: seq<Action>)
    requires OneStart(actions)
    ensures Inv(lib, Schedule(lib, actions))
  {
    if actions != [] {
      var front, a := actions[..|actions| - 1], actions[|actions| - 1];
      EveryInterleaving(lib, front);
      var s := Schedule(lib, front);
      match a
      case ReceiveDeal(d) => assert s.takenDeals + s.deals + [d] == s.takenDeals + (s.deals + [d]);
      case ReceiveResponse(r) => assert s.takenResponses + s.responses + [r] == s.takenResponses + (s.responses + [r]);
      case ReceiveStart(_) =>
        forall i | 0 <= i < |front|
          ensures !front[i].ReceiveStart?
        {
          assert actions[i] == front[i];
        }
        IdleUntilStarted(lib, front);
      case Work => WorkKeepsInv(lib, s);
      case _ =>
    }
  }

  /** The distributed key is set only from the first n-1 deals received, in order of arrival, and the
      responses received up to certification, whatever the interleaving. */
  lemma KeyFromFirstDeals(lib: Library, actions: seq<Action>)
    requires OneStart(actions) && Schedule(lib, actions).distKey.Some?
    ensures var s, n := Schedule(lib, actions), Needed(Schedule(lib, actions).participants);
            && n <= |s.receivedDeals| && s.takenDeals == s.receivedDeals[..n]
            && s.takenResponses <= s.receivedResponses
            && lib.certified(s.receivedDeals[..n], s.takenResponses)
            && s.distKey == lib.distKey(s.receivedDeals[..n], s.takenResponses)
  {
    EveryInterleaving(lib, actions);
  }

  /** A node that was started by a message for n participants works with the threshold of n, as the
      contract does for a roster of n. */
  lemma StartedThreshold(lib: Library, actions: seq<Action>, i: nat)
    requires OneStart(actions) && i < |actions| && actions[i].ReceiveStart?
    requires Schedule(lib, actions).worker != Absent
    ensures Schedule(lib, actions).participants == |actions[i].start.addresses|
    ensures Schedule(lib, actions).threshold == lib.threshold(|actions[i].start.addresses|)
  {
    EveryInterleaving(lib, actions);
    ParticipantsOf(lib, actions, i);
  }

  lemma {:induction false} ParticipantsOf(lib: Library, actions: seq<Action>, i: nat)
    requires OneStart(actions) && i < |actions| && actions[i].ReceiveStart?
    requires Schedule(lib, actions).worker != Absent
    ensures Schedule(lib, actions).participants == |actions[i].start.addresses|
  {
    var n := |actions| - 1;
    var front := actions[..n];
    if i < n {
      assert front[i] == actions[i];
      ParticipantsOf(lib, front, i);
    } else {
      forall j | 0 <= j < n
        ensures !front[j].ReceiveStart?
      {
        assert front[j] == actions[j];
      }
      IdleUntilStarted(lib, front);
    }
  }

  // ----- Progress

  /** The deals of a schedule, in the order of arrival. */
  function DealsOf(actions: seq<Action>): (deals: seq<Deal>) {
    if actions == [] then []
    else
      var front, a := DealsOf(actions[..|actions| - 1]), actions[|actions| - 1];
      if a.ReceiveDeal? then front + [a.deal] else front
  }

  function ResponsesOf(actions: seq<Action>): (responses: seq<Response>) {
    if actions == [] then []
    else
      var front, a := ResponsesOf(actions[..|actions| - 1]), actions[|actions| - 1];
      if a.ReceiveResponse? then front + [a.response] else front
  }

  /** How often the worker gets a turn. */
  function Turns(actions: seq<Action>): (n: nat) {
    if actions == [] then 0
    else Turns(actions[..|actions| - 1]) + (if actions[|actions| - 1].Work? then 1 else 0)
  }

  /** No message ends the loop: starts have as many addresses as keys and a generator, key requests are
      answered, and nothing else comes but deals and responses. */
  ghost predicate Undisturbed(lib: Library, actions: seq<Action>) {
    forall i :: 0 <= i < |actions| ==> Harmless(lib, actions[i])
  }

  predicate Harmless(lib: Library, a: Action) {
    match a
    case ReceiveStart(start) =>
      && |start.addresses| == |start.publicKeys|
      && lib.generator(start.publicKeys, lib.threshold(|start.publicKeys|))
    case ReceiveKeyRequest(answered) => answered
    case ReceiveDecryptRequest(_) => false
    case ReceiveUnexpected => false
    case _ => true
  }

  /** Undisturbed, a node receives every deal and every response. */
  lemma {:induction false} AllReceived(lib: Library, actions: seq<Action>)
    requires Undisturbed(lib, actions)
    ensures var s := Schedule(lib, actions);
            !s.closed && s.receivedDeals == DealsOf(actions) && s.receivedResponses == ResponsesOf(actions)
  {
    if actions != [] {
      var front := actions[..|actions| - 1];
      assert forall i :: 0 <= i < |front| ==> front[i] == actions[i];
      AllReceived(lib, front);
      assert Harmless(lib, actions[|actions| - 1]);
    }
  }

  /** The messages with which the node certifies: the given deals, and the shortest list of responses that
      certifies with them. */
  ghost predicate CertifyFirst(lib: Library, deals: seq<Deal>, responses: seq<Response>) {
    && lib.certified(deals, responses)
    && forall m :: 0 <= m < |responses| ==> !lib.certified(deals, responses[..m])
  }

  /** The node is on its way to certify with these messages. */
  ghost predicate OnTrack(lib: Library, s: Node, deals: seq<Deal>, responses: seq<Response>) {
    && s.worker != Absent && Needed(s.participants) == |deals|
    && s.takenDeals <= deals && s.takenResponses <= responses
    && (s.worker == InFinalize || s.worker == Ended ==> s.takenDeals == deals && s.takenResponses == responses)
    && (s.worker == InCertify ==> s.takenDeals == deals)
    && (s.worker != InCertify && s.worker != InFinalize && s.worker != Ended ==> s.takenResponses == [])
  }

  /** How many turns the worker still needs. */
  function Left(s: Node, deals: nat, responses: nat): (n: int) {
    match s.worker
    case Absent => 5 + deals + responses
    case Launched => 5 + deals + responses
    case InDeal => 4 + deals + responses
    case InRespond => 3 + (deals - |s.takenDeals|) + responses
    case InCertify => 2 + (responses - |s.takenResponses|)
    case InFinalize => 1
    case Ended => 0
  }

  /** The messages have arrived. */
  ghost predicate Arrived(s: Node, deals: seq<Deal>, responses: seq<Response>) {
    deals <= s.receivedDeals && responses <= s.receivedResponses
  }

  lemma PrefixExtends<T>(taken: seq<T>, queue: seq<T>, all: seq<T>, target: seq<T>)
    requires all == taken + queue && taken <= target <= all && taken != target
    ensures queue != [] && taken + [queue[0]] <= target
  {
    assert |taken| < |target|;
    assert all[|taken|] == queue[0] == target[|taken|];
  }

  lemma PrefixProper<T>(taken: seq<T>, target: seq<T>)
    requires taken <= target
    ensures taken == target[..|taken|] && (taken == target <==> |taken| == |target|)
  {
  }

  /** A turn brings a node on its way closer, once the messages are there. */
  lemma TurnProgress(lib: Library, s: Node, deals: seq<Deal>, responses: seq<Response>)
    requires Inv(lib, s) && OnTrack(lib, s, deals, responses) && Arrived(s, deals, responses)
    requires CertifyFirst(lib, deals, responses)
    ensures var t := WorkTurn(lib, s);
            && OnTrack(lib, t, deals, responses)
            && Left(t, |deals|, |responses|) <= Down(Left(s, |deals|, |responses|), 1)
  {
    PrefixProper(s.takenDeals, deals);
    PrefixProper(s.takenResponses, responses);
    if s.worker == InRespond && |s.takenDeals| < |deals| {
      PrefixExtends(s.takenDeals, s.deals, s.receivedDeals, deals);
    }
    if s.worker == InCertify && |s.takenResponses| < |responses| {
      PrefixExtends(s.takenResponses, s.responses, s.receivedResponses, responses);
    }
  }

  /** The messages of a longer schedule begin with those of a shorter one. */
  lemma {:induction false} MessagesGrow(front: seq<Action>, rest: seq<Action>)
    ensures DealsOf(front) <= DealsOf(front + rest) && ResponsesOf(front) <= ResponsesOf(front + rest)
    ensures Turns(front + rest) == Turns(front) + Turns(rest)
  {
    if rest == [] {
      assert front + rest == front;
    } else {
      var less := rest[..|rest| - 1];
      MessagesGrow(front, less);
      assert (front + rest)[..|front + rest| - 1] == front + less;
    }
  }

  /** What the worker has taken by itself stays on the way to the messages that certify first. */
  lemma {:induction false} AlwaysOnTrack(lib: Library, actions: seq<Action>, i: nat, deals: seq<Deal>,
      responses: seq<Response>)
    requires OneStart(actions) && Undisturbed(lib, actions) && i < |actions| && actions[i].ReceiveStart?
    requires |deals| == Needed(|actions[i].start.addresses|)
    requires deals <= DealsOf(actions) && responses <= ResponsesOf(actions) && CertifyFirst(lib, deals, responses)
    ensures OnTrack(lib, Schedule(lib, actions), deals, responses)
  {
    var s := Schedule(lib, actions);
    EveryInterleaving(lib, actions);
    AllReceived(lib, actions);
    NotAbsent(lib, actions, i);
    ParticipantsOf(lib, actions, i);
    TakenFirst(lib, actions);
    assert s.takenDeals <= s.receivedDeals && s.takenResponses <= s.receivedResponses;
    assert s.takenDeals <= deals by { Comparable(s.takenDeals, deals, s.receivedDeals); }
    if PastCertification(s.worker) || s.worker == InCertify {
      PrefixProper(s.takenDeals, deals);
      assert s.takenDeals == deals;
      ShortestFirst(lib, deals, s.takenResponses, responses, s.receivedResponses);
      if PastCertification(s.worker) { PrefixProper(s.takenResponses, responses); }
    }
  }

  lemma Comparable<T>(a: seq<T>, b: seq<T>, all: seq<T>)
    requires a <= all && b <= all && |a| <= |b|
    ensures a <= b
  {
    assert forall k :: 0 <= k < |a| ==> a[k] == all[k] == b[k];
  }

  /** The taken responses have no shorter prefix that certifies. */
  ghost predicate TakenShortest(lib: Library, s: Node) {
    forall m :: 0 <= m < |s.takenResponses| ==> !lib.certified(s.takenDeals, s.takenResponses[..m])
  }

  lemma TurnShortest(lib: Library, s: Node)
    requires Inv(lib, s) && TakenShortest(lib, s)
    ensures TakenShortest(lib, WorkTurn(lib, s))
  {
    var t := WorkTurn(lib, s);
    forall m | 0 <= m < |t.takenResponses|
      ensures !lib.certified(t.takenDeals, t.takenResponses[..m])
    {
      if m < |s.takenResponses| {
        assert t.takenResponses[..m] == s.takenResponses[..m];
      } else {
        assert t.takenResponses[..m] == s.takenResponses;
      }
    }
  }

  lemma {:induction false} TakenFirst(lib: Library, actions: seq<Action>)
    requires OneStart(actions)
    ensures TakenShortest(lib, Schedule(lib, actions))
  {
    if actions != [] {
      var front, a := actions[..|actions| - 1], actions[|actions| - 1];
      assert forall i :: 0 <= i < |front| ==> front[i] == actions[i];
      TakenFirst(lib, front);
      EveryInterleaving(lib, front);
      if a.Work? { TurnShortest(lib, Schedule(lib, front)); }
    }
  }

  lemma ShortestFirst(lib: Library, deals: seq<Deal>, taken: seq<Response>, responses: seq<Response>,
      all: seq<Response>)
    requires taken <= all && responses <= all && CertifyFirst(lib, deals, responses)
    requires forall m :: 0 <= m < |taken| ==> !lib.certified(deals, taken[..m])
    ensures taken <= responses
    ensures lib.certified(deals, taken) ==> taken == responses
  {
    if |responses| < |taken| {
      Comparable(responses, taken, all);
      PrefixProper(responses, taken);
    }
    Comparable(taken, responses, all);
    PrefixProper(taken, responses);
  }

  lemma {:induction false} NotAbsent(lib: Library, actions: seq<Action>, i: nat)
    requires OneStart(actions) && Undisturbed(lib, actions) && i < |actions| && actions[i].ReceiveStart?
    ensures Schedule(lib, actions).worker != Absent
  {
    var n := |actions| - 1;
    var front := actions[..n];
    assert forall j :: 0 <= j < n ==> front[j] == actions[j];
    AllReceived(lib, front);
    assert Harmless(lib, actions[n]);
    if i < n {
      NotAbsent(lib, front, i);
    }
  }

  /** One more action: a turn brings the worker closer, a message does not set it back. */
  lemma OneMore(lib: Library, before: seq<Action>, a: Action, i: nat, deals: seq<Deal>, responses: seq<Response>)
    requires OneStart(before + [a]) && Undisturbed(lib, before + [a]) && i < |before| && before[i].ReceiveStart?
    requires |deals| == Needed(|before[i].start.addresses|) && CertifyFirst(lib, deals, responses)
    requires deals <= DealsOf(before) && responses <= ResponsesOf(before)
    ensures Left(Schedule(lib, before + [a]), |deals|, |responses|)
         <= Down(Left(Schedule(lib, before), |deals|, |responses|), if a.Work? then 1 else 0)
  {
    var all := before + [a];
    assert all[..|all| - 1] == before && all[|all| - 1] == a;
    forall j | 0 <= j < |before|
      ensures before[j] == all[j] && Harmless(lib, before[j])
    {
    }
    assert Harmless(lib, a) by { assert all[|before|] == a; }
    EveryInterleaving(lib, before);
    AllReceived(lib, before);
    AlwaysOnTrack(lib, before, i, deals, responses);
    hide Inv, OnTrack, CertifyFirst, DealsOf, ResponsesOf, Left;
    if a.Work? {
      TurnProgress(lib, Schedule(lib, before), deals, responses);
    } else {
      MessageKeepsLeft(lib, before, a, i, |deals|, |responses|);
    }
  }

  lemma {:induction false} TurnsRunDown(lib: Library, front: seq<Action>, rest: seq<Action>, i: nat,
      deals: seq<Deal>, responses: seq<Response>)
    requires OneStart(front + rest) && Undisturbed(lib, front + rest) && i < |front| && front[i].ReceiveStart?
    requires |deals| == Needed(|front[i].start.addresses|)
    requires deals <= DealsOf(front) && responses <= ResponsesOf(front) && CertifyFirst(lib, deals, responses)
    ensures Left(Schedule(lib, front + rest), |deals|, |responses|) <= Down(5 + |deals| + |responses|, Turns(rest))
  {
    hide Schedule, Left, CertifyFirst, DealsOf, ResponsesOf, Harmless, OnTrack;
    if rest == [] {
      assert front + rest == front;
      AlwaysOnTrack(lib, front, i, deals, responses);
      LeftBounded(Schedule(lib, front), lib, deals, responses);
    } else {
      var less, a := rest[..|rest| - 1], rest[|rest| - 1];
      var before := front + less;
      assert front + rest == before + [a];
      forall j | 0 <= j < |before|
        ensures before[j] == (before + [a])[j]
      {
      }
      assert before[i] == front[i];
      MessagesGrow(front, less);
      TurnsRunDown(lib, front, less, i, deals, responses);
      OneMore(lib, before, a, i, deals, responses);
    }
  }

  function Down(n: int, turns: nat): (m: nat) {
    if turns <= n then n - turns else 0
  }

  lemma LeftBounded(s: Node, lib: Library, deals: seq<Deal>, responses: seq<Response>)
    requires OnTrack(lib, s, deals, responses)
    ensures Left(s, |deals|, |responses|) <= 5 + |deals| + |responses|
  {
  }

  /** A message does not set the worker back; there is no second start. */
  lemma MessageKeepsLeft(lib: Library, front: seq<Action>, a: Action, i: nat, deals: nat, responses: nat)
    requires OneStart(front + [a]) && i < |front| && front[i].ReceiveStart? && !a.Work?
    ensures Left(Step(lib, Schedule(lib, front), a), deals, responses) == Left(Schedule(lib, front), deals, responses)
  {
    hide Schedule;
    assert (front + [a])[i] == front[i] && (front + [a])[|front|] == a;
    assert !a.ReceiveStart?;
  }

  /** The shortest list of responses that certifies. */
  lemma {:induction false} Shortest(lib: Library, deals: seq<Deal>, responses: seq<Response>, m: nat) returns (k: nat)
    requires m <= |responses| && lib.certified(deals, responses[..m])
    ensures k <= m && CertifyFirst(lib, deals, responses[..k])
  {
    if j :| 0 <= j < m && lib.certified(deals, responses[..m][..j]) {
      assert responses[..m][..j] == responses[..j];
      k := Shortest(lib, deals, responses, j);
    } else {
      k := m;
    }
  }

  /** With enough turns the node finishes. One start that can be followed arrived for n participants, with at
      least n-1 deals, and m responses that certify with the first n-1 deals, all in any order and with any
      turns in between. Whatever harmless messages follow, after enough turns the node reports that it
      certified, and its distributed key is the one given by the first n-1 deals and the first responses that
      certify with them. */
  lemma EnoughTurnsFinish(lib: Library, front: seq<Action>, rest: seq<Action>, i: nat, m: nat) returns (k: nat)
    requires OneStart(front + rest) && Undisturbed(lib, front + rest) && i < |front| && front[i].ReceiveStart?
    requires |DealsOf(front)| + 1 >= |front[i].start.addresses| && m <= |ResponsesOf(front)|
    requires var n := |front[i].start.addresses|;
             lib.certified(DealsOf(front)[..if n == 0 then 0 else n - 1], ResponsesOf(front)[..m])
    requires Turns(rest) >= |front[i].start.addresses| + m + 5
    ensures k <= m
    ensures var n := |front[i].start.addresses|;
            var deals := DealsOf(front)[..if n == 0 then 0 else n - 1];
            && lib.certified(deals, ResponsesOf(front)[..k])
            && (forall j :: 0 <= j < k ==> !lib.certified(deals, ResponsesOf(front)[..j]))
            && Schedule(lib, front + rest).status == Certified
            && Schedule(lib, front + rest).distKey == lib.distKey(deals, ResponsesOf(front)[..k])
  {
    var deals := DealsOf(front)[..Needed(|front[i].start.addresses|)];
    k := Shortest(lib, deals, ResponsesOf(front), m);
    var responses := ResponsesOf(front)[..k];
    forall j | 0 <= j < k
      ensures !lib.certified(deals, ResponsesOf(front)[..j])
    {
      assert responses[..j] == ResponsesOf(front)[..j];
    }
    hide Schedule, DealsOf, ResponsesOf, OnTrack;
    MessagesGrow(front, rest);
    assert (front + rest)[i] == front[i];
    TurnsRunDown(lib, front, rest, i, deals, responses);
    AlwaysOnTrack(lib, front + rest, i, deals, responses);
    EveryInterleaving(lib, front + rest);
    Finished(lib, Schedule(lib, front + rest), deals, responses);
  }

  lemma Finished(lib: Library, s: Node, deals: seq<Deal>, responses: seq<Response>)
    requires Inv(lib, s) && OnTrack(lib, s, deals, responses) && Left(s, |deals|, |responses|) <= 0
    ensures s.status == Certified && s.distKey == lib.distKey(deals, responses)
  {
  }

  // ----- The other requests

  /** A closed node stays closed and receives nothing more. */
  lemma {:induction false} ClosedForGood(lib: Library, front: seq<Action>, rest: seq<Action>)
    requires Schedule(lib, front).closed
    ensures var s, t := Schedule(lib, front), Schedule(lib, front + rest);
            t.closed && t.receivedDeals == s.receivedDeals && t.receivedResponses == s.receivedResponses
  {
    if rest == [] {
      assert front + rest == front;
    } else {
      var all, last := front + rest, rest[|rest| - 1];
      assert all[..|all| - 1] == front + rest[..|rest| - 1];
      ClosedForGood(lib, front, rest[..|rest| - 1]);
    }
  }

  /** A decrypt request is served exactly when the worker has ended with a key that the n-1 first deals and
      certifying responses give, and the shares can be submitted; in any case it is the last message. */
  lemma DecryptNeedsKey(lib: Library, front: seq<Action>, submitted: bool, rest: seq<Action>)
    requires OneStart(front)
    ensures var s := Schedule(lib, front);
            Fine(lib, s, ReceiveDecryptRequest(submitted)) <==>
              && submitted && s.worker == Ended && lib.certified(s.takenDeals, s.takenResponses)
              && lib.distKey(s.takenDeals, s.takenResponses).Some?
    ensures Schedule(lib, front + [ReceiveDecryptRequest(submitted)] + rest).closed
  {
    EveryInterleaving(lib, front);
    var served := front + [ReceiveDecryptRequest(submitted)];
    assert served[..|served| - 1] == front;
    ClosedForGood(lib, served, rest);
  }

  // ----- The node that sets the protocol up

  /** What the orchestrator can receive; `Other` is any message it does not expect. */
  datatype Message = PeerKey(from: string, key: string) | StartDone(distKey: int) | Other

  datatype ActorStatus = NotSetUp | Setup | SetupFailed

  /** Everything around the orchestrator that can fail: reading the form and opening the stream, the two
      messages it sends, storing the result, and every receive, numbered in the order of arrival. */
  datatype Network = Network(
    connected: bool, keysAsked: bool, startSent: bool, stored: bool, receive: nat -> Option<Message>)

  class Actor {
    var status: ActorStatus
    /** Whether this node already has a distributed key. */
    var done: bool

    /** Asks the n members for their keys, sends the start message, and compares the keys they report. A key
        that cannot be stored is still agreed on, and the status says so. */
    method RunSetup(n: nat, net: Network) returns (start: Option<Start>, key: Option<int>, ok: bool)
      modifies this`status
      ensures start.Some? <==>
                && !done && net.connected && net.keysAsked && n > 0
                && forall i :: 0 <= i < n ==> net.receive(i).Some? && net.receive(i).value.PeerKey?
      ensures start.Some? ==>
                && |start.value.addresses| == |start.value.publicKeys| == n
                && forall i :: 0 <= i < n ==>
                     net.receive(i) == Some(PeerKey(start.value.addresses[i], start.value.publicKeys[i]))
      ensures key.Some? <==>
                && start.Some? && net.startSent && net.receive(n).Some? && net.receive(n).value.StartDone?
                && forall i :: n <= i < 2 * n ==> net.receive(i) == net.receive(n)
      ensures key.Some? ==> forall i :: n <= i < 2 * n ==> net.receive(i) == Some(StartDone(key.value))
      ensures status == if key.Some? then Setup else SetupFailed
      ensures ok <==> key.Some? && net.stored
    {
      start, key, ok := None, None, false;
      status := SetupFailed;
      if done || !net.connected || !net.keysAsked || n == 0 { return; }
      var addresses: seq<string>, publicKeys: seq<string> := [], [];
      for i := 0 to n
        invariant |addresses| == |publicKeys| == i
        invariant forall j :: 0 <= j < i ==> net.receive(j) == Some(PeerKey(addresses[j], publicKeys[j]))
      {
        var msg := net.receive(i);
        if msg.None? || !msg.value.PeerKey? { return; }
        addresses, publicKeys := addresses + [msg.value.from], publicKeys + [msg.value.key];
      }
      start := Some(Start(addresses, publicKeys));
      if !net.startSent { return; }
      var dkgPubKeys: seq<int> := [];
      for i := 0 to n
        invariant |dkgPubKeys| == i
        invariant i > 0 ==> dkgPubKeys[i - 1] == dkgPubKeys[0]
        invariant forall j :: n <= j < n + i ==> net.receive(j) == Some(StartDone(dkgPubKeys[0]))
      {
        var msg := net.receive(n + i);
        if msg.None? || !msg.value.StartDone? { return; }
        dkgPubKeys := dkgPubKeys + [msg.value.distKey];
        if i != 0 && dkgPubKeys[i - 1] != msg.value.distKey {
          assert net.receive(n + i) != net.receive(n);
          return;
        }
      }
      key := Some(dkgPubKeys[0]);
      status := Setup;
      ok := net.stored;
    }
  }
}
