/**
  The Python client session: one caller, one listener thread, a queue between
  them, and transaction numbers that wrap.
 */
module PythonSession {
  import opened BitString
  import opened Results
  import opened Framing

  const TXN_MAX := 255

  /** What the listener queues: a message, or an exception for the caller. */
  datatype Item = Message(header: Header, payload: seq<byte>) | Problem

  /** `next_txn` */
  function NextTxn(last: nat): nat {
    if last >= TXN_MAX then 1 else last + 1
  }

  /** What `receiver` queues for one result of `transport.receive`; `None` is a transport error. */
  function Received(rpcs: set<nat>, msg: Option<seq<byte>>): seq<Item> {
    if msg.None? || |msg.value| < 4 then [Problem]
    else
      var (header, payload) := PythonParse(msg.value);
      if header.rpcId !in rpcs then [Problem]
      else if header.txn == 0 then []
      else [Message(header, payload)]
  }

  /** `recv_response` on the item it took: the payload, or an exception. */
  function Respond(rpcs: set<nat>, item: Item, txn: nat): Option<seq<byte>> {
    if item.Problem? || item.header.rpcId !in rpcs || item.header.txn != txn then None
    else Some(item.payload)
  }

  class Session {
    var lastTxn: nat
    var queue: seq<Item>
    const rpcs: set<nat>

    constructor (rpcs: set<nat>)
      ensures lastTxn == 1 && queue == [] && this.rpcs == rpcs
    {
      lastTxn, queue := 1, [];
      this.rpcs := rpcs;
    }

    /** One turn of the `receiver` loop. */
    method Receive(msg: Option<seq<byte>>)
      modifies `queue
      ensures queue == old(queue) + Received(rpcs, msg)
    {
      if msg.None? {
        queue := queue + [Problem];
        return;
      }
      if |msg.value| < 4 {
        queue := queue + [Problem];
        return;
      }
      var (header, payload) := PythonParse(msg.value);
      if header.rpcId !in rpcs {
        queue := queue + [Problem];
      } else if header.txn != 0 {
        queue := queue + [Message(header, payload)];
      }
    }

    /** `send_request`: the number and bytes of the request; `None` when the message cannot be packed. */
    method SendRequest(rpcId: nat, data: seq<byte>) returns (txn: nat, msg: Option<seq<byte>>)
      modifies `lastTxn
      ensures txn == lastTxn == NextTxn(old(lastTxn))
      ensures msg == PythonMessage(txn, false, rpcId, data)
    {
      if lastTxn >= TXN_MAX {
        lastTxn := 1;
      } else {
        lastTxn := lastTxn + 1;
      }
      txn := lastTxn;
      msg := PythonMessage(txn, false, rpcId, data);
    }

    /** `recv_response` after waiting: with an empty queue it times out. */
    method RecvResponse(txn: nat) returns (r: Option<seq<byte>>)
      modifies `queue
      ensures old(queue) == [] ==> r == None && queue == []
      ensures old(queue) != [] ==> queue == old(queue)[1..] && r == Respond(rpcs, old(queue)[0], txn)
    {
      if queue == [] {
        return None;
      }
      var item := queue[0];
      queue := queue[1..];
      if item.Problem? {
        return None;
      }
      if item.header.rpcId !in rpcs {
        return None;
      }
      if item.header.txn != txn {
        return None;
      }
      r := Some(item.payload);
    }
  }

  // ---------------------------------------------------------------- Runs

  /** A queued item, with the number of the request it answers. */
  datatype Entry = Entry(item: Item, request: nat)

  datatype State = State(
    calls: nat,             // requests that have got a number so far
    lastTxn: nat,
    queue: seq<Entry>,
    waiting: bool,          // the caller is inside `recv_response`
    put: nat,               // items queued so far
    taken: nat,             // items taken so far
    unanswered: nat)        // no request before this one will be answered any more

  datatype Event =
    | Call                                            // a request is sent
    | Abort                                           // sending a request raises, after it got its number
    | Answer(request: nat, rpcId: nat, payload: seq<byte>)   // the reply to a request arrives
    | Fault                                           // the listener queues an exception
    | Notify(resp: bool, rpcId: nat, payload: seq<byte>)     // a message with number 0 arrives
    | Take                                            // the caller takes the first item
    | Expire                                          // the caller times out

  const START := State(0, 1, [], false, 0, 0, 0)

  /** Request `k` carries this transaction number. */
  function TxnOf(k: nat): nat {
    (k + 1) % 255 + 1
  }

  /** The server answers requests in order, each at most once, and echoes their numbers. */
  predicate Enabled(s: State, e: Event) {
    match e
    case Call => !s.waiting
    case Abort => !s.waiting
    case Answer(j, _, _) => s.unanswered <= j < s.calls
    case Fault => true
    case Notify(_, _, _) => true
    case Take => s.waiting && s.queue != []
    case Expire => s.waiting && s.queue == []
  }

  function Step(s: State, e: Event): State
    requires Enabled(s, e)
  {
    match e
    case Call => s.(calls := s.calls + 1, lastTxn := NextTxn(s.lastTxn), waiting := true)
    case Abort => s.(calls := s.calls + 1, lastTxn := NextTxn(s.lastTxn))
    case Answer(j, id, payload) =>
      var item := Message(Header(Words(|payload|), TxnOf(j), true, id), payload);
      s.(queue := s.queue + [Entry(item, j)], put := s.put + 1, unanswered := j + 1)
    case Fault => s.(queue := s.queue + [Entry(Problem, 0)], put := s.put + 1)
    case Notify(_, _, _) => s
    case Take => s.(queue := s.queue[1..], taken := s.taken + 1, waiting := false)
    case Expire => s.(waiting := false)
  }

  predicate Possible(s: State, es: seq<Event>)
    decreases |es|
  {
    es != [] ==> Enabled(s, es[0]) && Possible(Step(s, es[0]), es[1..])
  }

  function After(s: State, es: seq<Event>): State
    requires Possible(s, es)
    decreases |es|
  {
    if es == [] then s else After(Step(s, es[0]), es[1..])
  }

  /** What every reachable state satisfies. */
  ghost predicate Invariant(s: State) {
    && s.lastTxn == s.calls % 255 + 1
    && s.put == s.taken + |s.queue|
    && (s.waiting ==> s.calls > 0)
    && s.taken + (if s.waiting then 1 else 0) <= s.calls
    && s.unanswered <= s.calls
    && (forall i :: 0 <= i < |s.queue| && s.queue[i].item.Message? ==>
          s.queue[i].request < s.unanswered && s.queue[i].item.header.txn == TxnOf(s.queue[i].request))
    && (forall i, j :: 0 <= i < j < |s.queue| && s.queue[i].item.Message? && s.queue[j].item.Message? ==>
          s.queue[i].request < s.queue[j].request)
  }

  lemma CallerEvents(s: State, e: Event)
    requires Invariant(s) && Enabled(s, e) && (e.Call? || e.Abort? || e.Take? || e.Expire?)
    ensures Invariant(Step(s, e))
  {
    hide TxnOf, NextTxn;
    NextNumber(s.calls);
  }

  lemma NextNumber(n: nat)
    ensures NextTxn(n % 255 + 1) == (n + 1) % 255 + 1
  {
    if n % 255 == 254 {
      Remainder(n + 1, n / 255 + 1, 0);
    } else {
      Remainder(n + 1, n / 255, n % 255 + 1);
    }
  }

  lemma Remainder(n: nat, q: nat, r: nat)
    requires n == 255 * q + r && r < 255
    ensures n % 255 == r
  {
  }

  lemma ListenerEvents(s: State, e: Event)
    requires Invariant(s) && Enabled(s, e) && (e.Answer? || e.Fault? || e.Notify?)
    ensures Invariant(Step(s, e))
  {
    hide TxnOf;
  }

  lemma StepKeepsInvariant(s: State, e: Event)
    requires Invariant(s) && Enabled(s, e)
    ensures Invariant(Step(s, e))
  {
    hide Invariant, Step;
    if e.Answer? || e.Fault? || e.Notify? {
      ListenerEvents(s, e);
    } else {
      CallerEvents(s, e);
    }
  }

  lemma {:induction false} RunKeepsInvariant(s: State, es: seq<Event>)
    requires Invariant(s) && Possible(s, es)
    ensures Invariant(After(s, es))
    decreases |es|
  {
    if es != [] {
      StepKeepsInvariant(s, es[0]);
      RunKeepsInvariant(Step(s, es[0]), es[1..]);
    }
  }

  /** The call that is waiting would return this reply. */
  predicate Returns(s: State, rpcs: set<nat>) {
    s.waiting && s.queue != [] && Respond(rpcs, s.queue[0].item, s.lastTxn).Some?
  }

  lemma SameTxn(j: nat, k: nat)
    requires j <= k
    ensures TxnOf(j) == TxnOf(k) <==> (k - j) % 255 == 0
  {
  }

  /**
    Safety over whole runs, with any mix of timeouts, late replies and faults: a
    call returns the payload of a reply exactly when that reply is a multiple of
    255 calls old. So it is its own reply unless it is at least 255 calls old.
   */
  lemma ReturnedReply(es: seq<Event>, rpcs: set<nat>)
    requires Possible(START, es) && Returns(After(START, es), rpcs)
    ensures var s := After(START, es);
            var age := s.calls - 1 - s.queue[0].request;
            age >= 0 && age % 255 == 0 && (age < 255 ==> s.queue[0].request == s.calls - 1)
  {
    var s := After(START, es);
    RunKeepsInvariant(START, es);
    SameTxn(s.queue[0].request, s.calls - 1);
  }

  lemma TakenReplyIff(es: seq<Event>, rpcs: set<nat>)
    requires Possible(START, es)
    requires var s := After(START, es);
             s.waiting && s.queue != [] && s.queue[0].item.Message? && s.queue[0].item.header.rpcId in rpcs
    ensures var s := After(START, es);
            Returns(s, rpcs) <==> (s.calls - 1 - s.queue[0].request) % 255 == 0
  {
    var s := After(START, es);
    RunKeepsInvariant(START, es);
    SameTxn(s.queue[0].request, s.calls - 1);
  }

  // ---------------------------------------------------------------- The class follows the run

  function Items(q: seq<Entry>): (r: seq<Item>)
    ensures |r| == |q|
  {
    seq(|q|, i requires 0 <= i < |q| => q[i].item)
  }

  /** The messages that a listener can get for an event. */
  predicate Delivers(rpcs: set<nat>, e: Event, msg: Option<seq<byte>>) {
    match e
    case Answer(j, id, payload) =>
      && id in rpcs && id < 4096 && |payload| % 4 == 0 && |payload| <= 1020
      && msg == PythonMessage(TxnOf(j), true, id, payload)
    case Fault => msg.None? || |msg.value| < 4 || Decode(msg.value).rpcId !in rpcs
    case Notify(resp, id, payload) =>
      && id in rpcs && id < 4096 && |payload| <= 1020
      && msg == PythonMessage(0, resp, id, payload)
    case _ => false
  }

  /**
    What the listener makes of any bytes: too few or an unknown id is an exception,
    number 0 is not queued, and anything else is, response or not.
   */
  lemma ReceivedIs(rpcs: set<nat>, msg: seq<byte>)
    ensures |msg| < 4 ==> Received(rpcs, Some(msg)) == [Problem]
    ensures |msg| >= 4 ==>
              var id := msg[2] as nat % 16 * 256 + msg[3];
              Received(rpcs, Some(msg)) ==
              if id !in rpcs then [Problem]
              else if msg[1] == 0 then []
              else [Message(Header(msg[0], msg[1], msg[2] / 16 % 2 == 1, id), msg[4..])]
  {
    hide PythonUnpack;
    if |msg| >= 4 {
      PythonReads(msg[0..4]);
    }
  }

  /** A notification queues nothing, with either flag and any payload that fits a message. */
  lemma NotificationQueuesNothing(rpcs: set<nat>, resp: bool, id: nat, payload: seq<byte>)
    requires id in rpcs && id < 4096 && |payload| <= 1020
    ensures Received(rpcs, PythonMessage(0, resp, id, payload)) == []
  {
    hide PythonMessage, PythonUnpack;
    MessageRoundTrip(0, resp, id, payload);
  }

  /** `Receive` changes the queue as the step of its event does. */
  lemma ReceiveIsStep(s: State, e: Event, rpcs: set<nat>, msg: Option<seq<byte>>)
    requires Enabled(s, e) && Delivers(rpcs, e, msg)
    ensures Items(Step(s, e).queue) == Items(s.queue) + Received(rpcs, msg)
  {
    hide PythonMessage, PythonUnpack, Decode;
    match e
    case Answer(j, id, payload) =>
      MessageRoundTrip(TxnOf(j), true, id, payload);
      assert Padded(payload) == payload;
    case Notify(resp, id, payload) =>
      NotificationQueuesNothing(rpcs, resp, id, payload);
      assert Items(s.queue) + [] == Items(s.queue);
    case Fault =>
      if msg.Some? && |msg.value| >= 4 {
        PythonReads(msg.value[0..4]);
        DecodePrefix(msg.value[0..4], msg.value[4..]);
        assert msg.value[0..4] + msg.value[4..] == msg.value;
      }
    case _ =>
  }

  /** The object shows state `s`. */
  ghost predicate Shows(session: Session, s: State)
    reads session
  {
    session.lastTxn == s.lastTxn && session.queue == Items(s.queue)
  }

  /** `send_request`: a Call when the message goes out, an Abort when packing or sending it raises. */
  method PerformSend(session: Session, ghost s: State, rpcId: nat, data: seq<byte>)
    returns (txn: nat, msg: Option<seq<byte>>)
    requires Enabled(s, Call) && Shows(session, s)
    modifies session
    ensures Shows(session, Step(s, Call)) && Shows(session, Step(s, Abort))
    ensures txn == Step(s, Call).lastTxn && msg == PythonMessage(txn, false, rpcId, data)
  {
    txn, msg := session.SendRequest(rpcId, data);
  }

  /** One turn of the listener: an Answer, a Fault or a Notify, which changes nothing. */
  method PerformReceive(session: Session, ghost s: State, ghost e: Event, msg: Option<seq<byte>>)
    requires Shows(session, s) && Enabled(s, e) && Delivers(session.rpcs, e, msg)
    modifies session
    ensures Shows(session, Step(s, e))
  {
    ReceiveIsStep(s, e, session.rpcs, msg);
    session.Receive(msg);
  }

  /**
    `recv_response` with the number of the request: it times out or takes the first
    item, and it returns a payload exactly when that state says so: the payload
    that the item carries.
   */
  method PerformRecv(session: Session, ghost s: State, txn: nat) returns (r: Option<seq<byte>>)
    requires s.waiting && txn == s.lastTxn && Shows(session, s)
    modifies session
    ensures s.queue == [] ==> Shows(session, Step(s, Expire)) && r == None
    ensures s.queue != [] ==> Shows(session, Step(s, Take))
    ensures r.Some? <==> Returns(s, session.rpcs)
    ensures r.Some? ==> s.queue != [] && s.queue[0].item.Message? && r == Some(s.queue[0].item.payload)
  {
    r := session.RecvResponse(txn);
  }

  // ---------------------------------------------------------------- Lag

  /** What is counted: calls that wait for a reply, numbers that are given out, or items that are queued. */
  datatype Kind = Calls | Numbers | Queued

  predicate Counts(k: Kind, e: Event) {
    match k
    case Calls => e.Call?
    case Numbers => e.Call? || e.Abort?
    case Queued => e.Answer? || e.Fault?
  }

  function Count(es: seq<Event>, k: Kind): nat {
    if es == [] then 0 else (if Counts(k, es[0]) then 1 else 0) + Count(es[1..], k)
  }

  /** Items queued, items taken and calls made over a stretch of a run. */
  lemma {:induction false} Conservation(s: State, es: seq<Event>)
    requires Possible(s, es)
    ensures var s' := After(s, es);
            && s'.put == s.put + Count(es, Queued)
            && s'.calls == s.calls + Count(es, Numbers)
            && |s'.queue| + s'.taken == |s.queue| + s.taken + Count(es, Queued)
            && s'.taken + (if s'.waiting then 1 else 0) <= s.taken + (if s.waiting then 1 else 0) + Count(es, Calls)
    decreases |es|
  {
    if es != [] {
      Conservation(Step(s, es[0]), es[1..]);
    }
  }

  /** The backlog never shrinks while every request is answered: each call takes at most one item. */
  lemma BacklogStays(s: State, es: seq<Event>)
    requires Possible(s, es) && !s.waiting && Count(es, Queued) >= Count(es, Calls)
    ensures |After(s, es).queue| >= |s.queue|
  {
    Conservation(s, es);
  }

  /** A call that finds an item in the queue never gets its own reply. */
  lemma StaleQueueMisleads(es: seq<Event>, more: seq<Event>, rpcs: set<nat>)
    requires Possible(START, es) && !After(START, es).waiting && After(START, es).queue != []
    requires Possible(Step(After(START, es), Call), more)
    requires forall i :: 0 <= i < |more| ==> more[i].Answer? || more[i].Fault? || more[i].Notify?
    ensures var s := After(Step(After(START, es), Call), more);
            s.waiting && s.queue != [] &&
            (Returns(s, rpcs) ==> s.queue[0].request < s.calls - 1 && (s.calls - 1 - s.queue[0].request) % 255 == 0)
  {
    hide Possible, After, TxnOf;
    var s0 := After(START, es);
    RunKeepsInvariant(START, es);
    StepKeepsInvariant(s0, Call);
    HeadStays(Step(s0, Call), more);
    RunKeepsInvariant(Step(s0, Call), more);
    var s := After(Step(s0, Call), more);
    if Returns(s, rpcs) {
      LastTxn(s);
      SameTxn(s.queue[0].request, s.calls - 1);
    }
  }

  /** The number in use is that of the last request. */
  lemma LastTxn(s: State)
    requires Invariant(s) && s.calls > 0
    ensures s.lastTxn == TxnOf(s.calls - 1)
  {
  }

  lemma {:induction false} HeadStays(s: State, es: seq<Event>)
    requires Possible(s, es) && s.queue != [] && s.waiting
    requires forall i :: 0 <= i < |es| ==> es[i].Answer? || es[i].Fault? || es[i].Notify?
    ensures var s' := After(s, es); s'.waiting && s'.queue != [] && s'.queue[0] == s.queue[0] && s'.calls == s.calls
    decreases |es|
  {
    if es != [] {
      HeadStays(Step(s, es[0]), es[1..]);
    }
  }

  // ---------------------------------------------------------------- The bound is sharp

  /** `n` calls that all time out. */
  function Unanswered(n: nat): seq<Event> {
    if n == 0 then [] else [Call, Expire] + Unanswered(n - 1)
  }

  lemma {:induction false} AfterUnanswered(s: State, n: nat)
    requires !s.waiting && s.queue == []
    ensures Possible(s, Unanswered(n))
    ensures var s' := After(s, Unanswered(n));
            !s'.waiting && s'.queue == [] && s'.calls == s.calls + n && s'.unanswered == s.unanswered
    decreases n
  {
    if n > 0 {
      var es := Unanswered(n);
      assert es[1..] == [Expire] + Unanswered(n - 1) && es[1..][1..] == Unanswered(n - 1);
      AfterUnanswered(Step(Step(s, Call), Expire), n - 1);
    }
  }

  lemma {:induction false} AfterAppend(s: State, es: seq<Event>, fs: seq<Event>)
    requires Possible(s, es) && Possible(After(s, es), fs)
    ensures Possible(s, es + fs) && After(s, es + fs) == After(After(s, es), fs)
    decreases |es|
  {
    if es == [] {
      assert es + fs == fs;
    } else {
      assert (es + fs)[1..] == es[1..] + fs;
      AfterAppend(Step(s, es[0]), es[1..], fs);
    }
  }

  /** A late reply and then the next call. */
  lemma LateReply(s: State, rpcId: nat, payload: seq<byte>, rpcs: set<nat>)
    requires Invariant(s) && !s.waiting && s.queue == [] && s.unanswered == 0 && s.calls == 255 && rpcId in rpcs
    ensures var a := Answer(0, rpcId, payload);
            && Possible(s, [a, Call]) && After(s, [a, Call]) == Step(Step(s, a), Call)
            && Returns(Step(Step(s, a), Call), rpcs)
            && Step(Step(s, a), Call).calls == 256 && Step(Step(s, a), Call).queue[0].request == 0
  {
    hide Possible, After;
    var a := Answer(0, rpcId, payload);
    assert TxnOf(0) == 2;
    TwoSteps(s, a, Call);
  }

  lemma OneStep(s: State, e: Event)
    requires Enabled(s, e)
    ensures Possible(s, [e]) && After(s, [e]) == Step(s, e)
  {
    hide Step, Enabled;
    assert [e][1..] == [];
    assert Possible(Step(s, e), []) && After(Step(s, e), []) == Step(s, e);
  }

  lemma TwoSteps(s: State, e: Event, f: Event)
    requires Enabled(s, e) && Enabled(Step(s, e), f)
    ensures Possible(s, [e, f]) && After(s, [e, f]) == Step(Step(s, e), f)
  {
    hide Step, Enabled;
    OneStep(Step(s, e), f);
    assert [e, f][1..] == [f];
  }

  /** After 255 timeouts one late reply is returned to the wrong call. */
  lemma WrongReply(rpcId: nat, payload: seq<byte>, rpcs: set<nat>) returns (es: seq<Event>)
    requires rpcId in rpcs
    ensures Possible(START, es) && Returns(After(START, es), rpcs)
    ensures After(START, es).calls == 256 && After(START, es).queue[0].request == 0
  {
    hide Step, Enabled, Possible, After, Unanswered, Returns;
    AfterUnanswered(START, 255);
    RunKeepsInvariant(START, Unanswered(255));
    var s := After(START, Unanswered(255));
    LateReply(s, rpcId, payload, rpcs);
    es := Unanswered(255) + [Answer(0, rpcId, payload), Call];
    AfterAppend(START, Unanswered(255), [Answer(0, rpcId, payload), Call]);
  }
}
