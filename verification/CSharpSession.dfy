/**
  The C# client session: a table of 256 pending transactions shared by callers,
  the reader task, timeouts and disposal.
 */
module CSharpSession {
  import opened BitString
  import opened Results

  const SLOTS := 256

  /** A response: the transaction number it carries, its payload, and the call it answers, if any. */
  datatype Response = Response(txn: nat, payload: seq<byte>, answers: Option<nat>)

  /** State of the completion source of a transaction. */
  datatype Status = Pending | Completed(response: Response) | Cancelled

  /** `TrySetResult` and `TrySetCanceled`: only the first one counts. */
  function Settle(s: Status, to: Status): Status {
    if s.Pending? then to else s
  }

  /** `(byte)(_txnCounter + 1 == 0 ? 1 : _txnCounter + 1)`; the sum is an `int` and never 0. */
  function NextCounter(c: nat): nat {
    (if c + 1 == 0 then 1 else c + 1) % 256
  }

  // ---------------------------------------------------------------- The classes

  class Transaction {
    const txn: nat
    var status: Status

    constructor (txn: nat)
      requires txn < SLOTS
      ensures this.txn == txn && status == Pending
    {
      this.txn := txn;
      status := Pending;
    }

    method SetResponse(response: Response)
      modifies `status
      ensures status == Settle(old(status), Completed(response))
    {
      if status.Pending? {
        status := Completed(response);
      }
    }

    method Cancel()
      modifies `status
      ensures status == Settle(old(status), Cancelled)
    {
      if status.Pending? {
        status := Cancelled;
      }
    }
  }

  class Session {
    var counter: nat
    const slots: array<Transaction?>

    /** An occupied slot holds a transaction with the slot's number. */
    ghost predicate Valid()
      reads this, slots
    {
      && slots.Length == SLOTS && counter < SLOTS
      && forall k :: 0 <= k < SLOTS && slots[k] != null ==> slots[k].txn == k
    }

    constructor ()
      ensures Valid() && fresh(slots) && counter == 1 && forall k :: 0 <= k < SLOTS ==> slots[k] == null
    {
      counter := 1;
      slots := new Transaction?[SLOTS](_ => null);
    }

    /** `AquireNextTxnId` */
    method Acquire() returns (current: nat)
      requires Valid()
      modifies `counter
      ensures Valid() && current == old(counter) < SLOTS && counter == NextCounter(old(counter))
    {
      current := counter;
      counter := if counter + 1 == 256 then 0 else counter + 1;
    }

    /** `AddTransaction`: false when it throws because the slot is taken. It never overwrites. */
    method Add(t: Transaction) returns (ok: bool)
      requires Valid() && t.txn < SLOTS
      modifies slots
      ensures Valid()
      ensures ok == (old(slots[t.txn]) == null)
      ensures slots[..] == if ok then old(slots[..])[t.txn := t] else old(slots[..])
    {
      if slots[t.txn] != null {
        return false;
      }
      slots[t.txn] := t;
      ok := true;
    }

    /** `FetchAndRemoveTransaction` */
    method FetchAndRemove(txn: nat) returns (t: Transaction?)
      requires Valid() && txn < SLOTS
      modifies slots
      ensures Valid() && t == old(slots[txn]) && slots[..] == old(slots[..])[txn := null]
    {
      t := slots[txn];
      slots[txn] := null;
    }

    /** `ClearTransactions` */
    method Clear()
      requires Valid()
      modifies slots, set k | 0 <= k < slots.Length && slots[k] != null :: slots[k]
      ensures Valid() && forall k :: 0 <= k < SLOTS ==> slots[k] == null
      ensures forall k :: 0 <= k < SLOTS && old(slots[k]) != null ==>
                old(slots[k]).status == Settle(old(slots[k].status), Cancelled)
    {
      var i := 0;
      while i < slots.Length
        invariant 0 <= i <= SLOTS == slots.Length
        invariant forall k :: 0 <= k < i ==> slots[k] == null
        invariant forall k :: i <= k < SLOTS ==> slots[k] == old(slots[k])
        invariant forall k :: 0 <= k < i && old(slots[k]) != null ==>
          old(slots[k]).status == Settle(old(slots[k].status), Cancelled)
        invariant forall k :: i <= k < SLOTS && old(slots[k]) != null ==> old(slots[k]).status == old(slots[k].status)
      {
        if slots[i] != null {
          slots[i].Cancel();
        }
        slots[i] := null;
        i := i + 1;
      }
    }
  }

  // ---------------------------------------------------------------- Interleavings

  /** Where one call to `InvokeRawRpcAsync` stands. */
  datatype Phase =
    | Acquired        // has its number
    | Added           // in the table, request not yet written
    | Failed          // writing the request raised; the table still holds the transaction
    | Registered      // in the table, request sent, waiting
    | Late            // its delay finished first; the timeout branch is still to run
    | Rejected        // the slot was taken
    | TimedOut
    | Returned

  datatype Call = Call(txn: nat, phase: Phase, status: Status)

  datatype State = State(
    counter: nat,
    slots: seq<Option<nat>>,                    // which call each slot holds
    calls: seq<Call>,
    reader: Option<(nat, Response)>)            // fetched by the reader, not yet completed

  datatype Event =
    | Acquire
    | Add(call: nat)
    | Send(call: nat)
    | SendFails(call: nat)
    | Read(response: Response)                  // the reader takes the transaction out of its slot
    | Complete                                  // ... and completes it
    | Delay(call: nat)
    | Remove(call: nat)                         // the timeout branch clears the slot, by number
    | Finish(call: nat)
    | Dispose

  const START := State(1, seq(SLOTS, _ => None), [], None)

  predicate Enabled(s: State, e: Event) {
    |s.slots| == SLOTS && (forall c :: 0 <= c < |s.calls| ==> s.calls[c].txn < SLOTS) &&
    (s.reader.Some? ==> s.reader.value.0 < |s.calls|) &&
    (forall k :: 0 <= k < SLOTS && s.slots[k].Some? ==> s.slots[k].value < |s.calls|) &&
    match e
    case Acquire => true
    case Add(c) => c < |s.calls| && s.calls[c].phase == Acquired
    case Send(c) => c < |s.calls| && s.calls[c].phase == Added
    case SendFails(c) => c < |s.calls| && s.calls[c].phase == Added
    case Read(r) =>
      && s.reader.None? && r.txn < SLOTS
      && (r.answers.Some? ==>
            && r.answers.value < |s.calls| && s.calls[r.answers.value].txn == r.txn
            && s.calls[r.answers.value].phase !in {Acquired, Rejected})
    case Complete => s.reader.Some?
    case Delay(c) => c < |s.calls| && s.calls[c].phase == Registered && s.calls[c].status.Pending?
    case Remove(c) => c < |s.calls| && s.calls[c].phase == Late
    case Finish(c) => c < |s.calls| && s.calls[c].phase == Registered && !s.calls[c].status.Pending?
    case Dispose => s.reader.None?
  }

  function WithPhase(s: State, c: nat, p: Phase): State
    requires c < |s.calls|
  {
    s.(calls := s.calls[c := s.calls[c].(phase := p)])
  }

  function Step(s: State, e: Event): State
    requires Enabled(s, e)
  {
    match e
    case Acquire => s.(counter := NextCounter(s.counter), calls := s.calls + [Call(s.counter, Acquired, Pending)])
    case Add(c) =>
      var k := s.calls[c].txn;
      if s.slots[k].Some? then WithPhase(s, c, Rejected)
      else WithPhase(s, c, Added).(slots := s.slots[k := Some(c)])
    case Send(c) => WithPhase(s, c, Registered)
    case SendFails(c) => WithPhase(s, c, Failed)
    case Read(r) =>
      var found := s.slots[r.txn];
      s.(slots := s.slots[r.txn := None], reader := if found.None? then None else Some((found.value, r)))
    case Complete =>
      var (c, r) := s.reader.value;
      s.(reader := None, calls := s.calls[c := s.calls[c].(status := Settle(s.calls[c].status, Completed(r)))])
    case Delay(c) => WithPhase(s, c, Late)
    case Remove(c) => WithPhase(s, c, TimedOut).(slots := s.slots[s.calls[c].txn := None])
    case Finish(c) => WithPhase(s, c, Returned)
    case Dispose =>
      s.(slots := seq(SLOTS, _ => None),
         calls := seq(|s.calls|, i requires 0 <= i < |s.calls| =>
           if Some(i) in s.slots then s.calls[i].(status := Settle(s.calls[i].status, Cancelled)) else s.calls[i]))
  }

  predicate Possible(s: State, es: seq<Event>)
    decreases |es|
  {
    es != [] ==> Enabled(s, es[0]) && Possible(Step(s, es[0]), es[1..])
  }

  function After(s: State, es: seq<Event>): State
    requires Possible(s, es)
    decreases |es|
  {
    if es == [] then s else After(Step(s, es[0]), es[1..])
  }

  /** What holds under every interleaving. */
  ghost predicate Invariant(s: State) {
    && |s.slots| == SLOTS && s.counter == (1 + |s.calls|) % 256
    && (forall c :: 0 <= c < |s.calls| ==> s.calls[c].txn == (1 + c) % 256)
    && (forall k :: 0 <= k < SLOTS && s.slots[k].Some? ==>
          var c := s.slots[k].value;
          && c < |s.calls| && s.calls[c].txn == k
          && s.calls[c].status.Pending? && s.calls[c].phase in {Added, Failed, Registered, Late})
    && (s.reader.Some? ==>
          var (c, r) := s.reader.value;
          && c < |s.calls| && r.txn == s.calls[c].txn && s.calls[c].status.Pending? && Honest(s, r)
          && s.calls[c].phase in {Added, Failed, Registered, Late, TimedOut}
          && s.slots[r.txn] != Some(c))
    && (forall c :: 0 <= c < |s.calls| ==>
          && (s.calls[c].phase == Acquired ==> s.calls[c].status.Pending?)
          && (s.calls[c].status.Completed? ==>
                s.calls[c].status.response.txn == s.calls[c].txn && Honest(s, s.calls[c].status.response)))
  }

  /** A response that answers a call carries its number. */
  predicate Honest(s: State, r: Response) {
    r.answers.Some? ==> r.answers.value < |s.calls| && r.txn == (1 + r.answers.value) % 256
  }

  lemma StartInvariant()
    ensures Invariant(START)
  {
  }

  lemma AddEvent(s: State, e: Event)
    requires Invariant(s) && Enabled(s, e) && e.Add?
    ensures Invariant(Step(s, e))
  {
    assert s.calls[e.call].txn == (1 + e.call) % 256;
  }

  lemma RemoveEvent(s: State, e: Event)
    requires Invariant(s) && Enabled(s, e) && e.Remove?
    ensures Invariant(Step(s, e))
  {
  }

  lemma ReaderEvents(s: State, e: Event)
    requires Invariant(s) && Enabled(s, e) && (e.Read? || e.Complete?)
    ensures Invariant(Step(s, e))
  {
  }

  lemma OtherEvents(s: State, e: Event)
    requires Invariant(s) && Enabled(s, e) && (e.Delay? || e.Finish?)
    ensures Invariant(Step(s, e))
  {
  }

  lemma AcquireEvent(s: State, e: Event)
    requires Invariant(s) && Enabled(s, e) && e.Acquire?
    ensures Invariant(Step(s, e))
  {
  }

  lemma SendEvents(s: State, e: Event)
    requires Invariant(s) && Enabled(s, e) && (e.Send? || e.SendFails?)
    ensures Invariant(Step(s, e))
  {
  }

  lemma DisposeEvent(s: State, e: Event)
    requires Invariant(s) && Enabled(s, e) && e.Dispose?
    ensures Invariant(Step(s, e))
  {
  }

  lemma StepKeepsInvariant(s: State, e: Event)
    requires Invariant(s) && Enabled(s, e)
    ensures Invariant(Step(s, e))
  {
    hide Invariant, Step, Enabled;
    match e
    case Add(_) => AddEvent(s, e);
    case Remove(_) => RemoveEvent(s, e);
    case Read(_) => ReaderEvents(s, e);
    case Complete => ReaderEvents(s, e);
    case Dispose => DisposeEvent(s, e);
    case Send(_) => SendEvents(s, e);
    case SendFails(_) => SendEvents(s, e);
    case Acquire => AcquireEvent(s, e);
    case _ => OtherEvents(s, e);
  }

  lemma {:induction false} RunKeepsInvariant(s: State, es: seq<Event>)
    requires Invariant(s) && Possible(s, es)
    ensures Invariant(After(s, es))
    decreases |es|
  {
    if es != [] {
      StepKeepsInvariant(s, es[0]);
      RunKeepsInvariant(Step(s, es[0]), es[1..]);
    }
  }

  /** In every reachable state a completed call holds a response that carries its own number. */
  lemma CompletedWithOwnResponse(es: seq<Event>, c: nat)
    requires Possible(START, es) && c < |After(START, es).calls| && After(START, es).calls[c].status.Completed?
    ensures After(START, es).calls[c].status.response.txn == After(START, es).calls[c].txn
  {
    StartInvariant();
    RunKeepsInvariant(START, es);
  }

  lemma StepSettlesOnce(s: State, e: Event, c: nat)
    requires Enabled(s, e) && c < |s.calls|
    ensures |Step(s, e).calls| >= |s.calls| && Step(s, e).calls[c].txn == s.calls[c].txn
    ensures !s.calls[c].status.Pending? ==> Step(s, e).calls[c].status == s.calls[c].status
  {
  }

  /** A call is completed or cancelled at most once: the first outcome stays. */
  lemma {:induction false} SettledOnce(s: State, es: seq<Event>, c: nat)
    requires Possible(s, es) && c < |s.calls|
    ensures |After(s, es).calls| >= |s.calls| && After(s, es).calls[c].txn == s.calls[c].txn
    ensures !s.calls[c].status.Pending? ==> After(s, es).calls[c].status == s.calls[c].status
    decreases |es|
  {
    if es != [] {
      StepSettlesOnce(s, es[0], c);
      SettledOnce(Step(s, es[0]), es[1..], c);
    }
  }

  /**
    Whose response a call gets: in every run, a completed call holds the response
    to its own request, or to that of a call a multiple of 256 away; so within 256
    calls it is always its own.
   */
  lemma AnsweredByOwn(es: seq<Event>, c: nat)
    requires Possible(START, es) && c < |After(START, es).calls| && After(START, es).calls[c].status.Completed?
    requires After(START, es).calls[c].status.response.answers.Some?
    ensures var j := After(START, es).calls[c].status.response.answers.value;
            && j < |After(START, es).calls|
            && (if j <= c then (c - j) % 256 == 0 else (j - c) % 256 == 0)
            && (|After(START, es).calls| <= 256 ==> j == c)
  {
    hide Step, Enabled, Possible, After;
    StartInvariant();
    RunKeepsInvariant(START, es);
    SameNumber(c, After(START, es).calls[c].status.response.answers.value);
  }

  lemma SameNumber(c: nat, j: nat)
    requires (1 + c) % 256 == (1 + j) % 256
    ensures if j <= c then (c - j) % 256 == 0 else (j - c) % 256 == 0
  {
    if j < c {
      NumberIff(j, c);
    } else if c < j {
      NumberIff(c, j);
    }
  }

  /** Every completed call holds the response to its own request, and so will the one that the reader completes next. */
  ghost predicate OwnResponses(s: State) {
    && (forall c :: 0 <= c < |s.calls| && s.calls[c].status.Completed? ==>
          s.calls[c].status.response.answers == Some(c))
    && (s.reader.Some? ==> s.reader.value.1.answers == Some(s.reader.value.0))
  }

  /** The reader fetches a call other than the one that the response answers. */
  predicate Misdelivers(s: State, e: Event) {
    && e.Read? && e.response.txn < |s.slots| && s.slots[e.response.txn].Some?
    && s.slots[e.response.txn] != e.response.answers
  }

  lemma ReaderOwn(s: State, e: Event)
    requires Invariant(s) && Enabled(s, e) && (e.Read? || e.Complete?)
    ensures OwnResponses(Step(s, e)) <==> OwnResponses(s) && !Misdelivers(s, e)
  {
    if e.Complete? {
      var (c, r) := s.reader.value;
      var s' := Step(s, e);
      assert s'.calls[c].status == Completed(r);
      if OwnResponses(s') {
        forall i | 0 <= i < |s.calls| && s.calls[i].status.Completed?
          ensures s.calls[i].status.response.answers == Some(i)
        {
          assert s'.calls[i] == s.calls[i];
        }
      }
    }
  }

  lemma OtherOwn(s: State, e: Event)
    requires Invariant(s) && Enabled(s, e) && !e.Read? && !e.Complete?
    ensures OwnResponses(Step(s, e)) <==> OwnResponses(s)
  {
    var s' := Step(s, e);
    forall c | 0 <= c < |s.calls| ensures s'.calls[c].status == s.calls[c].status || !s'.calls[c].status.Completed? {
    }
    assert forall c :: 0 <= c < |s.calls| && s.calls[c].status.Completed? ==> s'.calls[c].status == s.calls[c].status;
    assert s'.reader == s.reader;
    assert forall c :: |s.calls| <= c < |s'.calls| ==> s'.calls[c].status.Pending?;
  }

  /** No `Read` of the run fetches a call other than the one that its response answers. */
  ghost predicate DeliversOwn(s: State, es: seq<Event>)
    requires Possible(s, es)
    decreases |es|
  {
    es != [] ==> !Misdelivers(s, es[0]) && DeliversOwn(Step(s, es[0]), es[1..])
  }

  lemma {:induction false} OwnResponseFrom(s: State, es: seq<Event>)
    requires Invariant(s) && Possible(s, es)
    ensures OwnResponses(After(s, es)) <==> OwnResponses(s) && DeliversOwn(s, es)
    decreases |es|
  {
    hide Step, Enabled, Invariant, OwnResponses, Misdelivers;
    if es != [] {
      if es[0].Read? || es[0].Complete? {
        ReaderOwn(s, es[0]);
      } else {
        OtherOwn(s, es[0]);
        NoReadNoMisdelivery(s, es[0]);
      }
      StepKeepsInvariant(s, es[0]);
      OwnResponseFrom(Step(s, es[0]), es[1..]);
    }
  }

  lemma NoReadNoMisdelivery(s: State, e: Event)
    requires !e.Read?
    ensures !Misdelivers(s, e)
  {
  }

  /**
    In every run, all calls that have been or are being completed get their own
    response if and only if no `Read` fetched a call other than the one that its
    response answers.
   */
  lemma OwnResponseIff(es: seq<Event>)
    requires Possible(START, es)
    ensures OwnResponses(After(START, es)) <==> DeliversOwn(START, es)
  {
    hide Step, Enabled;
    StartInvariant();
    OwnResponseFrom(START, es);
  }

  /** Any 256 consecutive numbers are distinct, and every 256th call has number 0. */
  lemma NumbersDistinct(es: seq<Event>, i: nat, j: nat)
    requires Possible(START, es) && i < j < |After(START, es).calls|
    ensures After(START, es).calls[i].txn == After(START, es).calls[j].txn <==> (j - i) % 256 == 0
    ensures After(START, es).calls[i].txn == 0 <==> i % 256 == 255
  {
    hide Step, Enabled, Possible, After;
    StartInvariant();
    RunKeepsInvariant(START, es);
    NumberIff(i, j);
  }

  lemma NumberIff(i: nat, j: nat)
    requires i < j
    ensures (1 + i) % 256 == (1 + j) % 256 <==> (j - i) % 256 == 0
    ensures (1 + i) % 256 == 0 <==> i % 256 == 255
  {
    NextNumber(i);
    NextNumber(j);
    SameRemainder(i, j);
  }

  lemma NextNumber(i: nat)
    ensures (1 + i) % 256 == if i % 256 == 255 then 0 else i % 256 + 1
  {
    if i % 256 == 255 {
      Remainder(1 + i, i / 256 + 1, 0);
    } else {
      Remainder(1 + i, i / 256, i % 256 + 1);
    }
  }

  lemma SameRemainder(i: nat, j: nat)
    requires i < j
    ensures i % 256 == j % 256 <==> (j - i) % 256 == 0
  {
    var a, b := i % 256, j % 256;
    if a <= b {
      Remainder(j - i, j / 256 - i / 256, b - a);
    } else {
      Remainder(j - i, j / 256 - i / 256 - 1, b - a + 256);
    }
  }

  lemma Remainder(n: nat, q: int, r: nat)
    requires n == 256 * q + r && r < 256
    ensures n % 256 == r
  {
  }

  // ---------------------------------------------------------------- The classes follow the run

  /** The objects show state `s`: transactions in order of creation, the table, and what the reader holds. */
  ghost predicate Shows(session: Session, made: seq<Transaction>, reader: Transaction?, s: State)
    reads session, session.slots, made
  {
    && session.Valid() && session.counter == s.counter && |made| == |s.calls| && |s.slots| == SLOTS
    && (forall i, j :: 0 <= i < j < |made| ==> made[i] != made[j])
    && (forall c :: 0 <= c < |made| ==> made[c].txn == s.calls[c].txn && made[c].status == s.calls[c].status)
    && (forall k :: 0 <= k < SLOTS ==>
          if s.slots[k].None? then session.slots[k] == null
          else s.slots[k].value < |made| && session.slots[k] == made[s.slots[k].value])
    && (if s.reader.None? then reader == null else s.reader.value.0 < |made| && reader == made[s.reader.value.0])
  }

  /** A caller's part: acquiring a number, and registering a transaction. */
  method PerformAcquire(session: Session, made: seq<Transaction>, reader: Transaction?, ghost s: State)
    returns (made': seq<Transaction>)
    requires Enabled(s, Acquire) && Shows(session, made, reader, s)
    modifies session
    ensures Shows(session, made', reader, Step(s, Acquire))
  {
    var k := session.Acquire();
    var t := new Transaction(k);
    made' := made + [t];
  }

  method PerformAdd(session: Session, made: seq<Transaction>, reader: Transaction?, ghost s: State, c: nat)
    requires Enabled(s, Add(c)) && Shows(session, made, reader, s)
    modifies session.slots
    ensures Shows(session, made, reader, Step(s, Add(c)))
  {
    var ok := session.Add(made[c]);
    ghost var k := s.calls[c].txn;
    assert forall i :: 0 <= i < SLOTS ==> session.slots[i] == session.slots[..][i];
  }

  /** The reader's part: taking a transaction out, and completing it. */
  method PerformRead(session: Session, made: seq<Transaction>, reader: Transaction?, ghost s: State, r: Response)
    returns (reader': Transaction?)
    requires Enabled(s, Read(r)) && Shows(session, made, reader, s)
    modifies session.slots
    ensures Shows(session, made, reader', Step(s, Read(r)))
  {
    ghost var was := session.slots[..];
    reader' := session.FetchAndRemove(r.txn);
    assert forall i :: 0 <= i < SLOTS ==> session.slots[i] == session.slots[..][i];
  }

  method PerformComplete(session: Session, made: seq<Transaction>, reader: Transaction, ghost s: State, r: Response)
    requires Enabled(s, Complete) && s.reader.value.1 == r && Shows(session, made, reader, s)
    modifies made
    ensures Shows(session, made, null, Step(s, Complete))
  {
    reader.SetResponse(r);
  }

  /** The timeout branch, and disposal. */
  method PerformRemove(session: Session, made: seq<Transaction>, reader: Transaction?, ghost s: State, c: nat)
    requires Enabled(s, Remove(c)) && Shows(session, made, reader, s)
    modifies session.slots
    ensures Shows(session, made, reader, Step(s, Remove(c)))
  {
    var _ := session.FetchAndRemove(made[c].txn);
    assert forall i :: 0 <= i < SLOTS ==> session.slots[i] == session.slots[..][i];
  }

  method PerformDispose(session: Session, made: seq<Transaction>, reader: Transaction?, ghost s: State)
    requires Enabled(s, Dispose) && Shows(session, made, reader, s)
    modifies session.slots, made
    ensures Shows(session, made, reader, Step(s, Dispose))
  {
    session.Clear();
  }

  // ---------------------------------------------------------------- No lost call

  /** The event takes call `c` out of its slot. */
  predicate TakesOut(s: State, e: Event, c: nat)
    requires Enabled(s, e) && c < |s.calls|
  {
    s.slots[s.calls[c].txn] == Some(c) && Step(s, e).slots[s.calls[c].txn] != Some(c)
  }

  /** A timeout branch runs so late that its number belongs to another call by now. */
  predicate Evicts(s: State, e: Event, c: nat) {
    && e.Remove? && e.call < |s.calls| && s.calls[e.call].txn < |s.slots| && c != e.call
    && s.slots[s.calls[e.call].txn] == Some(c)
  }

  /** A pending call leaves its slot by its response, its own timeout, disposal, or such an eviction. */
  lemma LeavesSlotBy(s: State, e: Event, c: nat)
    requires Invariant(s) && Enabled(s, e) && c < |s.calls|
    ensures TakesOut(s, e, c) <==>
            s.slots[s.calls[c].txn] == Some(c) &&
            (e == Dispose || (e.Read? && e.response.txn == s.calls[c].txn) || e == Remove(c) || Evicts(s, e, c))
  {
  }

  /** An eviction needs a number in use twice: two unfinished calls at least 256 apart. */
  lemma EvictionNeedsReuse(es: seq<Event>, e: Event, c: nat)
    requires Possible(START, es) && Enabled(After(START, es), e) && Evicts(After(START, es), e, c)
    ensures c < |After(START, es).calls| && |After(START, es).calls| > 256
    ensures c > e.call ==> c - e.call >= 256
    ensures c < e.call ==> e.call - c >= 256
  {
    hide Step, Possible, After;
    StartInvariant();
    RunKeepsInvariant(START, es);
    SameNumber(c, e.call);
  }

  /** A call that waits, or is about to, but that neither the table nor the reader knows. */
  predicate Orphan(s: State, c: nat) {
    && c < |s.calls| && s.calls[c].phase in {Added, Registered} && s.calls[c].status.Pending?
    && Some(c) !in s.slots && (s.reader.Some? ==> s.reader.value.0 != c)
  }

  ghost predicate NoOrphans(s: State) {
    forall c :: 0 <= c < |s.calls| ==> !Orphan(s, c)
  }

  /** The event evicts a call that still waits. */
  ghost predicate Loses(s: State, e: Event) {
    exists c :: 0 <= c < |s.calls| && Evicts(s, e, c) && s.calls[c].phase in {Added, Registered}
  }

  /** One step makes an orphan exactly when it evicts a waiting call. */
  lemma OrphanedBy(s: State, e: Event)
    requires Invariant(s) && Enabled(s, e) && NoOrphans(s)
    ensures NoOrphans(Step(s, e)) <==> !Loses(s, e)
  {
    var s' := Step(s, e);
    if Loses(s, e) {
      var c :| 0 <= c < |s.calls| && Evicts(s, e, c) && s.calls[c].phase in {Added, Registered};
      EvictedIsOrphan(s, e, c);
    } else {
      forall c | 0 <= c < |s'.calls| ensures !Orphan(s', c) {
        if Orphan(s', c) {
          NewOrphan(s, e, c);
        }
      }
    }
  }

  lemma EvictedIsOrphan(s: State, e: Event, c: nat)
    requires Invariant(s) && Enabled(s, e) && c < |s.calls| && Evicts(s, e, c)
    requires s.calls[c].phase in {Added, Registered}
    ensures Orphan(Step(s, e), c)
  {
    var s' := Step(s, e);
    forall k | 0 <= k < SLOTS ensures s'.slots[k] != Some(c) {
    }
  }

  lemma NewOrphan(s: State, e: Event, c: nat)
    requires Invariant(s) && Enabled(s, e) && Orphan(Step(s, e), c) && (c < |s.calls| ==> !Orphan(s, c))
    ensures c < |s.calls| && Evicts(s, e, c) && s.calls[c].phase in {Added, Registered}
  {
    var s' := Step(s, e);
    var k := (1 + c) % 256;
    assert k < SLOTS && s'.slots[k] != Some(c);
    if c < |s.calls| && s.calls[c].phase in {Added, Registered} {
      if Some(c) in s.slots {
        var j :| 0 <= j < |s.slots| && s.slots[j] == Some(c);
        assert j == k;
      }
    }
  }

  /** The run never evicts a waiting call. */
  ghost predicate Careful(s: State, es: seq<Event>)
    requires Possible(s, es)
    decreases |es|
  {
    es != [] ==> !Loses(s, es[0]) && Careful(Step(s, es[0]), es[1..])
  }

  /** No state of the run has an orphan. */
  ghost predicate NeverOrphans(s: State, es: seq<Event>)
    requires Possible(s, es)
    decreases |es|
  {
    NoOrphans(s) && (es != [] ==> NeverOrphans(Step(s, es[0]), es[1..]))
  }

  lemma {:induction false} NoLostCallFrom(s: State, es: seq<Event>)
    requires Invariant(s) && NoOrphans(s) && Possible(s, es)
    ensures NeverOrphans(s, es) <==> Careful(s, es)
    decreases |es|
  {
    hide Orphan, Loses, Step, Enabled, Invariant, NoOrphans;
    if es != [] {
      OrphanedBy(s, es[0]);
      StepKeepsInvariant(s, es[0]);
      if NoOrphans(Step(s, es[0])) {
        NoLostCallFrom(Step(s, es[0]), es[1..]);
      }
    }
  }

  /** No call is ever lost if and only if no timeout branch runs after its number went to another waiting call. */
  lemma NoLostCall(es: seq<Event>)
    requires Possible(START, es)
    ensures NeverOrphans(START, es) <==> Careful(START, es)
  {
    StartInvariant();
    NoLostCallFrom(START, es);
  }

  /** An orphan never completes, whatever arrives; only its own timeout or a failing write ends it. */
  lemma {:induction false} OrphanStays(s: State, es: seq<Event>, c: nat)
    requires Invariant(s) && Possible(s, es) && Orphan(s, c) && Delay(c) !in es && SendFails(c) !in es
    ensures Orphan(After(s, es), c)
    decreases |es|
  {
    if es != [] {
      OrphanStep(s, es[0], c);
      StepKeepsInvariant(s, es[0]);
      OrphanStays(Step(s, es[0]), es[1..], c);
    }
  }

  lemma OrphanStep(s: State, e: Event, c: nat)
    requires Invariant(s) && Enabled(s, e) && Orphan(s, c) && e != Delay(c) && e != SendFails(c)
    ensures Orphan(Step(s, e), c)
  {
    var s' := Step(s, e);
    forall j | 0 <= j < |s'.slots| ensures s'.slots[j] != Some(c) {
      assert j < |s.slots| ==> s.slots[j] != Some(c);
    }
  }

  // ---------------------------------------------------------------- A lost call

  function Acquires(n: nat): seq<Event> {
    if n == 0 then [] else [Acquire] + Acquires(n - 1)
  }

  lemma {:induction false} AfterAcquires(s: State, n: nat)
    requires Invariant(s)
    ensures Possible(s, Acquires(n))
    ensures var s' := After(s, Acquires(n));
            && Invariant(s') && s'.slots == s.slots && s'.reader == s.reader && |s'.calls| == |s.calls| + n
            && s'.calls[..|s.calls|] == s.calls
            && forall c :: |s.calls| <= c < |s'.calls| ==> s'.calls[c].phase == Acquired
    decreases n
  {
    if n > 0 {
      assert Acquires(n)[1..] == Acquires(n - 1);
      StepKeepsInvariant(s, Acquire);
      AfterAcquires(Step(s, Acquire), n - 1);
      var s' := After(s, Acquires(n));
      assert s'.calls[..|s.calls|] == s'.calls[..|s.calls| + 1][..|s.calls|];
      assert s'.calls[|s.calls|] == s'.calls[..|s.calls| + 1][|s.calls|];
    }
  }

  lemma {:induction false} AfterAppend(s: State, es: seq<Event>, fs: seq<Event>)
    requires Possible(s, es) && Possible(After(s, es), fs)
    ensures Possible(s, es + fs) && After(s, es + fs) == After(After(s, es), fs)
    decreases |es|
  {
    hide Step, Enabled;
    if es == [] {
      assert es + fs == fs;
    } else {
      assert (es + fs)[1..] == es[1..] + fs;
      AfterAppend(Step(s, es[0]), es[1..], fs);
    }
  }

  /** The first call times out just as it is answered, and has not yet run its timeout branch. */
  lemma FirstIsLate(r: Response) returns (es: seq<Event>)
    requires r.txn == 1 && r.answers == Some(0)
    ensures Possible(START, es) && Invariant(After(START, es))
    ensures After(START, es) == State(2, START.slots, [Call(1, Late, Completed(r))], None)
  {
    hide Step, Enabled, Invariant;
    var before := FirstWaits();
    var s := After(START, before);
    FirstAnswered(s, r);
    TwoSteps(s, Delay(0), Read(r));
    OneStep(Step(Step(s, Delay(0)), Read(r)), Complete);
    AfterAppend(START, before, [Delay(0), Read(r)]);
    es := before + [Delay(0), Read(r)];
    AfterAppend(START, es, [Complete]);
    es := es + [Complete];
    StartInvariant();
    RunKeepsInvariant(START, es);
  }

  /** The first call is registered and waits for its response. */
  lemma FirstWaits() returns (es: seq<Event>)
    ensures Possible(START, es)
    ensures After(START, es) == State(2, START.slots[1 := Some(0)], [Call(1, Registered, Pending)], None)
  {
    hide Step, Enabled;
    FirstRegistered();
    TwoSteps(START, Acquire, Add(0));
    OneStep(Step(Step(START, Acquire), Add(0)), Send(0));
    AfterAppend(START, [Acquire, Add(0)], [Send(0)]);
    es := [Acquire, Add(0)] + [Send(0)];
  }

  lemma FirstRegistered()
    ensures Enabled(START, Acquire) && Enabled(Step(START, Acquire), Add(0))
    ensures Enabled(Step(Step(START, Acquire), Add(0)), Send(0))
    ensures Step(Step(Step(START, Acquire), Add(0)), Send(0)) ==
            State(2, START.slots[1 := Some(0)], [Call(1, Registered, Pending)], None)
  {
    var s1 := Step(START, Acquire);
    assert s1 == State(2, START.slots, [Call(1, Acquired, Pending)], None);
    var s2 := Step(s1, Add(0));
    assert s2 == State(2, START.slots[1 := Some(0)], [Call(1, Added, Pending)], None);
  }

  lemma FirstAnswered(s: State, r: Response)
    requires r.txn == 1 && r.answers == Some(0)
    requires s == State(2, START.slots[1 := Some(0)], [Call(1, Registered, Pending)], None)
    ensures Enabled(s, Delay(0)) && Enabled(Step(s, Delay(0)), Read(r))
    ensures Enabled(Step(Step(s, Delay(0)), Read(r)), Complete)
    ensures Step(Step(Step(s, Delay(0)), Read(r)), Complete) ==
            State(2, START.slots, [Call(1, Late, Completed(r))], None)
  {
    var u := Step(s, Delay(0));
    assert u == State(2, START.slots[1 := Some(0)], [Call(1, Late, Pending)], None);
    var t := Step(u, Read(r));
    assert t.slots == START.slots;
    assert t == State(2, START.slots, [Call(1, Late, Pending)], Some((0, r)));
  }

  lemma OneStep(s: State, e: Event)
    requires Enabled(s, e)
    ensures Possible(s, [e]) && After(s, [e]) == Step(s, e)
  {
    hide Step, Enabled;
    assert [e][1..] == [];
    assert Possible(Step(s, e), []) && After(Step(s, e), []) == Step(s, e);
  }

  lemma TwoSteps(s: State, e: Event, f: Event)
    requires Enabled(s, e) && Enabled(Step(s, e), f)
    ensures Possible(s, [e, f]) && After(s, [e, f]) == Step(Step(s, e), f)
  {
    hide Step, Enabled;
    OneStep(Step(s, e), f);
    assert [e, f][1..] == [f];
  }

  lemma ReusedNumberIsRemoved(t: State)
    requires Invariant(t) && |t.calls| == 257 && t.slots[1] == None
    requires t.calls[0].phase == Late && t.calls[256].phase == Acquired
    ensures Possible(t, [Add(256), Remove(0)]) && Orphan(After(t, [Add(256), Remove(0)]), 256)
  {
    var t1 := Step(t, Add(256));
    StepKeepsInvariant(t, Add(256));
    assert t1.calls[0] == t.calls[0];
    assert Evicts(t1, Remove(0), 256);
    EvictedIsOrphan(t1, Remove(0), 256);
    TwoSteps(t, Add(256), Remove(0));
  }

  /**
    A reachable lost call: 256 calls later the same number is registered again,
    the late timeout branch of the first call removes it, and by `OrphanStays` the
    second call never completes even when its response arrives.
   */
  lemma LostCall(r: Response) returns (es: seq<Event>)
    requires r.txn == 1 && r.answers == Some(0)
    ensures Possible(START, es) && Orphan(After(START, es), 256) && !Careful(START, es)
  {
    hide Step, Enabled, Orphan, Careful, NeverOrphans, Possible, After, Acquires;
    var first := FirstIsLate(r);
    var s := After(START, first);
    AfterAcquires(s, 256);
    var t := After(s, Acquires(256));
    assert t.calls[0] == t.calls[..1][0] == s.calls[0];
    ReusedNumberIsRemoved(t);
    var tail := [Add(256), Remove(0)];
    AfterAppend(s, Acquires(256), tail);
    AfterAppend(START, first, Acquires(256) + tail);
    es := first + (Acquires(256) + tail);
    NoLostCall(es);
    if NeverOrphans(START, es) {
      EndsNeverOrphan(START, es);
    }
  }

  lemma {:induction false} EndsNeverOrphan(s: State, es: seq<Event>)
    requires Possible(s, es) && NeverOrphans(s, es)
    ensures NoOrphans(After(s, es))
    decreases |es|
  {
    hide Step, Enabled, NoOrphans;
    if es != [] {
      EndsNeverOrphan(Step(s, es[0]), es[1..]);
    }
  }

  // ---------------------------------------------------------------- A response to another call

  /** The first call has timed out and left the table. */
  lemma FirstTimedOut() returns (es: seq<Event>)
    ensures Possible(START, es) && Invariant(After(START, es))
    ensures After(START, es) == State(2, START.slots, [Call(1, TimedOut, Pending)], None)
  {
    hide Step, Enabled, Invariant;
    var before := FirstWaits();
    var s := After(START, before);
    FirstRemoved(s);
    TwoSteps(s, Delay(0), Remove(0));
    AfterAppend(START, before, [Delay(0), Remove(0)]);
    es := before + [Delay(0), Remove(0)];
    StartInvariant();
    RunKeepsInvariant(START, es);
  }

  lemma FirstRemoved(s: State)
    requires s == State(2, START.slots[1 := Some(0)], [Call(1, Registered, Pending)], None)
    ensures Enabled(s, Delay(0)) && Enabled(Step(s, Delay(0)), Remove(0))
    ensures Step(Step(s, Delay(0)), Remove(0)) == State(2, START.slots, [Call(1, TimedOut, Pending)], None)
  {
    var u := Step(s, Delay(0));
    assert u == State(2, START.slots[1 := Some(0)], [Call(1, Late, Pending)], None);
    assert Step(u, Remove(0)).slots == START.slots;
  }

  /** The call that reuses the number takes the late response. */
  lemma LateResponseIsTaken(t: State, r: Response)
    requires Invariant(t) && |t.calls| == 257 && t.slots[1] == None && t.reader == None
    requires t.calls[0].phase == TimedOut && t.calls[256].phase == Acquired && r.txn == 1 && r.answers == Some(0)
    ensures Possible(t, [Add(256), Send(256)])
    ensures var u := After(t, [Add(256), Send(256)]);
            Possible(u, [Read(r), Complete]) && |After(u, [Read(r), Complete]).calls| == 257 &&
            After(u, [Read(r), Complete]).calls[256].status == Completed(r)
  {
    hide Possible, After;
    var t1 := Step(t, Add(256));
    var t2 := Step(t1, Send(256));
    StepKeepsInvariant(t, Add(256));
    StepKeepsInvariant(t1, Send(256));
    assert t2.slots[1] == Some(256) && t2.calls[256].status == Pending && t2.calls[0] == t.calls[0];
    TwoSteps(t, Add(256), Send(256));
    var t3 := Step(t2, Read(r));
    StepKeepsInvariant(t2, Read(r));
    TwoSteps(t2, Read(r), Complete);
  }

  /** The bound is sharp: 256 calls later, a late response to the first call completes another one. */
  lemma WrongResponse(r: Response) returns (es: seq<Event>)
    requires r.txn == 1 && r.answers == Some(0)
    ensures Possible(START, es) && |After(START, es).calls| == 257
    ensures After(START, es).calls[256].status == Completed(r)
  {
    hide Step, Enabled, Possible, After, Acquires;
    var first := FirstTimedOut();
    var s := After(START, first);
    AfterAcquires(s, 256);
    var t := After(s, Acquires(256));
    assert t.calls[0] == t.calls[..1][0] == s.calls[0];
    LateResponseIsTaken(t, r);
    var u := After(t, [Add(256), Send(256)]);
    AfterAppend(t, [Add(256), Send(256)], [Read(r), Complete]);
    var tail := [Add(256), Send(256)] + [Read(r), Complete];
    AfterAppend(s, Acquires(256), tail);
    AfterAppend(START, first, Acquires(256) + tail);
    es := first + (Acquires(256) + tail);
  }

  // ---------------------------------------------------------------- A request that could not be written

  /** Call `c` failed to write its request and still occupies its slot. */
  predicate Stuck(s: State, c: nat) {
    c < |s.calls| && s.calls[c].txn < |s.slots| && s.calls[c].phase == Failed && s.slots[s.calls[c].txn] == Some(c)
  }

  /** The event frees slot `k`. */
  predicate Frees(e: Event, k: nat) {
    match e
    case Dispose => true
    case Read(r) => r.txn == k
    case Remove(c) => (1 + c) % 256 == k
    case _ => false
  }

  /** A failed write leaves its slot occupied until a response, a timeout branch or disposal happens to free it. */
  lemma {:induction false} StuckStays(s: State, es: seq<Event>, c: nat)
    requires Invariant(s) && Possible(s, es) && Stuck(s, c)
    requires forall i :: 0 <= i < |es| ==> !Frees(es[i], (1 + c) % 256)
    ensures Stuck(After(s, es), c)
    decreases |es|
  {
    hide Step, Enabled, Invariant, Stuck;
    if es != [] {
      StuckStep(s, es[0], c);
      StepKeepsInvariant(s, es[0]);
      StuckStays(Step(s, es[0]), es[1..], c);
    }
  }

  lemma StuckStep(s: State, e: Event, c: nat)
    requires Invariant(s) && Enabled(s, e) && Stuck(s, c) && !Frees(e, (1 + c) % 256)
    ensures Stuck(Step(s, e), c)
  {
  }

  /** Meanwhile every call that gets the same number is refused. */
  lemma StuckRefuses(s: State, c: nat, d: nat)
    requires Invariant(s) && Stuck(s, c) && Enabled(s, Add(d))
    ensures Step(s, Add(d)).calls[d].phase == Rejected <==> s.slots[s.calls[d].txn].Some?
    ensures (1 + d) % 256 == (1 + c) % 256 ==> Step(s, Add(d)).calls[d].phase == Rejected
  {
  }
}
