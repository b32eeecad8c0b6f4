/** Calls in flight: callers, the receive thread, the timeout thread and disconnection, interleaved over
    a network that may drop, repeat and reorder messages
    (workspace/src/framework/impl/ipc/service_proxy.cpp:104-155, 286-378, 473-609).

    One step is one section under the lock of the map of pending calls, or one action outside it.  */
module CallProtocol {
  import opened Wrappers
  import opened Bytes
  import opened Messages
  import opened CallIds
  import opened Clocks

  datatype Reason = TimedOut | Disconnected

  datatype Promise = Unset | Answered(response: Contents) | Broken(reason: Reason)

  /** Who took a call out of the map, and who fulfilled its promise. */
  datatype Actor = Receiver | Sweeper | Disconnector | Caller

  datatype Outcome =
    | Replied(response: Contents)
    | PromiseBroken(reason: Reason)   // error 4
    | SendFailed                      // error 2
    | WaitTimedOut                    // error 3
    | Threw                           // error 999

  datatype Phase =
    | Created                   // the request exists; the call is not yet in the map
    | Registered
    | Waiting(since: int)       // the request was sent
    | GaveUp(outcome: Outcome)  // the call is about to leave the map
    | Finished(outcome: Outcome)

  /** One pass through sendAndReceive.  `serial` numbers its request; `remover`, `fulfiller` and
      `fulfilments` record history and no step reads them. */
  datatype Attempt = Attempt(
    serial: nat, id: Id, start: int, timeout: nat, phase: Phase, promise: Promise,
    remover: Option<Actor>, fulfiller: Option<Actor>, fulfilments: nat)
  {
    function Key(): CallIds.Key {
      KeyOf(id)
    }

    /** What set_value or set_exception does; the second of two would throw, and be caught. */
    function Fulfil(p: Promise, actor: Actor): Attempt {
      this.(promise := if promise.Unset? then p else promise,
            fulfiller := if promise.Unset? then Some(actor) else fulfiller,
            fulfilments := fulfilments + 1)
    }

    function Remove(actor: Actor): Attempt {
      this.(remover := Some(actor))
    }
  }

  /** A message on the network: an answer to the request numbered `origin`, or one of another source. */
  datatype Emission = Emission(origin: Option<nat>, message: Contents)

  datatype Hand = Empty | Holding(attempt: nat, message: Contents)

  datatype Closing = Open | Stopping | Joined

  /** `pending` maps keys to attempts; `hand` is what the receive thread took out of it and has not yet
      delivered.  The identifier counter is the number of requests made, modulo 2^64. */
  datatype State = State(
    now: int, running: bool, closing: Closing,
    requests: seq<Contents>, randoms: seq<uint64>,
    attempts: seq<Attempt>, pending: map<CallIds.Key, nat>,
    hand: Hand, network: set<Emission>)

  datatype Step =
    | Tick(later: int)
    | Connect
    | Stop                                    // running_ = false
    | Join                                    // both threads have ended
    | RejectAll                               // "Proxy disconnected"
    | SendOneWay(request: Contents, random: uint64)
    | Create(request: Contents, random: uint64, timeout: nat)
    | Register(i: nat, start: int)            // registerPendingCall reads the clock before it locks the map
    | Send(i: nat)
    | FailToSend(i: nat)
    | ThrowInSend(i: nat)
    | WaitTimesOut(i: nat)
    | GetResponse(i: nat)
    | Unregister(i: nat)
    | Answer(serial: nat, message: Contents)  // the server answers, perhaps not for the first time
    | Stray(message: Contents)                // a message that answers none of the requests
    | Take(e: Emission)                       // handleResponse, under the lock
    | Deliver                                 // handleResponse, after it
    | Sweep(time: int)                        // one round of the timeout thread

  function Counter(s: State): uint64 {
    |s.requests| % COUNTER_RANGE
  }

  function IsReply(m: Contents): bool {
    m.header.messageType == RESPONSE || m.header.messageType == ERROR
  }

  predicate Late(start: int, timeout: nat, time: int) {
    Milliseconds(time - start) >= timeout
  }

  /** In nanoseconds: a call is late from its timeout on; without a timeout, from its start less than a
      millisecond ahead. */
  predicate TimeIsUp(start: int, timeout: nat, time: int) {
    time - start >= timeout * NANOSECONDS_PER_MILLISECOND || (timeout == 0 && time - start > -NANOSECONDS_PER_MILLISECOND)
  }

  lemma LateWhenTimeIsUp(start: int, timeout: nat, time: int)
    ensures Late(start, timeout, time) <==> TimeIsUp(start, timeout, time)
  {
    LimitReached(time - start, timeout);
  }

  predicate Expired(a: Attempt, time: int) {
    Late(a.start, a.timeout, time)
  }

  /** The keys the timeout thread finds at `time`. */
  ghost function ExpiredKeys(s: State, time: int): set<CallIds.Key>
    requires PendingInRange(s)
  {
    set k | k in s.pending && Expired(s.attempts[s.pending[k]], time)
  }

  ghost predicate PendingInRange(s: State) {
    forall k :: k in s.pending ==> s.pending[k] < |s.attempts|
  }

  /** The attempts after those listed in `pending` under `keys` had their promises broken. */
  function BreakAll(attempts: seq<Attempt>, pending: map<CallIds.Key, nat>, keys: set<CallIds.Key>,
                    reason: Reason, actor: Actor): (r: seq<Attempt>)
    ensures |r| == |attempts|
    ensures forall i :: 0 <= i < |r| ==> r[i] == BreakOne(attempts[i], i, pending, keys, reason, actor)
  {
    seq(|attempts|, i requires 0 <= i < |attempts| => BreakOne(attempts[i], i, pending, keys, reason, actor))
  }

  function BreakOne(a: Attempt, i: nat, pending: map<CallIds.Key, nat>, keys: set<CallIds.Key>,
                    reason: Reason, actor: Actor): Attempt {
    if a.Key() in keys && a.Key() in pending && pending[a.Key()] == i
    then a.Fulfil(Broken(reason), actor).Remove(actor)
    else a
  }

  ghost predicate Init(s: State) {
    && !s.running && s.closing == Open
    && s.requests == [] && s.randoms == [] && s.attempts == [] && s.pending == map[]
    && s.hand == Empty && s.network == {}
  }

  /** A new request carries the next identifier. */
  ghost predicate NewRequest(s: State, request: Contents, random: uint64) {
    request.header.messageId == CallId(Counter(s), random)
  }

  ghost predicate ThreadsRun(s: State) {
    s.running || s.closing == Stopping
  }

  function SetPhase(s: State, i: nat, phase: Phase): State
    requires i < |s.attempts|
  {
    s.(attempts := s.attempts[i := s.attempts[i].(phase := phase)])
  }

  ghost predicate NextStep(s: State, s': State, step: Step)
    requires PendingInRange(s) && (s.hand.Holding? ==> s.hand.attempt < |s.attempts|)
  {
    match step
    case Tick(later) => later >= s.now && s' == s.(now := later)
    case Connect => !s.running && s.closing != Stopping && s' == s.(running := true)
    case Stop => s.running && s.closing == Open && s' == s.(running := false, closing := Stopping)
    case Join => s.closing == Stopping && s.hand == Empty && s' == s.(closing := Joined)
    case RejectAll =>
      && s.closing == Joined
      && s' == s.(attempts := BreakAll(s.attempts, s.pending, s.pending.Keys, Disconnected, Disconnector),
                  pending := map[], closing := Open)
    case SendOneWay(request, random) =>
      && NewRequest(s, request, random)
      && s' == s.(requests := s.requests + [request], randoms := s.randoms + [random])
    case Create(request, random, timeout) =>
      && NewRequest(s, request, random)
      && s' == s.(requests := s.requests + [request], randoms := s.randoms + [random],
                  attempts := s.attempts + [Attempt(|s.requests|, request.header.messageId, s.now, timeout, Created, Unset, None, None, 0)])
    case Register(i, start) =>
      && i < |s.attempts| && s.attempts[i].phase == Created && s.attempts[i].start <= start <= s.now
      && s' == s.(attempts := s.attempts[i := s.attempts[i].(phase := Registered, start := start)],
                  pending := s.pending[s.attempts[i].Key() := i])
    case Send(i) =>
      && i < |s.attempts| && s.attempts[i].phase == Registered
      && s' == SetPhase(s, i, Waiting(s.now))
    case FailToSend(i) =>
      && i < |s.attempts| && s.attempts[i].phase == Registered
      && s' == SetPhase(s, i, GaveUp(SendFailed))
    case ThrowInSend(i) =>
      && i < |s.attempts| && s.attempts[i].phase == Registered
      && s' == SetPhase(s, i, Finished(Threw))
    case WaitTimesOut(i) =>
      && i < |s.attempts| && s.attempts[i].phase.Waiting? && s.attempts[i].promise == Unset
      && s.now >= s.attempts[i].phase.since + s.attempts[i].timeout * NANOSECONDS_PER_MILLISECOND
      && s' == SetPhase(s, i, GaveUp(WaitTimedOut))
    case GetResponse(i) =>
      && i < |s.attempts| && s.attempts[i].phase.Waiting? && s.attempts[i].promise != Unset
      && s' == SetPhase(s, i, Finished(
           match s.attempts[i].promise case Answered(m) => Replied(m) case Broken(r) => PromiseBroken(r) case Unset => Threw))
    case Unregister(i) =>
      && i < |s.attempts| && s.attempts[i].phase.GaveUp?
      && s' == Unregistered(s, i)
    case Answer(serial, message) =>
      && serial < |s.requests| && message.header.correlationId == s.requests[serial].header.messageId
      && s' == s.(network := s.network + {Emission(Some(serial), message)})
    case Stray(message) => s' == s.(network := s.network + {Emission(None, message)})
    case Take(e) =>
      && ThreadsRun(s) && s.hand == Empty && e in s.network
      && s' == Taken(s, e.message)
    case Deliver =>
      && s.hand.Holding?
      && s' == s.(hand := Empty,
                  attempts := s.attempts[s.hand.attempt := s.attempts[s.hand.attempt].Fulfil(Answered(s.hand.message), Receiver)])
    case Sweep(time) =>
      && ThreadsRun(s) && time <= s.now
      && s' == s.(attempts := BreakAll(s.attempts, s.pending, ExpiredKeys(s, time), TimedOut, Sweeper),
                  pending := s.pending - ExpiredKeys(s, time))
  }

  /** The caller erases the entry under its own key, if there is one. */
  function Unregistered(s: State, i: nat): State
    requires PendingInRange(s) && i < |s.attempts| && s.attempts[i].phase.GaveUp?
  {
    var a := s.attempts[i];
    var done := SetPhase(s, i, Finished(a.phase.outcome));
    if a.Key() in s.pending then
      var j := s.pending[a.Key()];
      done.(pending := s.pending - {a.Key()}, attempts := done.attempts[j := done.attempts[j].Remove(Caller)])
    else
      done
  }

  /** The receive thread looks the correlation identifier up, and takes the entry it finds. */
  function Taken(s: State, m: Contents): State
    requires PendingInRange(s)
  {
    var key := KeyOf(m.header.correlationId);
    if IsReply(m) && key in s.pending then
      var j := s.pending[key];
      s.(pending := s.pending - {key}, hand := Holding(j, m), attempts := s.attempts[j := s.attempts[j].Remove(Receiver)])
    else
      s
  }

  // ---------------------------------------------------------------------------------------------
  // What every step keeps
  // ---------------------------------------------------------------------------------------------

  /** The promise of an attempt is fulfilled by whoever removed it, once. */
  ghost predicate FulfilledByItsRemover(s: State, i: nat)
    requires i < |s.attempts|
  {
    var a := s.attempts[i];
    && a.fulfilments == (if a.promise.Unset? then 0 else 1)
    && (a.promise.Unset? <==> a.fulfiller == None)
    && (a.promise != Unset ==> a.remover == a.fulfiller && a.fulfiller != Some(Caller))
    && (a.promise.Answered? <==> a.fulfiller == Some(Receiver))
    && (a.promise == Broken(TimedOut) <==> a.fulfiller == Some(Sweeper))
    && (a.promise == Broken(Disconnected) <==> a.fulfiller == Some(Disconnector))
    && (a.promise == Unset && a.remover != None ==> a.remover == Some(Receiver) || a.remover == Some(Caller))
    && (a.remover == Some(Receiver) && a.promise == Unset <==> s.hand.Holding? && s.hand.attempt == i)
    && (a.phase == Created ==> a.remover == None)
  }

  /** The map lists attempts under their own keys, and only those that nobody has removed. */
  ghost predicate EntryLive(s: State, key: CallIds.Key)
    requires key in s.pending
  {
    var i := s.pending[key];
    && i < |s.attempts| && s.attempts[i].Key() == key
    && s.attempts[i].phase != Created && s.attempts[i].remover == None
  }

  ghost predicate ProperAnswer(s: State, i: nat, m: Contents)
    requires i < |s.attempts|
  {
    m.header.correlationId == s.attempts[i].id && IsReply(m) && exists origin :: Emission(origin, m) in s.network
  }

  ghost predicate AnswersAreProper(s: State, i: nat)
    requires i < |s.attempts|
  {
    var a := s.attempts[i];
    && (a.promise.Answered? ==> ProperAnswer(s, i, a.promise.response))
    && (a.phase.Finished? && a.phase.outcome.Replied? ==> a.promise == Answered(a.phase.outcome.response))
    && (a.phase.Finished? && a.phase.outcome.PromiseBroken? ==> a.promise == Broken(a.phase.outcome.reason))
    && (a.phase.GaveUp? ==> a.phase.outcome == SendFailed || a.phase.outcome == WaitTimedOut)
  }

  ghost predicate Inv(s: State) {
    && |s.randoms| == |s.requests|
    && (forall k | k in s.pending :: EntryLive(s, k))
    && (s.hand.Holding? ==> s.hand.attempt < |s.attempts| && ProperAnswer(s, s.hand.attempt, s.hand.message))
    && (forall i: nat | i < |s.attempts| :: FulfilledByItsRemover(s, i))
    && (forall i: nat | i < |s.attempts| :: AnswersAreProper(s, i))
  }

  predicate IsNew(a: Attempt) {
    a.phase == Created && a.promise == Unset && a.remover == None && a.fulfiller == None && a.fulfilments == 0
  }

  /** Steps that only make requests or put messages on the network. */
  lemma GrowthKeepsInv(s: State, s': State)
    requires Inv(s)
    requires s'.hand == s.hand && s'.pending == s.pending && s.network <= s'.network
    requires |s'.randoms| == |s'.requests|
    requires s.attempts <= s'.attempts
    requires forall i: nat :: |s.attempts| <= i < |s'.attempts| ==> IsNew(s'.attempts[i])
    ensures Inv(s')
  {
    forall k | k in s'.pending
      ensures EntryLive(s', k)
    {
      assert EntryLive(s, k);
    }
    forall i: nat | i < |s'.attempts|
      ensures FulfilledByItsRemover(s', i) && AnswersAreProper(s', i)
    {
      if i < |s.attempts| {
        assert FulfilledByItsRemover(s, i) && AnswersAreProper(s, i);
      }
    }
  }

  /** A step of a caller, past registration, whose result agrees with its promise. */
  lemma PhaseKeepsInv(s: State, i: nat, phase: Phase)
    requires Inv(s) && i < |s.attempts|
    requires s.attempts[i].phase != Created && phase != Created
    requires phase.Finished? && phase.outcome.Replied? ==> s.attempts[i].promise == Answered(phase.outcome.response)
    requires phase.Finished? && phase.outcome.PromiseBroken? ==> s.attempts[i].promise == Broken(phase.outcome.reason)
    requires phase.GaveUp? ==> phase.outcome == SendFailed || phase.outcome == WaitTimedOut
    ensures Inv(SetPhase(s, i, phase))
  {
    var s' := SetPhase(s, i, phase);
    forall k | k in s'.pending
      ensures EntryLive(s', k)
    {
      assert EntryLive(s, k);
    }
    forall j: nat | j < |s'.attempts|
      ensures FulfilledByItsRemover(s', j) && AnswersAreProper(s', j)
    {
      assert FulfilledByItsRemover(s, j) && AnswersAreProper(s, j);
    }
  }

  lemma RegisterKeepsInv(s: State, s': State, i: nat, start: int)
    requires Inv(s) && NextStep(s, s', Register(i, start))
    ensures Inv(s')
  {
    assert FulfilledByItsRemover(s, i);
    forall k | k in s'.pending
      ensures EntryLive(s', k)
    {
      assert k in s.pending ==> EntryLive(s, k);
    }
    forall j: nat | j < |s'.attempts|
      ensures FulfilledByItsRemover(s', j) && AnswersAreProper(s', j)
    {
      assert FulfilledByItsRemover(s, j) && AnswersAreProper(s, j);
    }
  }

  lemma BreakKeepsInv(s: State, s': State, keys: set<CallIds.Key>, reason: Reason, actor: Actor)
    requires Inv(s) && keys <= s.pending.Keys
    requires (reason == TimedOut && actor == Sweeper) || (reason == Disconnected && actor == Disconnector)
    requires s' == s.(attempts := BreakAll(s.attempts, s.pending, keys, reason, actor), pending := s.pending - keys, closing := s'.closing)
    ensures Inv(s')
  {
    forall k | k in s'.pending
      ensures EntryLive(s', k)
    {
      assert EntryLive(s, k);
    }
    forall j: nat | j < |s'.attempts|
      ensures FulfilledByItsRemover(s', j) && AnswersAreProper(s', j)
    {
      assert FulfilledByItsRemover(s, j) && AnswersAreProper(s, j);
      var key := s.attempts[j].Key();
      assert key in keys ==> EntryLive(s, key);
    }
  }

  lemma TakeKeepsInv(s: State, s': State, e: Emission)
    requires Inv(s) && NextStep(s, s', Take(e))
    ensures Inv(s')
  {
    var key := KeyOf(e.message.header.correlationId);
    if IsReply(e.message) && key in s.pending {
      assert EntryLive(s, key);
      KeysDiffer(e.message.header.correlationId, s.attempts[s.pending[key]].id);
      hide KeyOf;
      forall k | k in s'.pending
        ensures EntryLive(s', k)
      {
        assert EntryLive(s, k);
      }
      assert Emission(e.origin, e.message) in s'.network;
      forall j: nat | j < |s'.attempts|
        ensures FulfilledByItsRemover(s', j) && AnswersAreProper(s', j)
      {
        assert FulfilledByItsRemover(s, j) && AnswersAreProper(s, j);
      }
    }
  }

  lemma DeliverKeepsInv(s: State, s': State)
    requires Inv(s) && NextStep(s, s', Deliver)
    ensures Inv(s')
  {
    assert FulfilledByItsRemover(s, s.hand.attempt);
    forall k | k in s'.pending
      ensures EntryLive(s', k)
    {
      assert EntryLive(s, k);
    }
    forall j: nat | j < |s'.attempts|
      ensures FulfilledByItsRemover(s', j) && AnswersAreProper(s', j)
    {
      assert FulfilledByItsRemover(s, j) && AnswersAreProper(s, j);
    }
  }

  lemma UnregisterKeepsInv(s: State, s': State, i: nat)
    requires Inv(s) && NextStep(s, s', Unregister(i))
    ensures Inv(s')
  {
    hide KeyOf, Late;
    var key := s.attempts[i].Key();
    assert key in s.pending ==> EntryLive(s, key);
    forall k | k in s'.pending
      ensures EntryLive(s', k)
    {
      assert EntryLive(s, k);
    }
    forall j: nat | j < |s'.attempts|
      ensures FulfilledByItsRemover(s', j) && AnswersAreProper(s', j)
    {
      assert FulfilledByItsRemover(s, j) && AnswersAreProper(s, j);
    }
  }

  lemma CallerKeepsInv(s: State, s': State, step: Step)
    requires Inv(s) && NextStep(s, s', step)
    requires step.Send? || step.FailToSend? || step.ThrowInSend? || step.WaitTimesOut? || step.GetResponse?
    ensures Inv(s')
  {
    match step {
      case Send(i) => PhaseKeepsInv(s, i, Waiting(s.now));
      case FailToSend(i) => PhaseKeepsInv(s, i, GaveUp(SendFailed));
      case ThrowInSend(i) => PhaseKeepsInv(s, i, Finished(Threw));
      case WaitTimesOut(i) => PhaseKeepsInv(s, i, GaveUp(WaitTimedOut));
      case GetResponse(i) => PhaseKeepsInv(s, i, s'.attempts[i].phase);
    }
  }

  lemma NextKeepsInv(s: State, s': State, step: Step)
    requires Inv(s) && NextStep(s, s', step)
    ensures Inv(s')
  {
    match step {
      case RejectAll => BreakKeepsInv(s, s', s.pending.Keys, Disconnected, Disconnector);
      case Register(i, start) => RegisterKeepsInv(s, s', i, start);
      case Unregister(i) => UnregisterKeepsInv(s, s', i);
      case Take(e) => TakeKeepsInv(s, s', e);
      case Deliver => DeliverKeepsInv(s, s');
      case Sweep(time) => BreakKeepsInv(s, s', ExpiredKeys(s, time), TimedOut, Sweeper);
      case Tick(_) => GrowthKeepsInv(s, s');
      case Connect => GrowthKeepsInv(s, s');
      case Stop => GrowthKeepsInv(s, s');
      case Join => GrowthKeepsInv(s, s');
      case SendOneWay(_, _) => GrowthKeepsInv(s, s');
      case Create(_, _, _) => GrowthKeepsInv(s, s');
      case Answer(_, _) => GrowthKeepsInv(s, s');
      case Stray(_) => GrowthKeepsInv(s, s');
      case _ => CallerKeepsInv(s, s', step);
    }
  }
}
