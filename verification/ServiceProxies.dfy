/** The client side of a remote call (workspace/src/framework/impl/ipc/service_proxy.cpp:130-155, 212-240,
    286-432, 473-609): the map of pending calls, and the counters. */
module ServiceProxies {
  import opened Wrappers
  import opened Bytes
  import opened Messages
  import opened CallIds
  import opened CallProtocol
  import opened Clocks

  /** Error codes of the proxy itself; an error response brings its own. */
  const NOT_CONNECTED: uint32 := 1
  const SEND_FAILED: uint32 := 2
  const REQUEST_TIMEOUT: uint32 := 3
  const RECEIVE_FAILED: uint32 := 4
  const EXCEPTION: uint32 := 999

  datatype CallResult = CallResult(success: bool, data: seq<byte>, errorCode: uint32, retryCount: nat)

  function Failed(errorCode: uint32, retryCount: nat): CallResult {
    CallResult(false, [], errorCode, retryCount)
  }

  /** What the other threads do while a caller waits. */
  datatype Event = Arrival(message: Contents) | Round(time: int) | Disconnection

  /** What happens to one attempt: `start` is the clock when the call is registered, `drawn` says whether
      the request got its identifier before an exception, `storable` whether there is room for the payload
      of an answer. */
  datatype Fate =
    | Unreachable
    | CannotCreate(drawn: bool)
    | SendThrows(start: int)
    | SendFails(start: int)
    | Sent(start: int, events: seq<Event>, storable: bool)

  /** What one event does to the promise of the call. */
  function Resolve(event: Event, id: Id, start: int, timeout: nat): Promise {
    match event
    case Arrival(m) => if IsReply(m) && m.header.correlationId == id then Answered(m) else Unset
    case Round(time) => if Late(start, timeout, time) then Broken(TimedOut) else Unset
    case Disconnection => Broken(Disconnected)
  }

  /** The first event that concerns the call decides. */
  function Resolution(events: seq<Event>, id: Id, start: int, timeout: nat): Promise {
    if events == [] then Unset
    else
      var first := Resolve(events[0], id, start, timeout);
      if first != Unset then first else Resolution(events[1..], id, start, timeout)
  }

  lemma {:induction false} ResolutionNext(events: seq<Event>, i: nat, id: Id, start: int, timeout: nat)
    requires i < |events|
    ensures var before := Resolution(events[..i], id, start, timeout);
            Resolution(events[..i + 1], id, start, timeout) ==
              if before != Unset then before else Resolve(events[i], id, start, timeout)
    decreases i
  {
    hide Resolve;
    if i == 0 {
      assert events[..1][1..] == [] && events[..1][0] == events[0];
    } else {
      assert events[..i + 1][1..] == events[1..][..i] && events[..i][1..] == events[1..][..i - 1];
      ResolutionNext(events[1..], i - 1, id, start, timeout);
    }
  }

  // ---------------------------------------------------------------------------------------------
  // A call and its retries
  // ---------------------------------------------------------------------------------------------

  /** The world around a call: the fate of each attempt, given its number and identifier; the random
      number drawn for it; and the identifier counter, `origin` when the first attempt is made. */
  datatype World = World(fate: (nat, Id) -> Fate, draw: nat -> uint64, origin: nat, timeout: nat, retryEnabled: bool, maxAttempts: nat)
  {
    function IdAt(attempt: nat): Id {
      CallId((origin + attempt) % COUNTER_RANGE, draw(attempt))
    }

    function FateAt(attempt: nat): Fate {
      fate(attempt, IdAt(attempt))
    }

    predicate MayRetry(attempt: nat) {
      retryEnabled && attempt < maxAttempts
    }

    function PromiseAt(attempt: nat): Promise
      requires FateAt(attempt).Sent?
    {
      Resolution(FateAt(attempt).events, IdAt(attempt), FateAt(attempt).start, timeout)
    }

    /** The attempt ends without an answer, by a failure to send or by its own wait. */
    predicate Unanswered(attempt: nat) {
      FateAt(attempt).SendFails? || (FateAt(attempt).Sent? && PromiseAt(attempt) == Unset)
    }
  }

  /** What a call returns, and what it adds to the counters. */
  datatype Account = Account(
    result: CallResult, attempts: nat, successes: nat, failures: nat, timeouts: nat, retries: nat, behind: set<Key>, drawn: nat)

  function Failure(errorCode: uint32, attempt: nat): Account {
    Account(Failed(errorCode, attempt), 1, 0, 1, 0, 0, {}, 1)
  }

  /** An attempt that was sent and is not repeated. */
  function Ending(promise: Promise, attempt: nat, storable: bool): (a: Account)
    ensures a.attempts == 1 && a.retries == 0 && a.behind == {} && a.drawn == 1
  {
    match promise
    case Unset => Failure(REQUEST_TIMEOUT, attempt).(timeouts := 1)
    case Broken(_) => Failure(RECEIVE_FAILED, attempt)
    case Answered(m) =>
      if m.IsError() then Failure(m.errorInfo.code, attempt)
      else if m.payload != [] && !storable then Failure(EXCEPTION, attempt)
      else Account(CallResult(true, m.payload, 0, 0), 1, 1, 0, 0, 0, {}, 1)
  }

  /** An attempt that is to be repeated. */
  function Repeated(result: CallResult): Account {
    Account(result, 1, 0, 0, 0, 1, {}, 1)
  }

  /** A call from attempt number `attempt` on.  `behind` are the entries that it leaves in the map, `drawn`
      the identifiers that it uses up. */
  function AccountFrom(w: World, attempt: nat): Account
    decreases if w.maxAttempts >= attempt then w.maxAttempts - attempt else 0
  {
    var fate := w.FateAt(attempt);
    if fate.Unreachable? then
      Account(Failed(NOT_CONNECTED, attempt), 0, 0, 0, 0, 0, {}, 0)
    else if fate.CannotCreate? then
      Failure(EXCEPTION, attempt).(drawn := if fate.drawn then 1 else 0)
    else if fate.SendThrows? then
      Failure(EXCEPTION, attempt).(behind := {KeyOf(w.IdAt(attempt))})
    else if w.Unanswered(attempt) && w.MayRetry(attempt) then
      var rest := AccountFrom(w, attempt + 1);
      rest.(attempts := rest.attempts + 1, retries := rest.retries + 1, drawn := rest.drawn + 1)
    else if fate.SendFails? then
      Failure(SEND_FAILED, attempt)
    else
      Ending(w.PromiseAt(attempt), attempt, fate.storable)
  }

  /** Every attempt that was counted is a success, a failure or a retry, and the configuration limits
      how many there are. */
  lemma {:induction false} AccountBalances(w: World, attempt: nat)
    ensures var a := AccountFrom(w, attempt);
            && a.attempts == a.successes + a.failures + a.retries
            && a.successes + a.failures <= 1 && a.timeouts <= a.failures
            && (a.result.success <==> a.successes == 1)
            && (a.attempts == a.retries <==> a.result.errorCode == NOT_CONNECTED && a.failures == 0 && !a.result.success)
            && a.attempts <= 1 + (if w.retryEnabled && attempt < w.maxAttempts then w.maxAttempts - attempt else 0)
    decreases if w.maxAttempts >= attempt then w.maxAttempts - attempt else 0
  {
    hide KeyOf, CallId, Resolution;
    if w.Unanswered(attempt) && w.MayRetry(attempt) {
      AccountBalances(w, attempt + 1);
    }
  }

  /** Attempt `n` is answered by a response that is not an error and whose payload can be stored. */
  predicate Succeeds(w: World, n: nat) {
    && w.FateAt(n).Sent? && w.PromiseAt(n).Answered? && !w.PromiseAt(n).response.IsError()
    && (w.PromiseAt(n).response.payload == [] || w.FateAt(n).storable)
  }

  /** Every attempt before `n`, from `first` on, goes unanswered and may be repeated. */
  ghost predicate Reaches(w: World, first: nat, n: nat) {
    forall k: nat :: first <= k < n ==> w.Unanswered(k) && w.MayRetry(k)
  }

  /** A call succeeds exactly when some attempt within the limit is answered and every earlier one went
      unanswered; it then returns that answer's payload, and reports no retries even if there were some. */
  lemma {:induction false} SuccessIsAnAnsweredAttempt(w: World, first: nat, data: seq<byte>)
    ensures AccountFrom(w, first).result == CallResult(true, data, 0, 0) <==>
            exists n: nat :: first <= n && Succeeds(w, n) && w.PromiseAt(n).response.payload == data && Reaches(w, first, n)
    ensures AccountFrom(w, first).result.success ==> AccountFrom(w, first).result.errorCode == 0 && AccountFrom(w, first).result.retryCount == 0
    decreases if w.maxAttempts >= first then w.maxAttempts - first else 0
  {
    hide KeyOf, CallId, Resolution;
    if w.Unanswered(first) && w.MayRetry(first) {
      SuccessIsAnAnsweredAttempt(w, first + 1, data);
    }
  }

  // ---------------------------------------------------------------------------------------------
  // What ends a call
  // ---------------------------------------------------------------------------------------------

  /** An event that ends the wait for a call: a response or an error in answer to it, a round of the timeout
      thread once its time is up, disconnection. */
  predicate Concerns(event: Event, id: Id, start: int, timeout: nat) {
    match event
    case Arrival(m) => m.header.correlationId == id && (m.header.messageType == RESPONSE || m.header.messageType == ERROR)
    case Round(time) => TimeIsUp(start, timeout, time)
    case Disconnection => true
  }

  lemma ResolvesWhatConcerns(event: Event, id: Id, start: int, timeout: nat)
    ensures Resolve(event, id, start, timeout) ==
            if !Concerns(event, id, start, timeout) then Unset
            else
              match event
              case Arrival(m) => Answered(m)
              case Round(_) => Broken(TimedOut)
              case Disconnection => Broken(Disconnected)
  {
    hide Late, TimeIsUp;
    if event.Round? {
      LateWhenTimeIsUp(start, timeout, event.time);
    }
  }

  /** The first event that concerns a call decides how its wait ends; without one it times out. */
  lemma {:induction false} FirstThatConcernsDecides(events: seq<Event>, k: nat, id: Id, start: int, timeout: nat)
    requires k <= |events| && forall j :: 0 <= j < k ==> !Concerns(events[j], id, start, timeout)
    requires k < |events| ==> Concerns(events[k], id, start, timeout)
    ensures Resolution(events, id, start, timeout) ==
            if k == |events| then Unset
            else
              match events[k]
              case Arrival(m) => Answered(m)
              case Round(_) => Broken(TimedOut)
              case Disconnection => Broken(Disconnected)
  {
    hide Resolve, Concerns;
    if events != [] {
      ResolvesWhatConcerns(events[0], id, start, timeout);
      if k > 0 {
        FirstThatConcernsDecides(events[1..], k - 1, id, start, timeout);
      }
    }
  }

  /** Attempt `n` is the last one of a call whose first is `first`. */
  ghost predicate LastAttempt(w: World, first: nat, n: nat) {
    first <= n && Reaches(w, first, n) && !(w.Unanswered(n) && w.MayRetry(n))
  }

  /** The attempts before the last one count as retries, and as nothing else. */
  lemma {:induction false} RetriesLeadToTheLastAttempt(w: World, first: nat, n: nat)
    requires LastAttempt(w, first, n)
    ensures var last := AccountFrom(w, n);
            AccountFrom(w, first) == last.(attempts := last.attempts + n - first, retries := n - first, drawn := last.drawn + n - first)
            && last.retries == 0
    decreases n - first
  {
    hide KeyOf, CallId, Resolution;
    if first < n {
      assert w.Unanswered(first) && w.MayRetry(first);
      RetriesLeadToTheLastAttempt(w, first + 1, n);
    }
  }

  /** How a call ends, by the fate of its last attempt: what it reports, what it counts, and whether it leaves
      an entry behind. */
  lemma CallEndsAsItsLastAttempt(w: World, first: nat, n: nat)
    requires LastAttempt(w, first, n)
    ensures var a, fate := AccountFrom(w, first), w.FateAt(n);
      && a.retries == n - first && a.attempts == n - first + (if fate.Unreachable? then 0 else 1)
      && a.attempts == a.successes + a.failures + a.retries
      && a.timeouts == (if fate.Sent? && w.PromiseAt(n) == Unset then 1 else 0)
      && a.behind == (if fate.SendThrows? then {KeyOf(w.IdAt(n))} else {})
      && a.drawn == n - first + (if fate.Unreachable? || fate == CannotCreate(false) then 0 else 1)
      && (match fate
          case Unreachable => a.result == Failed(1, n)
          case CannotCreate(_) => a.result == Failed(999, n) && a.failures == 1
          case SendThrows(_) => a.result == Failed(999, n) && a.failures == 1
          case SendFails(_) => a.result == Failed(2, n) && a.failures == 1
          case Sent(_, _, storable) =>
            match w.PromiseAt(n)
            case Unset => a.result == Failed(3, n) && a.failures == 1
            case Broken(_) => a.result == Failed(4, n) && a.failures == 1
            case Answered(m) =>
              if m.header.messageType == ERROR then a.result == Failed(m.errorInfo.code, n) && a.failures == 1
              else if m.payload != [] && !storable then a.result == Failed(999, n) && a.failures == 1
              else a.result == CallResult(true, m.payload, 0, 0) && a.successes == 1 && a.failures == 0)
  {
    hide KeyOf, CallId, Resolution;
    RetriesLeadToTheLastAttempt(w, first, n);
  }

  /** If an error message in answer to its request is the first event that concerns an attempt, the call
      fails with that message's code, counts one failure and makes no further attempt. */
  lemma ErrorAnswerFailsTheCall(w: World, first: nat, n: nat, k: nat)
    requires first <= n && Reaches(w, first, n) && w.FateAt(n).Sent? && k < |w.FateAt(n).events|
    requires forall j :: 0 <= j < k ==> !Concerns(w.FateAt(n).events[j], w.IdAt(n), w.FateAt(n).start, w.timeout)
    requires w.FateAt(n).events[k].Arrival?
    requires var h := w.FateAt(n).events[k].message.header; h.messageType == ERROR && h.correlationId == w.IdAt(n)
    ensures var a, m := AccountFrom(w, first), w.FateAt(n).events[k].message;
            && !a.result.success && a.result.errorCode == m.errorInfo.code && a.result.retryCount == n
            && a.failures == 1 && a.successes == 0 && a.timeouts == 0 && a.attempts == n - first + 1
  {
    hide KeyOf, CallId, Resolution, TimeIsUp, AccountFrom;
    FirstThatConcernsDecides(w.FateAt(n).events, k, w.IdAt(n), w.FateAt(n).start, w.timeout);
    CallEndsAsItsLastAttempt(w, first, n);
  }

  // ---------------------------------------------------------------------------------------------
  // The reported number of retries
  // ---------------------------------------------------------------------------------------------

  /** A call that fails reports the number of its last attempt, which is the number of retries made. */
  lemma {:induction false} FailuresReportTheirRetries(w: World, first: nat)
    ensures var a := AccountFrom(w, first); !a.result.success ==> a.result.retryCount == first + a.retries
    decreases if w.maxAttempts >= first then w.maxAttempts - first else 0
  {
    hide KeyOf, CallId, Resolution;
    if w.Unanswered(first) && w.MayRetry(first) {
      FailuresReportTheirRetries(w, first + 1);
    }
  }

  lemma SuccessIsReached(w: World, first: nat)
    ensures AccountFrom(w, first).result.success <==>
            exists n: nat :: first <= n && Succeeds(w, n) && Reaches(w, first, n)
    ensures AccountFrom(w, first).result.success ==> AccountFrom(w, first).result.retryCount == 0
  {
    hide KeyOf, CallId, Resolution, AccountFrom, Reaches;
    SuccessIsAnAnsweredAttempt(w, first, AccountFrom(w, first).result.data);
    forall n: nat | first <= n && Succeeds(w, n) && Reaches(w, first, n)
      ensures AccountFrom(w, first).result.success
    {
      SuccessIsAnAnsweredAttempt(w, first, w.PromiseAt(n).response.payload);
    }
  }

  /** The reported number of retries is wrong exactly when the first attempt went unanswered and was
      repeated, and a later attempt was answered with success after others that also went unanswered. */
  lemma RetryCountIsWrongExactlyAfterALateSuccess(w: World)
    ensures AccountFrom(w, 0).result.retryCount != AccountFrom(w, 0).retries <==>
            exists n: nat :: 1 <= n && Succeeds(w, n) && Reaches(w, 0, n)
  {
    hide KeyOf, CallId, Resolution, Succeeds;
    SuccessIsReached(w, 0);
    SuccessIsReached(w, 1);
    FailuresReportTheirRetries(w, 0);
    OneMoreRetry(w);
  }

  lemma OneMoreRetry(w: World)
    ensures w.Unanswered(0) && w.MayRetry(0) ==>
              AccountFrom(w, 0).retries == AccountFrom(w, 1).retries + 1 && AccountFrom(w, 0).result == AccountFrom(w, 1).result
    ensures !(w.Unanswered(0) && w.MayRetry(0)) ==> AccountFrom(w, 0).retries == 0
  {
    hide KeyOf, CallId, Resolution;
  }

  /** An answer without a payload to the request with this identifier. */
  function EmptyAnswer(id: Id): Contents {
    Contents(DEFAULT_HEADER.(messageType := RESPONSE, correlationId := id), DEFAULT_METADATA, [], DEFAULT_ERROR_INFO)
  }

  /** The first request cannot be sent, the second is answered. */
  const SECOND_TRY: World := World(
    (attempt: nat, id: Id) => if attempt == 0 then SendFails(0) else Sent(0, [Arrival(EmptyAnswer(id))], true),
    (attempt: nat) => 0, 0, 1000, true, 3)

  /** There is such a call: one retry made, none reported. */
  lemma ALateSuccessReportsNoRetry()
    ensures AccountFrom(SECOND_TRY, 0).result == CallResult(true, [], 0, 0) && AccountFrom(SECOND_TRY, 0).retries == 1
  {
    hide CallId, KeyOf;
    var w := SECOND_TRY;
    assert w.Unanswered(0) && w.MayRetry(0);
    assert w.PromiseAt(1) == Answered(EmptyAnswer(w.IdAt(1)));
  }

  /** Apart from the entries left behind, the map lists only what it listed before. */
  ghost predicate LeavesBehind(pending: map<Key, PendingCall>, keys: set<Key>, before: map<Key, PendingCall>) {
    && keys <= pending.Keys
    && forall k :: k in pending && k !in keys ==> k in before && pending[k] == before[k]
  }

  lemma LeavesBehindNext(p: map<Key, PendingCall>, q: map<Key, PendingCall>, keys: set<Key>, r: map<Key, PendingCall>)
    requires LeavesBehind(q, {}, p) && LeavesBehind(r, keys, q)
    ensures LeavesBehind(r, keys, p)
  {
  }

  lemma CounterNext(n: nat)
    ensures (n % COUNTER_RANGE + 1) % COUNTER_RANGE == (n + 1) % COUNTER_RANGE
  {
  }

  class PendingCall {
    const id: Id
    const start: int
    const timeout: nat
    var promise: Promise

    constructor (id: Id, start: int, timeout: nat)
      ensures this.id == id && this.start == start && this.timeout == timeout && promise == Unset
    {
      this.id, this.start, this.timeout, promise := id, start, timeout, Unset;
    }

    /** set_value and set_exception: the second of two throws. */
    method Fulfil(p: Promise) returns (done: bool)
      modifies this
      ensures done <==> old(promise).Unset?
      ensures promise == if done then p else old(promise)
    {
      done := promise.Unset?;
      if done {
        promise := p;
      }
    }
  }

  class ServiceProxy {
    const retryEnabled: bool
    const maxAttempts: nat
    var callIdCounter: uint64
    var pending: map<Key, PendingCall>
    var totalCalls: nat
    var successfulCalls: nat
    var failedCalls: nat
    var timeoutCalls: nat
    var totalRetries: nat
    var activeCalls: nat

    /** Every listed call is listed under its own key, and nobody has fulfilled it. */
    ghost predicate Valid()
      reads this, pending.Values
    {
      forall k :: k in pending ==> pending[k].promise == Unset && KeyOf(pending[k].id) == k
    }

    constructor (retryEnabled: bool, maxAttempts: nat)
      ensures Valid() && this.retryEnabled == retryEnabled && this.maxAttempts == maxAttempts
      ensures pending == map[] && callIdCounter == 0
      ensures totalCalls == successfulCalls == failedCalls == timeoutCalls == totalRetries == activeCalls == 0
    {
      this.retryEnabled, this.maxAttempts := retryEnabled, maxAttempts;
      callIdCounter, pending := 0, map[];
      totalCalls, successfulCalls, failedCalls, timeoutCalls, totalRetries, activeCalls := 0, 0, 0, 0, 0, 0;
    }

    /** `random` is the number drawn. */
    method GenerateCallId(random: uint64) returns (id: Id)
      modifies this`callIdCounter
      ensures id == CallId(old(callIdCounter), random)
      ensures callIdCounter == (old(callIdCounter) + 1) % COUNTER_RANGE
    {
      id := CallId(callIdCounter, random);
      callIdCounter := (callIdCounter + 1) % COUNTER_RANGE;
    }

    method RegisterPendingCall(id: Id, start: int, timeout: nat) returns (call: PendingCall)
      requires Valid()
      modifies this`pending
      ensures fresh(call) && call.id == id && call.start == start && call.timeout == timeout && call.promise == Unset
      ensures pending == old(pending)[KeyOf(id) := call]
      ensures Valid()
    {
      call := new PendingCall(id, start, timeout);
      var key := CallIdToString(id);
      pending := pending[key := call];
    }

    method UnregisterPendingCall(id: Id)
      requires Valid()
      modifies this`pending
      ensures pending == old(pending) - {KeyOf(id)}
      ensures Valid()
    {
      var key := CallIdToString(id);
      pending := pending - {key};
    }

    /** A reply leaves the map with the call it answers, and only that call's promise changes. */
    method HandleResponse(m: Contents)
      requires Valid()
      modifies this`pending, pending.Values
      ensures Valid()
      ensures var key := KeyOf(m.header.correlationId);
              && pending == old(pending) - {key}
              && (key in old(pending) ==> old(pending)[key].promise == Answered(m))
              && forall k :: k in old(pending) && k != key ==> old(pending)[k].promise == Unset
    {
      hide KeyOf;
      var key := CallIdToString(m.header.correlationId);
      if key in pending {
        var call := pending[key];
        pending := pending - {key};
        var _ := call.Fulfil(Answered(m));
      }
    }

    /** One message taken by the receive thread. */
    method Receive(m: Contents)
      requires Valid()
      modifies this`pending, pending.Values
      ensures Valid()
      ensures m.header.messageType == RESPONSE || m.header.messageType == ERROR ==>
                var key := KeyOf(m.header.correlationId);
                && pending == old(pending) - {key}
                && (key in old(pending) ==> old(pending)[key].promise == Answered(m))
                && forall k :: k in old(pending) && k != key ==> old(pending)[k].promise == Unset
      ensures m.header.messageType != RESPONSE && m.header.messageType != ERROR ==>
                pending == old(pending) && forall k :: k in pending ==> pending[k].promise == Unset
    {
      if IsReply(m) {
        HandleResponse(m);
      }
    }

    /** The keys the timeout thread collects, each once. */
    method FindTimedOut(time: int) returns (timedOut: seq<Key>)
      requires Valid()
      ensures forall k :: k in timedOut <==> k in pending && Late(pending[k].start, pending[k].timeout, time)
      ensures forall i, j :: 0 <= i < j < |timedOut| ==> timedOut[i] != timedOut[j]
    {
      hide KeyOf, Late;
      timedOut := [];
      var left := pending.Keys;
      while left != {}
        invariant left <= pending.Keys
        invariant forall k :: k in timedOut <==> k in pending && k !in left && Late(pending[k].start, pending[k].timeout, time)
        invariant forall i, j :: 0 <= i < j < |timedOut| ==> timedOut[i] != timedOut[j]
        decreases |left|
      {
        var k :| k in left;
        left := left - {k};
        if Late(pending[k].start, pending[k].timeout, time) {
          timedOut := timedOut + [k];
        }
      }
    }

    /** One round of the timeout thread breaks the promises of exactly the calls that are late. */
    method SweepTimeouts(time: int)
      requires Valid()
      modifies this`pending, pending.Values
      ensures Valid()
      ensures pending == map k | k in old(pending) && !TimeIsUp(old(pending)[k].start, old(pending)[k].timeout, time) :: old(pending)[k]
      ensures forall k :: k in old(pending) ==>
                old(pending)[k].promise == if k in pending then Unset else Broken(TimedOut)
    {
      hide KeyOf, Late, TimeIsUp;
      var timedOut := FindTimedOut(time);
      ghost var was := pending;
      forall k | k in pending
        ensures k in timedOut <==> TimeIsUp(pending[k].start, pending[k].timeout, time)
      {
        LateWhenTimeIsUp(pending[k].start, pending[k].timeout, time);
      }
      var i := 0;
      while i < |timedOut|
        invariant 0 <= i <= |timedOut|
        invariant forall k :: k in pending <==> k in was && k !in timedOut[..i]
        invariant forall k :: k in pending ==> pending[k] == was[k]
        invariant forall k :: k in was ==> was[k].promise == (if k in pending then Unset else Broken(TimedOut)) && KeyOf(was[k].id) == k
      {
        var key := timedOut[i];
        if key in pending {
          var call := pending[key];
          var _ := call.Fulfil(Broken(TimedOut));
          pending := pending - {key};
        }
        i := i + 1;
      }
    }

    /** Disconnection breaks every promise and leaves no call behind. */
    method RejectPending()
      requires Valid()
      modifies this`pending, pending.Values
      ensures Valid() && pending == map[]
      ensures forall k :: k in old(pending) ==> old(pending)[k].promise == Broken(Disconnected)
    {
      hide KeyOf;
      var left := pending.Keys;
      while left != {}
        invariant left <= pending.Keys && pending == old(pending)
        invariant forall k :: k in pending ==>
                    pending[k].promise == (if k in left then Unset else Broken(Disconnected)) && KeyOf(pending[k].id) == k
        decreases |left|
      {
        var k :| k in left;
        var call := pending[k];
        var _ := call.Fulfil(Broken(Disconnected));
        left := left - {k};
      }
      pending := map[];
    }

    ghost predicate Lists(call: PendingCall)
      reads this
    {
      KeyOf(call.id) in pending && pending[KeyOf(call.id)] == call
    }

    ghost predicate Shrinks(before: map<Key, PendingCall>)
      reads this
    {
      forall k :: k in pending ==> k in before && pending[k] == before[k]
    }

    /** An event settles the promise of a listed call, and takes it out of the map, or does neither. */
    method HandleEvent(event: Event, call: PendingCall)
      requires Valid() && (call.promise == Unset <==> Lists(call))
      modifies this`pending, pending.Values
      ensures Valid() && Shrinks(old(pending)) && (call.promise == Unset <==> Lists(call))
      ensures call.promise == if old(call.promise) != Unset then old(call.promise)
                              else Resolve(event, call.id, call.start, call.timeout)
    {
      hide Late, TimeIsUp;
      match event {
        case Arrival(m) =>
          KeysDiffer(m.header.correlationId, call.id);
          hide KeyOf;
          Receive(m);
        case Round(time) =>
          hide KeyOf;
          LateWhenTimeIsUp(call.start, call.timeout, time);
          SweepTimeouts(time);
        case Disconnection =>
          hide KeyOf;
          RejectPending();
      }
    }

    /** While the caller waits, the first event that concerns its call decides. */
    method Wait(call: PendingCall, events: seq<Event>)
      requires Valid() && call.promise == Unset && Lists(call)
      modifies this`pending, pending.Values
      ensures Valid() && Shrinks(old(pending)) && (call.promise == Unset <==> Lists(call))
      ensures call.promise == Resolution(events, call.id, call.start, call.timeout)
    {
      hide KeyOf, Resolve;
      var i := 0;
      while i < |events|
        invariant 0 <= i <= |events|
        invariant Valid() && Shrinks(old(pending)) && (call.promise == Unset <==> Lists(call))
        invariant call.promise == Resolution(events[..i], call.id, call.start, call.timeout)
      {
        ResolutionNext(events, i, call.id, call.start, call.timeout);
        HandleEvent(events[i], call);
        i := i + 1;
      }
      assert events[..i] == events;
    }

    /** The counters after a call, given those before it. */
    ghost predicate Counted(a: Account, total: nat, successful: nat, failed: nat, timeouts: nat, retries: nat, active: nat)
      reads this
    {
      && totalCalls == total + a.attempts
      && successfulCalls == successful + a.successes
      && failedCalls == failed + a.failures
      && timeoutCalls == timeouts + a.timeouts
      && totalRetries == retries + a.retries
      && activeCalls == active
    }

    /** One attempt, from registration until its entry is gone; Unset when there is no answer. */
    method Exchange(w: World, id: Id, sending: Fate) returns (promise: Promise)
      requires Valid() && (sending.Sent? || sending.SendFails?)
      modifies this`pending, pending.Values
      ensures Valid() && LeavesBehind(pending, {}, old(pending))
      ensures promise == if sending.Sent? then Resolution(sending.events, id, sending.start, w.timeout) else Unset
    {
      hide KeyOf, Resolution;
      var call := RegisterPendingCall(id, sending.start, w.timeout);
      if sending.SendFails? {
        UnregisterPendingCall(id);
        return Unset;
      }
      Wait(call, sending.events);
      promise := call.promise;
      if promise == Unset {
        UnregisterPendingCall(id);
      }
    }

    /** The last attempt of a call ends. */
    method Conclude(promise: Promise, attempt: nat, storable: bool) returns (result: CallResult)
      requires activeCalls > 0
      modifies `successfulCalls, `failedCalls, `timeoutCalls, `activeCalls
      ensures result == Ending(promise, attempt, storable).result
      ensures successfulCalls == old(successfulCalls) + Ending(promise, attempt, storable).successes
      ensures failedCalls == old(failedCalls) + Ending(promise, attempt, storable).failures
      ensures timeoutCalls == old(timeoutCalls) + Ending(promise, attempt, storable).timeouts
      ensures activeCalls == old(activeCalls) - 1
    {
      activeCalls := activeCalls - 1;
      if promise == Unset {
        timeoutCalls, failedCalls := timeoutCalls + 1, failedCalls + 1;
        return Failed(REQUEST_TIMEOUT, attempt);
      }
      if promise.Broken? {
        failedCalls := failedCalls + 1;
        return Failed(RECEIVE_FAILED, attempt);
      }
      if promise.response.IsError() {
        failedCalls := failedCalls + 1;
        return Failed(promise.response.errorInfo.code, attempt);
      }
      if promise.response.payload != [] && !storable {
        failedCalls := failedCalls + 1;
        return Failed(EXCEPTION, attempt);
      }
      successfulCalls := successfulCalls + 1;
      return CallResult(true, promise.response.payload, 0, 0);
    }

    /** An exception ends the attempt, before or after its call was registered. */
    method Break(w: World, attempt: nat)
      requires Valid() && activeCalls > 0 && (w.FateAt(attempt).CannotCreate? || w.FateAt(attempt).SendThrows?)
      requires callIdCounter == (w.origin + attempt) % COUNTER_RANGE
      modifies `callIdCounter, `pending, `failedCalls, `activeCalls
      ensures Valid() && LeavesBehind(pending, AccountFrom(w, attempt).behind, old(pending))
      ensures failedCalls == old(failedCalls) + 1 && activeCalls == old(activeCalls) - 1
      ensures callIdCounter == (w.origin + attempt + AccountFrom(w, attempt).drawn) % COUNTER_RANGE
    {
      hide KeyOf, CallId, Resolution;
      var fate := w.FateAt(attempt);
      CounterNext(w.origin + attempt);
      if fate.SendThrows? || fate.drawn {
        var id := GenerateCallId(w.draw(attempt));
        if fate.SendThrows? {
          var _ := RegisterPendingCall(id, fate.start, w.timeout);
        }
      }
      failedCalls, activeCalls := failedCalls + 1, activeCalls - 1;
    }

    /** What becomes of an attempt that was sent, or could not be: it is repeated, or ends the call. */
    method Settle(w: World, attempt: nat, promise: Promise) returns (again: bool, result: CallResult)
      requires w.retryEnabled == retryEnabled && w.maxAttempts == maxAttempts && activeCalls > 0
      requires w.FateAt(attempt).SendFails? || w.FateAt(attempt).Sent?
      requires promise == if w.FateAt(attempt).Sent? then w.PromiseAt(attempt) else Unset
      modifies `successfulCalls, `failedCalls, `timeoutCalls, `totalRetries, `activeCalls
      ensures again == (w.Unanswered(attempt) && w.MayRetry(attempt))
      ensures var a := if again then Repeated(result) else AccountFrom(w, attempt);
              && a.attempts == 1 && a.behind == {} && a.drawn == 1 && a.result == result
              && successfulCalls == old(successfulCalls) + a.successes && failedCalls == old(failedCalls) + a.failures
              && timeoutCalls == old(timeoutCalls) + a.timeouts && totalRetries == old(totalRetries) + a.retries
              && activeCalls == old(activeCalls) - 1
    {
      hide KeyOf, CallId, Resolution, Ending;
      if promise == Unset && retryEnabled && attempt < maxAttempts {
        totalRetries, activeCalls := totalRetries + 1, activeCalls - 1;
        return true, Failed(0, attempt);
      }
      again := false;
      if w.FateAt(attempt).SendFails? {
        failedCalls, activeCalls := failedCalls + 1, activeCalls - 1;
        result := Failed(SEND_FAILED, attempt);
      } else {
        result := Conclude(promise, attempt, w.FateAt(attempt).storable);
      }
    }

    /** An attempt up to the point where it ends the call or is to be repeated. */
    method Try(w: World, attempt: nat) returns (again: bool, result: CallResult)
      requires Valid() && w.retryEnabled == retryEnabled && w.maxAttempts == maxAttempts
      requires callIdCounter == (w.origin + attempt) % COUNTER_RANGE
      modifies this, pending.Values
      ensures Valid() && again == (w.Unanswered(attempt) && w.MayRetry(attempt))
      ensures LeavesBehind(pending, if again then {} else AccountFrom(w, attempt).behind, old(pending))
      ensures callIdCounter == (w.origin + attempt + if again then 1 else AccountFrom(w, attempt).drawn) % COUNTER_RANGE
      ensures !again ==> result == AccountFrom(w, attempt).result
      ensures Counted(if again then Repeated(result) else AccountFrom(w, attempt), old(totalCalls), old(successfulCalls), old(failedCalls),
                      old(timeoutCalls), old(totalRetries), old(activeCalls))
    {
      hide KeyOf, CallId, Resolution, Ending;
      again := false;
      var fate := w.FateAt(attempt);
      if fate.Unreachable? {
        result := Failed(NOT_CONNECTED, attempt);
        return;
      }
      totalCalls, activeCalls := totalCalls + 1, activeCalls + 1;
      if fate.CannotCreate? || fate.SendThrows? {
        Break(w, attempt);
        result := Failed(EXCEPTION, attempt);
        return;
      }
      CounterNext(w.origin + attempt);
      var id := GenerateCallId(w.draw(attempt));
      var promise := Exchange(w, id, fate);
      again, result := Settle(w, attempt, promise);
    }

    /** A call and its retries. */
    method SendAndReceive(w: World, attempt: nat) returns (result: CallResult)
      requires Valid() && w.retryEnabled == retryEnabled && w.maxAttempts == maxAttempts
      requires callIdCounter == (w.origin + attempt) % COUNTER_RANGE
      modifies this, pending.Values
      ensures Valid() && AccountFrom(w, attempt).behind <= pending.Keys
      ensures forall k :: k in pending && k !in AccountFrom(w, attempt).behind ==> k in old(pending) && pending[k] == old(pending)[k]
      ensures result == AccountFrom(w, attempt).result
      ensures var a := AccountFrom(w, attempt);
              && totalCalls == old(totalCalls) + a.attempts && totalRetries == old(totalRetries) + a.retries
              && successfulCalls == old(successfulCalls) + a.successes && failedCalls == old(failedCalls) + a.failures
              && timeoutCalls == old(timeoutCalls) + a.timeouts && activeCalls == old(activeCalls)
      ensures callIdCounter == (w.origin + attempt + AccountFrom(w, attempt).drawn) % COUNTER_RANGE
      decreases if maxAttempts >= attempt then maxAttempts - attempt else 0
    {
      hide KeyOf, CallId, Resolution;
      var again;
      again, result := Try(w, attempt);
      if again {
        ghost var left := pending;
        result := SendAndReceive(w, attempt + 1);
        LeavesBehindNext(old(pending), left, AccountFrom(w, attempt).behind, pending);
      }
    }

    /** A call without an answer is counted once, after it was sent. */
    method CallOneWay(random: uint64, connected: bool, sends: bool) returns (sent: bool)
      modifies this
      ensures sent == (connected && sends)
      ensures pending == old(pending) && timeoutCalls == old(timeoutCalls) && totalRetries == old(totalRetries) && activeCalls == old(activeCalls)
      ensures totalCalls - successfulCalls - failedCalls == old(totalCalls - successfulCalls - failedCalls)
      ensures totalCalls == old(totalCalls) + (if connected then 1 else 0) && successfulCalls == old(successfulCalls) + (if sent then 1 else 0)
      ensures callIdCounter == if connected then (old(callIdCounter) + 1) % COUNTER_RANGE else old(callIdCounter)
    {
      if !connected {
        return false;
      }
      var _ := GenerateCallId(random);
      totalCalls := totalCalls + 1;
      if sends {
        successfulCalls := successfulCalls + 1;
      } else {
        failedCalls := failedCalls + 1;
      }
      return sends;
    }
  }
}
