/** What has begun on a proxy can be completed, whatever has gone before: calls are made, answered, given
    up and rejected (workspace/src/framework/impl/ipc/service_proxy.cpp:104-155, 286-378, 473-609). */
module CallCompletion {
  import opened Wrappers
  import opened Bytes
  import opened Messages
  import opened CallIds
  import opened Clocks
  import opened CallProtocol
  import opened CallRuns

  function Last(run: seq<State>): State
    requires run != []
  {
    run[|run| - 1]
  }

  ghost predicate Continues(run: seq<State>, run': seq<State>) {
    IsRun(run') && run <= run'
  }

  /** One more step of a run. */
  lemma Extend(run: seq<State>, t: State, step: Step)
    requires IsRun(run) && PendingInRange(Last(run))
    requires Last(run).hand.Holding? ==> Last(run).hand.attempt < |Last(run).attempts|
    requires NextStep(Last(run), t, step)
    ensures Continues(run, run + [t]) && Last(run + [t]) == t
  {
    hide NextStep, Init, PendingInRange;
    var run' := run + [t];
    assert Next(Last(run), t) by {
      assert PendingInRange(Last(run)) && NextStep(Last(run), t, step);
    }
    forall k: nat | k + 1 < |run'|
      ensures Next(run'[k], run'[k + 1])
    {
      if k + 1 < |run| {
        assert run'[k] == run[k] && run'[k + 1] == run[k + 1];
      }
    }
  }

  lemma LastIsSound(run: seq<State>)
    requires IsRun(run)
    ensures run != [] && Inv(Last(run)) && Numbered(Last(run)) && PendingInRange(Last(run))
    ensures Last(run).hand.Holding? ==> Last(run).hand.attempt < |Last(run).attempts|
  {
    hide Next, Init, Numbered;
    RunKeepsInv(run, |run| - 1);
    var s := Last(run);
    forall k | k in s.pending
      ensures s.pending[k] < |s.attempts|
    {
      assert EntryLive(s, k);
    }
  }

  /** A caller waits, and its call is listed. */
  ghost predicate Waits(s: State, i: nat) {
    && i < |s.attempts| && s.attempts[i].phase.Waiting?
    && s.attempts[i].Key() in s.pending && s.pending[s.attempts[i].Key()] == i
  }

  ghost predicate OthersStay(s: State, t: State, i: nat) {
    |t.attempts| == |s.attempts| && forall j: nat | j < |s.attempts| && j != i :: t.attempts[j] == s.attempts[j]
  }

  /** A waiter's promise is empty, and the receive thread does not hold its answer. */
  lemma WaitersAreOpen(s: State, i: nat)
    requires Inv(s) && Waits(s, i)
    ensures s.attempts[i].promise == Unset && s.attempts[i].remover == None && (s.hand.Holding? ==> s.hand.attempt != i)
  {
    hide KeyOf;
    assert EntryLive(s, s.attempts[i].Key()) && FulfilledByItsRemover(s, i);
  }

  /** The receive thread delivers what it holds. */
  lemma HandEmpties(run: seq<State>) returns (run': seq<State>)
    requires IsRun(run)
    ensures Continues(run, run')
    ensures var s, t := Last(run), Last(run');
            && t.hand == Empty && |t.attempts| == |s.attempts|
            && t == s.(hand := Empty, attempts := t.attempts)
            && forall j: nat | j < |s.attempts| :: Waits(s, j) ==> t.attempts[j] == s.attempts[j]
  {
    hide KeyOf, CallId, Late, Next, Init, IsRun, Inv, Numbered;
    LastIsSound(run);
    var s := Last(run);
    if s.hand == Empty {
      run' := run;
    } else {
      var t := s.(hand := Empty,
                  attempts := s.attempts[s.hand.attempt := s.attempts[s.hand.attempt].Fulfil(Answered(s.hand.message), Receiver)]);
      Extend(run, t, Deliver);
      run' := run + [t];
      forall j: nat | j < |s.attempts| && Waits(s, j)
        ensures t.attempts[j] == s.attempts[j]
      {
        WaitersAreOpen(s, j);
      }
    }
  }

  // ---------------------------------------------------------------------------------------------
  // A call that waits
  // ---------------------------------------------------------------------------------------------

  /** With an empty hand the receive thread can be given an answer, and takes the call out of the map. */
  lemma AnswersCanBeTaken(run: seq<State>, i: nat, m: Contents) returns (run': seq<State>)
    requires IsRun(run) && Last(run).hand == Empty && ThreadsRun(Last(run)) && Waits(Last(run), i)
    requires IsReply(m) && m.header.correlationId == Last(run).attempts[i].id
    ensures Continues(run, run') && OthersStay(Last(run), Last(run'), i)
    ensures Last(run').pending == Last(run).pending - {Last(run).attempts[i].Key()}
    ensures Last(run').hand == Holding(i, m) && Last(run').attempts[i] == Last(run).attempts[i].Remove(Receiver)
  {
    hide KeyOf, CallId, Late, Next, Init, IsRun, Inv, Numbered;
    LastIsSound(run);
    var s := Last(run);
    WaiterIsNumbered(s, i);
    var e := Emission(Some(s.attempts[i].serial), m);
    var s1 := s.(network := s.network + {e});
    Extend(run, s1, Answer(s.attempts[i].serial, m));
    var s2 := Taken(s1, m);
    Extend(run + [s1], s2, Take(e));
    run' := run + [s1] + [s2];
  }

  /** It can be answered: any response or error that carries its identifier is what its caller returns
      with, as long as the threads run, whatever the receive thread holds. */
  lemma WaitersCanBeAnswered(run: seq<State>, i: nat, m: Contents) returns (run': seq<State>)
    requires IsRun(run) && Waits(Last(run), i) && (Last(run).running || Last(run).closing == Stopping)
    requires m.header.messageType == RESPONSE || m.header.messageType == ERROR
    requires m.header.correlationId == Last(run).attempts[i].id
    ensures Continues(run, run') && Last(run').hand == Empty
    ensures Last(run').pending == Last(run).pending - {Last(run).attempts[i].Key()}
    ensures |Last(run').attempts| == |Last(run).attempts| && Last(run').attempts[i].phase == Finished(Replied(m))
    ensures forall j: nat | j < |Last(run).attempts| && j != i && Waits(Last(run), j) ::
              Last(run').attempts[j] == Last(run).attempts[j]
  {
    hide KeyOf, CallId, Late, Next, Init, IsRun, Inv, Numbered;
    LastIsSound(run);
    WaitersAreOpen(Last(run), i);
    var r := HandEmpties(run);
    r := AnswersCanBeTaken(r, i, m);
    LastIsSound(r);
    var s := Last(r);
    var s1 := s.(hand := Empty, attempts := s.attempts[i := s.attempts[i].Fulfil(Answered(m), Receiver)]);
    Extend(r, s1, Deliver);
    var s2 := SetPhase(s1, i, Finished(Replied(m)));
    Extend(r + [s1], s2, GetResponse(i));
    run' := r + [s1] + [s2];
  }

  lemma WaiterIsNumbered(s: State, i: nat)
    requires Numbered(s) && i < |s.attempts|
    ensures s.attempts[i].serial < |s.requests| && s.attempts[i].id == s.requests[s.attempts[i].serial].header.messageId
  {
    hide CallId;
    assert AttemptNumbered(s, i);
  }

  /** Unanswered, its caller can give it up once its timeout has passed since the request was sent. */
  lemma WaitersCanGiveUp(run: seq<State>, i: nat) returns (run': seq<State>)
    requires IsRun(run) && Waits(Last(run), i)
    ensures Continues(run, run') && OthersStay(Last(run), Last(run'), i)
    ensures Last(run').pending == Last(run).pending - {Last(run).attempts[i].Key()}
    ensures Last(run').attempts[i].phase == Finished(WaitTimedOut) && Last(run').attempts[i].promise == Unset
    ensures var s, a := Last(run), Last(run).attempts[i];
            Last(run').now == Max(s.now, a.phase.since + a.timeout * NANOSECONDS_PER_MILLISECOND)
  {
    hide KeyOf, CallId, Late, Next, Init, IsRun, Inv, Numbered;
    LastIsSound(run);
    var s := Last(run);
    WaitersAreOpen(s, i);
    var a := s.attempts[i];
    var later := Max(s.now, a.phase.since + a.timeout * NANOSECONDS_PER_MILLISECOND);
    var s1 := s.(now := later);
    Extend(run, s1, Tick(later));
    var s2 := SetPhase(s1, i, GaveUp(WaitTimedOut));
    Extend(run + [s1], s2, WaitTimesOut(i));
    var s3 := Unregistered(s2, i);
    Extend(run + [s1] + [s2], s3, Unregister(i));
    run' := run + [s1] + [s2] + [s3];
  }

  function Max(a: int, b: int): int {
    if a < b then b else a
  }

  /** One round of the timeout thread. */
  lemma SweepsHappen(run: seq<State>) returns (run': seq<State>)
    requires IsRun(run) && ThreadsRun(Last(run))
    ensures Continues(run, run')
    ensures var s, t := Last(run), Last(run');
            && |t.attempts| == |s.attempts| && t == s.(attempts := t.attempts, pending := t.pending)
            && forall i: nat | i < |s.attempts| && Waits(s, i) ::
                 var a := s.attempts[i];
                 if TimeIsUp(a.start, a.timeout, s.now)
                 then t.attempts[i] == a.Fulfil(Broken(TimedOut), Sweeper).Remove(Sweeper) && a.Key() !in t.pending
                 else t.attempts[i] == a && Waits(t, i)
  {
    hide KeyOf, CallId, Late, Next, Init, IsRun, Inv, Numbered, TimeIsUp;
    LastIsSound(run);
    var s := Last(run);
    var keys := ExpiredKeys(s, s.now);
    var t := s.(attempts := BreakAll(s.attempts, s.pending, keys, TimedOut, Sweeper), pending := s.pending - keys);
    Extend(run, t, Sweep(s.now));
    run' := run + [t];
    forall i: nat | i < |s.attempts| && Waits(s, i)
      ensures var a := s.attempts[i];
              if TimeIsUp(a.start, a.timeout, s.now)
              then t.attempts[i] == a.Fulfil(Broken(TimedOut), Sweeper).Remove(Sweeper) && a.Key() !in t.pending
              else t.attempts[i] == a && Waits(t, i)
    {
      var a := s.attempts[i];
      LateWhenTimeIsUp(a.start, a.timeout, s.now);
      assert t.attempts[i] == BreakOne(a, i, s.pending, keys, TimedOut, Sweeper);
    }
  }

  /** Or the timeout thread can find it, once its timeout has passed since it was registered. */
  lemma WaitersCanBeSwept(run: seq<State>, i: nat) returns (run': seq<State>)
    requires IsRun(run) && Waits(Last(run), i) && (Last(run).running || Last(run).closing == Stopping)
    ensures Continues(run, run')
    ensures |Last(run').attempts| == |Last(run).attempts| && Last(run').attempts[i].Key() !in Last(run').pending
    ensures Last(run').attempts[i].phase == Finished(PromiseBroken(TimedOut))
    ensures var s, a := Last(run), Last(run).attempts[i];
            && Last(run').now == Max(s.now, a.start + a.timeout * NANOSECONDS_PER_MILLISECOND)
            && forall j: nat | j < |s.attempts| && j != i && Waits(s, j) &&
                               !TimeIsUp(s.attempts[j].start, s.attempts[j].timeout, Last(run').now) ::
                 Waits(Last(run'), j) && Last(run').attempts[j] == s.attempts[j]
  {
    hide KeyOf, CallId, Late, Next, Init, IsRun, Inv, Numbered, TimeIsUp;
    LastIsSound(run);
    var s := Last(run);
    var a := s.attempts[i];
    WaitersAreOpen(s, i);
    var later := Max(s.now, a.start + a.timeout * NANOSECONDS_PER_MILLISECOND);
    var s1 := s.(now := later);
    Extend(run, s1, Tick(later));
    assert forall j: nat | j < |s.attempts| && Waits(s, j) :: Waits(s1, j);
    UpByThen(a.start, a.timeout, later);
    var r := SweepsHappen(run + [s1]);
    LastIsSound(r);
    var s3 := SetPhase(Last(r), i, Finished(PromiseBroken(TimedOut)));
    Extend(r, s3, GetResponse(i));
    run' := r + [s3];
  }

  lemma UpByThen(start: int, timeout: nat, later: int)
    requires start + timeout * NANOSECONDS_PER_MILLISECOND <= later
    ensures TimeIsUp(start, timeout, later)
  {
  }

  // ---------------------------------------------------------------------------------------------
  // Connection
  // ---------------------------------------------------------------------------------------------

  /** A proxy that does not run and is not being disconnected can be connected. */
  lemma ProxiesCanConnect(run: seq<State>) returns (run': seq<State>)
    requires IsRun(run) && !Last(run).running && Last(run).closing == Open
    ensures Continues(run, run') && Last(run') == Last(run).(running := true)
  {
    hide KeyOf, CallId, Late, Next, Init, IsRun, Inv, Numbered;
    LastIsSound(run);
    var t := Last(run).(running := true);
    Extend(run, t, Connect);
    run' := run + [t];
  }

  /** One that runs can be disconnected: the listed calls end with error 4, the map is empty, and it can be
      connected again. */
  lemma ProxiesCanDisconnect(run: seq<State>) returns (run': seq<State>)
    requires IsRun(run) && Last(run).running && Last(run).closing == Open
    ensures Continues(run, run') && Last(run').pending == map[] && Last(run').hand == Empty
    ensures !Last(run').running && Last(run').closing == Open && |Last(run').attempts| == |Last(run).attempts|
    ensures forall i: nat | i < |Last(run).attempts| && Waits(Last(run), i) ::
              Last(run').attempts[i] == Last(run).attempts[i].(
                promise := Broken(Disconnected), fulfilments := 1, fulfiller := Some(Disconnector), remover := Some(Disconnector))
  {
    hide KeyOf, CallId, Late, Next, Init, IsRun, Inv, Numbered;
    LastIsSound(run);
    var s := Last(run);
    var s1 := s.(running := false, closing := Stopping);
    Extend(run, s1, Stop);
    var r := HandEmpties(run + [s1]);
    LastIsSound(r);
    var s2 := Last(r);
    var s3 := s2.(closing := Joined);
    Extend(r, s3, Join);
    LastIsSound(r + [s3]);
    var s4 := s3.(attempts := BreakAll(s3.attempts, s3.pending, s3.pending.Keys, Disconnected, Disconnector),
                  pending := map[], closing := Open);
    Extend(r + [s3], s4, RejectAll);
    run' := r + [s3] + [s4];
    forall i: nat | i < |s.attempts| && Waits(s, i)
      ensures s4.attempts[i] == s.attempts[i].(promise := Broken(Disconnected), fulfilments := 1,
                                               fulfiller := Some(Disconnector), remover := Some(Disconnector))
    {
      WaitersHaveNoHistory(s, i);
      assert Waits(s1, i);
      assert s4.attempts[i] == BreakOne(s.attempts[i], i, s3.pending, s3.pending.Keys, Disconnected, Disconnector);
    }
  }

  lemma WaitersHaveNoHistory(s: State, i: nat)
    requires Inv(s) && Waits(s, i)
    ensures s.attempts[i].promise == Unset && s.attempts[i].fulfilments == 0
  {
    hide KeyOf;
    assert EntryLive(s, s.attempts[i].Key()) && FulfilledByItsRemover(s, i);
  }

  // ---------------------------------------------------------------------------------------------
  // A call that is made
  // ---------------------------------------------------------------------------------------------

  /** The call that the next request would make, registered at `time`. */
  function NewCall(s: State, request: Contents, timeout: nat, time: int): Attempt {
    Attempt(|s.requests|, request.header.messageId, time, timeout, Registered, Unset, None, None, 0)
  }

  ghost predicate CallAdded(s: State, t: State, request: Contents, random: uint64, call: Attempt) {
    && t.requests == s.requests + [request] && t.randoms == s.randoms + [random]
    && t.attempts == s.attempts + [call] && t.hand == s.hand && t.network == s.network
    && t.running == s.running && t.closing == s.closing
  }

  lemma CallsCanBeRegistered(run: seq<State>, request: Contents, random: uint64, timeout: nat, time: int) returns (run': seq<State>)
    requires IsRun(run) && time >= Last(run).now && request.header.messageId == CallId(|Last(run).requests| % COUNTER_RANGE, random)
    ensures Continues(run, run')
    ensures CallAdded(Last(run), Last(run'), request, random, NewCall(Last(run), request, timeout, time))
    ensures Last(run').pending == Last(run).pending[KeyOf(request.header.messageId) := |Last(run).attempts|] && Last(run').now == time
  {
    hide KeyOf, CallId, Late, Next, Init, IsRun, Inv, Numbered;
    LastIsSound(run);
    var s, call := Last(run), NewCall(Last(run), request, timeout, time);
    var s1 := s.(requests := s.requests + [request], randoms := s.randoms + [random],
                 attempts := s.attempts + [call.(phase := Created, start := s.now)]);
    Extend(run, s1, Create(request, random, timeout));
    LastIsSound(run + [s1]);
    var s2 := s1.(now := time);
    Extend(run + [s1], s2, Tick(time));
    var n := |s.attempts|;
    var s3 := s2.(attempts := s2.attempts[n := call], pending := s2.pending[call.Key() := n]);
    Extend(run + [s1] + [s2], s3, Register(n, time));
    run' := run + [s1] + [s2] + [s3];
  }

  /** A call can be made at any time: its request goes out and its caller waits. */
  lemma CallsCanBeMade(run: seq<State>, request: Contents, random: uint64, timeout: nat, time: int) returns (run': seq<State>)
    requires IsRun(run) && time >= Last(run).now && request.header.messageId == CallId(|Last(run).requests| % COUNTER_RANGE, random)
    ensures Continues(run, run') && Waits(Last(run'), |Last(run).attempts|)
    ensures var s := Last(run);
            && CallAdded(s, Last(run'), request, random, NewCall(s, request, timeout, time).(phase := Waiting(time)))
            && Last(run').pending == s.pending[KeyOf(request.header.messageId) := |s.attempts|]
  {
    hide KeyOf, CallId, Late, Next, Init, IsRun, Inv, Numbered;
    LastIsSound(run);
    var r := CallsCanBeRegistered(run, request, random, timeout, time);
    LastIsSound(r);
    var s, n := Last(r), |Last(run).attempts|;
    var t := SetPhase(s, n, Waiting(s.now));
    Extend(r, t, Send(n));
    run' := r + [t];
  }

  /** Its request may fail to go out: the caller gives up and the map is as if it had not called. */
  lemma SendingCanFail(run: seq<State>, request: Contents, random: uint64, timeout: nat, time: int) returns (run': seq<State>)
    requires IsRun(run) && time >= Last(run).now && request.header.messageId == CallId(|Last(run).requests| % COUNTER_RANGE, random)
    ensures Continues(run, run') && Last(run').pending == Last(run).pending - {KeyOf(request.header.messageId)}
    ensures var s := Last(run);
            CallAdded(s, Last(run'), request, random,
                      NewCall(s, request, timeout, time).(phase := Finished(SendFailed), remover := Some(Caller)))
  {
    hide KeyOf, CallId, Late, Next, Init, IsRun, Inv, Numbered;
    LastIsSound(run);
    var r := CallsCanBeRegistered(run, request, random, timeout, time);
    LastIsSound(r);
    var s, n := Last(r), |Last(run).attempts|;
    var s1 := SetPhase(s, n, GaveUp(SendFailed));
    Extend(r, s1, FailToSend(n));
    var s2 := Unregistered(s1, n);
    Extend(r + [s1], s2, Unregister(n));
    run' := r + [s1] + [s2];
  }

  /** Or sending may throw: the call ends at once and stays in the map. */
  lemma SendingCanThrow(run: seq<State>, request: Contents, random: uint64, timeout: nat, time: int) returns (run': seq<State>)
    requires IsRun(run) && time >= Last(run).now && request.header.messageId == CallId(|Last(run).requests| % COUNTER_RANGE, random)
    ensures Continues(run, run')
    ensures Last(run').pending == Last(run).pending[KeyOf(request.header.messageId) := |Last(run).attempts|]
    ensures var s := Last(run);
            CallAdded(s, Last(run'), request, random, NewCall(s, request, timeout, time).(phase := Finished(Threw)))
  {
    hide KeyOf, CallId, Late, Next, Init, IsRun, Inv, Numbered;
    LastIsSound(run);
    var r := CallsCanBeRegistered(run, request, random, timeout, time);
    LastIsSound(r);
    var s, n := Last(r), |Last(run).attempts|;
    var t := SetPhase(s, n, Finished(Threw));
    Extend(r, t, ThrowInSend(n));
    run' := r + [t];
  }

  /** From the beginning: a new proxy can be connected, called and answered. */
  lemma NewProxyServesACall(now: int, request: Contents, random: uint64, timeout: nat, m: Contents) returns (run: seq<State>)
    requires request.header.messageId == CallId(0, random) == m.header.correlationId
    requires m.header.messageType == RESPONSE || m.header.messageType == ERROR
    ensures IsRun(run) && run[0] == State(now, false, Open, [], [], [], map[], Empty, {})
    ensures |Last(run).attempts| == 1 && Last(run).attempts[0].phase == Finished(Replied(m)) && Last(run).pending == map[]
  {
    hide KeyOf, CallId, Late, Next, NextStep, Inv, Numbered;
    var start := State(now, false, Open, [], [], [], map[], Empty, {});
    assert IsRun([start]);
    var connected := ProxiesCanConnect([start]);
    var called := CallsCanBeMade(connected, request, random, timeout, now);
    run := WaitersCanBeAnswered(called, 0, m);
  }
}
