/** What holds in every run of the calls in flight (workspace/src/framework/impl/ipc/service_proxy.cpp:286-378, 473-609). */
module CallRuns {
  import opened Wrappers
  import opened Bytes
  import opened Messages
  import opened CallIds
  import opened Clocks
  import opened CallProtocol

  // ---------------------------------------------------------------------------------------------
  // Identifiers: request number k carries the counter value k modulo 2^64
  // ---------------------------------------------------------------------------------------------

  ghost predicate RequestNumbered(s: State, k: nat)
    requires k < |s.requests| == |s.randoms|
  {
    s.requests[k].header.messageId == CallId(k % COUNTER_RANGE, s.randoms[k])
  }

  ghost predicate AttemptNumbered(s: State, i: nat)
    requires i < |s.attempts|
  {
    var a := s.attempts[i];
    a.serial < |s.requests| && a.id == s.requests[a.serial].header.messageId
  }

  ghost predicate EmissionNumbered(s: State, e: Emission) {
    e.origin.Some? ==> e.origin.value < |s.requests| &&
                       e.message.header.correlationId == s.requests[e.origin.value].header.messageId
  }

  ghost predicate Numbered(s: State) {
    && |s.requests| == |s.randoms|
    && (forall k: nat | k < |s.requests| :: RequestNumbered(s, k))
    && (forall i: nat | i < |s.attempts| :: AttemptNumbered(s, i))
    && (forall i: nat, j: nat | i < j < |s.attempts| :: s.attempts[i].serial < s.attempts[j].serial)
    && (forall e | e in s.network :: EmissionNumbered(s, e))
  }

  /** Two requests carry the same identifier exactly when their numbers agree modulo 2^64 and the same
      random number was drawn for both. */
  lemma RequestIdsCollide(s: State, j: nat, k: nat)
    requires Numbered(s) && j < |s.requests| && k < |s.requests|
    ensures s.requests[j].header.messageId == s.requests[k].header.messageId <==>
            j % COUNTER_RANGE == k % COUNTER_RANGE && s.randoms[j] == s.randoms[k]
  {
    assert RequestNumbered(s, j) && RequestNumbered(s, k);
    CallIdsDiffer(j % COUNTER_RANGE, s.randoms[j], k % COUNTER_RANGE, s.randoms[k]);
  }

  lemma SmallModulo(k: nat)
    requires k < COUNTER_RANGE
    ensures k % COUNTER_RANGE == k
  {
  }

  lemma RequestIdsDiffer(s: State, j: nat, k: nat)
    requires Numbered(s) && |s.requests| <= COUNTER_RANGE && j < |s.requests| && k < |s.requests|
    ensures s.requests[j].header.messageId == s.requests[k].header.messageId <==> j == k
  {
    RequestIdsCollide(s, j, k);
    SmallModulo(j);
    SmallModulo(k);
  }

  lemma AttemptKeysDiffer(s: State, i: nat, j: nat)
    requires Numbered(s) && |s.requests| <= COUNTER_RANGE && i < |s.attempts| && j < |s.attempts|
    ensures s.attempts[i].Key() == s.attempts[j].Key() <==> i == j
  {
    KeysDiffer(s.attempts[i].id, s.attempts[j].id);
    assert AttemptNumbered(s, i) && AttemptNumbered(s, j);
    RequestIdsDiffer(s, s.attempts[i].serial, s.attempts[j].serial);
  }

  /** What no step changes in an attempt, and what it may only settle once. */
  predicate Extends(a: Attempt, b: Attempt) {
    && a.serial == b.serial && a.id == b.id && a.timeout == b.timeout
    && (a.phase != Created ==> b.phase != Created && b.start == a.start)
    && (a.promise != Unset ==> b.promise == a.promise)
    && (a.remover != None ==> b.remover == a.remover)
    && (a.fulfiller != None ==> b.fulfiller == a.fulfiller)
    && (a.phase.Finished? ==> b.phase == a.phase)
    && a.fulfilments <= b.fulfilments
  }

  ghost predicate Grows(s: State, t: State) {
    && s.requests <= t.requests && s.randoms <= t.randoms && s.network <= t.network && s.now <= t.now
    && |s.attempts| <= |t.attempts|
    && forall i: nat | i < |s.attempts| :: Extends(s.attempts[i], t.attempts[i])
  }

  lemma RemovalGrows(s: State, t: State, step: Step)
    requires Inv(s) && NextStep(s, t, step) && (step.Unregister? || step.Take?)
    ensures Grows(s, t)
  {
    hide KeyOf, Late, CallId;
    var key := if step.Take? then KeyOf(step.e.message.header.correlationId) else s.attempts[step.i].Key();
    assert key in s.pending ==> EntryLive(s, key);
    forall i: nat | i < |s.attempts|
      ensures Extends(s.attempts[i], t.attempts[i])
    {
      assert FulfilledByItsRemover(s, i);
    }
  }

  lemma BreakGrows(s: State, t: State, step: Step)
    requires Inv(s) && NextStep(s, t, step) && (step.Sweep? || step.RejectAll?)
    ensures Grows(s, t)
  {
    hide KeyOf, Late, CallId, ExpiredKeys, AnswersAreProper;
    forall i: nat | i < |s.attempts|
      ensures Extends(s.attempts[i], t.attempts[i])
    {
      assert FulfilledByItsRemover(s, i);
      var key := s.attempts[i].Key();
      assert key in s.pending ==> EntryLive(s, key);
    }
  }

  lemma StepGrows(s: State, t: State, step: Step)
    requires Inv(s) && NextStep(s, t, step)
    ensures Grows(s, t)
  {
    hide KeyOf, Late, CallId, ExpiredKeys, AnswersAreProper;
    if step.Unregister? || step.Take? {
      RemovalGrows(s, t, step);
    } else if step.Sweep? || step.RejectAll? {
      BreakGrows(s, t, step);
    } else {
      hide BreakAll, EntryLive;
      forall i: nat | i < |s.attempts|
        ensures Extends(s.attempts[i], t.attempts[i])
      {
        assert FulfilledByItsRemover(s, i);
      }
    }
  }

  lemma GrowthKeepsNumbers(s: State, t: State)
    requires Numbered(s) && Grows(s, t)
    requires t.attempts == s.attempts || |t.attempts| == |s.attempts|
    requires t.requests == s.requests && t.randoms == s.randoms
    requires forall e | e in t.network :: e in s.network || EmissionNumbered(t, e)
    ensures Numbered(t)
  {
    forall k: nat | k < |t.requests|
      ensures RequestNumbered(t, k)
    {
      assert RequestNumbered(s, k);
    }
    forall i: nat | i < |t.attempts|
      ensures AttemptNumbered(t, i)
    {
      assert AttemptNumbered(s, i) && Extends(s.attempts[i], t.attempts[i]);
    }
    forall i: nat, j: nat | i < j < |t.attempts|
      ensures t.attempts[i].serial < t.attempts[j].serial
    {
      assert Extends(s.attempts[i], t.attempts[i]) && Extends(s.attempts[j], t.attempts[j]);
    }
    forall e | e in t.network
      ensures EmissionNumbered(t, e)
    {
      assert e in s.network ==> EmissionNumbered(s, e);
    }
  }

  lemma RequestKeepsNumbers(s: State, t: State, step: Step)
    requires Inv(s) && Numbered(s) && NextStep(s, t, step) && (step.Create? || step.SendOneWay?)
    ensures Numbered(t)
  {
    hide CallId;
    forall k: nat | k < |t.requests|
      ensures RequestNumbered(t, k)
    {
      assert k < |s.requests| ==> RequestNumbered(s, k);
    }
    forall i: nat | i < |t.attempts|
      ensures AttemptNumbered(t, i) && (i < |s.attempts| ==> t.attempts[i].serial < |s.requests|)
    {
      assert i < |s.attempts| ==> AttemptNumbered(s, i);
    }
    forall e | e in t.network
      ensures EmissionNumbered(t, e)
    {
      assert EmissionNumbered(s, e);
    }
  }

  lemma NextKeepsNumbered(s: State, t: State, step: Step)
    requires Inv(s) && Numbered(s) && NextStep(s, t, step)
    ensures Numbered(t)
  {
    hide KeyOf, CallId, Late;
    if step.Create? || step.SendOneWay? {
      RequestKeepsNumbers(s, t, step);
    } else {
      StepGrows(s, t, step);
      GrowthKeepsNumbers(s, t);
    }
  }

  // ---------------------------------------------------------------------------------------------
  // The map: no entry is lost until somebody removes it
  // ---------------------------------------------------------------------------------------------

  ghost predicate Kept(s: State, i: nat)
    requires i < |s.attempts|
  {
    var a := s.attempts[i];
    && (a.phase != Created && a.remover == None ==> a.Key() in s.pending && s.pending[a.Key()] == i)
    && (a.remover == Some(Caller) ==> a.phase.Finished?)
    && (a.phase.Finished? && (a.phase.outcome == SendFailed || a.phase.outcome == WaitTimedOut) ==> a.remover != None)
  }

  ghost predicate AllKept(s: State) {
    forall i: nat | i < |s.attempts| :: Kept(s, i)
  }

  lemma RegisterKeepsAll(s: State, t: State, i: nat, start: int)
    requires Inv(s) && Numbered(s) && AllKept(s) && NextStep(s, t, Register(i, start)) && |t.requests| <= COUNTER_RANGE
    ensures AllKept(t)
    ensures s.attempts[i].Key() !in s.pending
  {
    hide KeyOf, CallId, Late;
    var key := s.attempts[i].Key();
    if key in s.pending {
      assert EntryLive(s, key);
      AttemptKeysDiffer(s, i, s.pending[key]);
    }
    forall j: nat | j < |t.attempts|
      ensures Kept(t, j)
    {
      assert Kept(s, j);
      AttemptKeysDiffer(s, i, j);
    }
  }

  lemma NextKeepsAll(s: State, t: State, step: Step)
    requires Inv(s) && Numbered(s) && AllKept(s) && NextStep(s, t, step) && |t.requests| <= COUNTER_RANGE
    ensures AllKept(t)
  {
    hide KeyOf, CallId, Late;
    if step.Register? {
      RegisterKeepsAll(s, t, step.i, step.start);
    } else {
      forall j: nat | j < |t.attempts|
        ensures Kept(t, j)
      {
        if j < |s.attempts| {
          assert Kept(s, j) && FulfilledByItsRemover(s, j);
          StepKeeps(s, t, step, j);
        }
      }
    }
  }

  lemma UnregisterKeeps(s: State, t: State, i: nat, j: nat)
    requires Inv(s) && Numbered(s) && NextStep(s, t, Unregister(i)) && |t.requests| <= COUNTER_RANGE
    requires j < |s.attempts| && Kept(s, j) && j < |t.attempts|
    ensures Kept(t, j)
  {
    hide KeyOf, CallId, Late, RequestNumbered;
    AttemptKeysDiffer(s, i, j);
    var mine := s.attempts[i].Key();
    if mine in s.pending {
      assert EntryLive(s, mine);
      AttemptKeysDiffer(s, i, s.pending[mine]);
    }
  }

  lemma TakeKeeps(s: State, t: State, e: Emission, j: nat)
    requires Inv(s) && NextStep(s, t, Take(e))
    requires j < |s.attempts| && Kept(s, j) && j < |t.attempts|
    ensures Kept(t, j)
  {
    hide KeyOf, CallId, Late;
    var taken := KeyOf(e.message.header.correlationId);
    assert taken in s.pending ==> EntryLive(s, taken);
  }

  lemma BreakKeeps(s: State, t: State, step: Step, j: nat)
    requires Inv(s) && NextStep(s, t, step) && (step.RejectAll? || step.Sweep?)
    requires j < |s.attempts| && Kept(s, j) && j < |t.attempts|
    ensures Kept(t, j)
  {
    hide KeyOf, CallId, Late;
    assert FulfilledByItsRemover(s, j);
  }

  lemma StepKeeps(s: State, t: State, step: Step, j: nat)
    requires Inv(s) && Numbered(s) && NextStep(s, t, step) && |t.requests| <= COUNTER_RANGE
    requires !step.Register? && j < |s.attempts| && Kept(s, j) && j < |t.attempts|
    ensures Kept(t, j)
  {
    hide KeyOf, CallId, Late, Numbered;
    if step.Unregister? {
      UnregisterKeeps(s, t, step.i, j);
    } else if step.Take? {
      TakeKeeps(s, t, step.e, j);
    } else if step.RejectAll? || step.Sweep? {
      BreakKeeps(s, t, step, j);
    } else {
      assert FulfilledByItsRemover(s, j) && AnswersAreProper(s, j);
    }
  }

  // ---------------------------------------------------------------------------------------------
  // Time
  // ---------------------------------------------------------------------------------------------

  predicate LimitPassed(a: Attempt, now: int) {
    now >= a.start + a.timeout * NANOSECONDS_PER_MILLISECOND
  }

  predicate GaveUpWaiting(phase: Phase) {
    phase == GaveUp(WaitTimedOut) || phase == Finished(WaitTimedOut)
  }

  predicate Timely(a: Attempt, now: int) {
    && a.start <= now
    && (a.phase.Waiting? ==> a.start <= a.phase.since <= now)
    && (a.remover == Some(Sweeper) || GaveUpWaiting(a.phase) ==> LimitPassed(a, now))
  }

  ghost predicate AllTimely(s: State) {
    forall i: nat | i < |s.attempts| :: Timely(s.attempts[i], s.now)
  }

  lemma ExpiryIsTimely(a: Attempt, time: int, now: int)
    requires a.start <= now && time <= now && Expired(a, time)
    ensures LimitPassed(a, now)
  {
    LimitReached(time - a.start, a.timeout);
  }

  lemma SweepKeepsTimely(s: State, t: State, time: int)
    requires Inv(s) && AllTimely(s) && NextStep(s, t, Sweep(time))
    ensures AllTimely(t)
  {
    hide KeyOf, Late;
    forall i: nat | i < |t.attempts|
      ensures Timely(t.attempts[i], t.now)
    {
      assert Timely(s.attempts[i], s.now);
      if Expired(s.attempts[i], time) {
        ExpiryIsTimely(s.attempts[i], time, s.now);
      }
    }
  }

  lemma UnregisterKeepsTimely(s: State, t: State, i: nat)
    requires Inv(s) && AllTimely(s) && NextStep(s, t, Unregister(i))
    ensures AllTimely(t)
  {
    hide KeyOf, CallId, Late, AnswersAreProper;
    forall j: nat | j < |t.attempts|
      ensures Timely(t.attempts[j], t.now)
    {
      assert Timely(s.attempts[j], s.now) && FulfilledByItsRemover(s, j);
    }
  }

  lemma CallerKeepsTimely(s: State, t: State, step: Step)
    requires Inv(s) && AllTimely(s) && NextStep(s, t, step)
    requires step.Register? || step.WaitTimesOut? || step.GetResponse?
    ensures AllTimely(t)
  {
    hide KeyOf, CallId, Late, AnswersAreProper, EntryLive;
    forall i: nat | i < |t.attempts|
      ensures Timely(t.attempts[i], t.now)
    {
      assert Timely(s.attempts[i], s.now) && FulfilledByItsRemover(s, i);
    }
  }

  lemma NextKeepsTimely(s: State, t: State, step: Step)
    requires Inv(s) && AllTimely(s) && NextStep(s, t, step)
    ensures AllTimely(t)
  {
    hide KeyOf, CallId, Late;
    if step.Sweep? {
      SweepKeepsTimely(s, t, step.time);
    } else if step.Unregister? {
      UnregisterKeepsTimely(s, t, step.i);
    } else if step.Register? || step.WaitTimesOut? || step.GetResponse? {
      CallerKeepsTimely(s, t, step);
    } else {
      forall i: nat | i < |t.attempts|
        ensures Timely(t.attempts[i], t.now)
      {
        if i < |s.attempts| {
          assert Timely(s.attempts[i], s.now) && FulfilledByItsRemover(s, i) && AnswersAreProper(s, i);
        }
      }
    }
  }

  // ---------------------------------------------------------------------------------------------
  // Runs
  // ---------------------------------------------------------------------------------------------

  ghost predicate Next(s: State, t: State) {
    && PendingInRange(s) && (s.hand.Holding? ==> s.hand.attempt < |s.attempts|)
    && exists step :: NextStep(s, t, step)
  }

  ghost predicate IsRun(run: seq<State>) {
    && run != [] && Init(run[0])
    && forall k: nat | k + 1 < |run| :: Next(run[k], run[k + 1])
  }

  lemma {:induction false} RunKeepsInv(run: seq<State>, k: nat)
    requires IsRun(run) && k < |run|
    ensures Inv(run[k]) && Numbered(run[k]) && AllTimely(run[k])
  {
    hide NextStep, Inv, Numbered, AllTimely;
    if k == 0 {
      StartHolds(run[0]);
    } else {
      RunKeepsInv(run, k - 1);
      assert Next(run[k - 1], run[k - 1 + 1]);
      var step :| NextStep(run[k - 1], run[k], step);
      NextKeepsInv(run[k - 1], run[k], step);
      NextKeepsNumbered(run[k - 1], run[k], step);
      NextKeepsTimely(run[k - 1], run[k], step);
    }
  }

  lemma StartHolds(s: State)
    requires Init(s)
    ensures Inv(s) && Numbered(s) && AllTimely(s) && AllKept(s)
  {
  }

  lemma {:induction false} RunGrows(run: seq<State>, j: nat, k: nat)
    requires IsRun(run) && j <= k < |run|
    ensures Grows(run[j], run[k])
    decreases k - j
  {
    hide NextStep, Inv, Numbered, AllTimely;
    if j < k {
      RunGrows(run, j, k - 1);
      RunKeepsInv(run, k - 1);
      assert Next(run[k - 1], run[k - 1 + 1]);
      var step :| NextStep(run[k - 1], run[k], step);
      StepGrows(run[k - 1], run[k], step);
      GrowsOn(run[j], run[k - 1], run[k]);
    }
  }

  lemma GrowsOn(s: State, t: State, u: State)
    requires Grows(s, t) && Grows(t, u)
    ensures Grows(s, u)
  {
    forall i: nat | i < |s.attempts|
      ensures Extends(s.attempts[i], u.attempts[i])
    {
      assert Extends(s.attempts[i], t.attempts[i]) && Extends(t.attempts[i], u.attempts[i]);
    }
  }

  lemma {:induction false} RunKeepsAll(run: seq<State>, k: nat)
    requires IsRun(run) && k < |run| && |run[k].requests| <= COUNTER_RANGE
    ensures AllKept(run[k])
  {
    hide NextStep, Inv, Numbered, AllTimely, AllKept;
    if k == 0 {
      StartHolds(run[0]);
    } else {
      RunGrows(run, k - 1, k);
      RunKeepsAll(run, k - 1);
      RunKeepsInv(run, k - 1);
      assert Next(run[k - 1], run[k - 1 + 1]);
      var step :| NextStep(run[k - 1], run[k], step);
      NextKeepsAll(run[k - 1], run[k], step);
    }
  }

  /** Every promise is fulfilled at most once, by the actor that removed the entry, and an entry that
      only its caller removed is never fulfilled. */
  lemma EachPromiseIsFulfilledAtMostOnce(run: seq<State>, k: nat, i: nat)
    requires IsRun(run) && k < |run| && i < |run[k].attempts|
    ensures var a := run[k].attempts[i];
            && a.fulfilments <= 1
            && (a.fulfilments == 1 <==> a.promise != Unset)
            && (a.fulfilments == 1 ==> a.fulfiller == a.remover && a.remover.Some? && a.remover != Some(Caller))
            && (a.promise.Answered? <==> a.fulfiller == Some(Receiver))
            && (a.promise == Broken(TimedOut) <==> a.fulfiller == Some(Sweeper))
            && (a.promise == Broken(Disconnected) <==> a.fulfiller == Some(Disconnector))
  {
    hide NextStep;
    RunKeepsInv(run, k);
    assert FulfilledByItsRemover(run[k], i);
  }

  /** What a promise holds, who removed the entry and how the call ended never change again. */
  lemma OutcomesAreFinal(run: seq<State>, j: nat, k: nat, i: nat)
    requires IsRun(run) && j <= k < |run| && i < |run[j].attempts|
    ensures i < |run[k].attempts|
    ensures var a, b := run[j].attempts[i], run[k].attempts[i];
            && (a.promise != Unset ==> b.promise == a.promise)
            && (a.remover != None ==> b.remover == a.remover)
            && (a.phase.Finished? ==> b.phase == a.phase)
  {
    hide NextStep;
    RunGrows(run, j, k);
    assert Extends(run[j].attempts[i], run[k].attempts[i]);
  }

  /** Until 2^64 requests have been made, registering a call finds its key unused. */
  lemma RegistrationNeverOverwrites(run: seq<State>, k: nat, i: nat, start: int)
    requires IsRun(run) && k + 1 < |run| && |run[k].requests| <= COUNTER_RANGE
    requires Next(run[k], run[k + 1]) && NextStep(run[k], run[k + 1], Register(i, start))
    ensures run[k].attempts[i].Key() !in run[k].pending
  {
    RunKeepsInv(run, k);
    RunKeepsAll(run, k);
    RegisterKeepsAll(run[k], run[k + 1], i, start);
  }

  ghost predicate Listed(s: State, j: nat) {
    j < |s.attempts| && s.attempts[j].Key() in s.pending && s.pending[s.attempts[j].Key()] == j
  }

  /** The requests numbered `j` and `k` have the same counter value and the same random number. */
  ghost predicate Collide(s: State, j: nat, k: nat) {
    j < |s.randoms| && k < |s.randoms| && j % COUNTER_RANGE == k % COUNTER_RANGE && s.randoms[j] == s.randoms[k]
  }

  /** Beyond that, a registration replaces an entry exactly when a listed call's request number agrees
      with its own modulo 2^64 and drew the same random number. */
  lemma RegistrationOverwritesOnCollision(run: seq<State>, k: nat, i: nat)
    requires IsRun(run) && k < |run| && i < |run[k].attempts| && run[k].attempts[i].phase == Created
    ensures var s := run[k];
            s.attempts[i].Key() in s.pending <==>
            exists j: nat :: Listed(s, j) && Collide(s, s.attempts[j].serial, s.attempts[i].serial)
  {
    hide NextStep, KeyOf, CallId;
    RunKeepsInv(run, k);
    var s := run[k];
    assert AttemptNumbered(s, i);
    forall j: nat | j < |s.attempts|
      ensures s.attempts[j].Key() == s.attempts[i].Key() <==> Collide(s, s.attempts[j].serial, s.attempts[i].serial)
    {
      assert AttemptNumbered(s, j);
      KeysDiffer(s.attempts[j].id, s.attempts[i].id);
      RequestIdsCollide(s, s.attempts[j].serial, s.attempts[i].serial);
    }
    var key := s.attempts[i].Key();
    if key in s.pending {
      assert EntryLive(s, key);
      assert Listed(s, s.pending[key]);
    }
  }

  /** A response that reaches a call carries the identifier of the call's request; and, until 2^64
      requests have been made, whatever the server sent to a caller was sent in answer to that request. */
  lemma ResponsesReachTheirCalls(run: seq<State>, k: nat, i: nat, m: Contents)
    requires IsRun(run) && k < |run| && i < |run[k].attempts|
    requires run[k].attempts[i].promise == Answered(m) || run[k].attempts[i].phase == Finished(Replied(m))
    ensures var a := run[k].attempts[i];
            && m.header.correlationId == a.id && IsReply(m)
            && a.serial < |run[k].requests| && a.id == run[k].requests[a.serial].header.messageId
            && (exists origin :: Emission(origin, m) in run[k].network)
    ensures forall origin :: |run[k].requests| <= COUNTER_RANGE && Emission(Some(origin), m) in run[k].network ==>
              origin == run[k].attempts[i].serial
  {
    hide NextStep, CallId;
    RunKeepsInv(run, k);
    var s := run[k];
    var a := s.attempts[i];
    assert AnswersAreProper(s, i) && AttemptNumbered(s, i);
    assert ProperAnswer(s, i, m);
    forall origin | |s.requests| <= COUNTER_RANGE && Emission(Some(origin), m) in s.network
      ensures origin == a.serial
    {
      assert EmissionNumbered(s, Emission(Some(origin), m));
      RequestIdsDiffer(s, origin, a.serial);
    }
  }

  /** A call fails for want of time, in its own wait or by the timeout thread, only when at least its
      timeout has passed since it was registered. */
  lemma TimeoutsAreNotEarly(run: seq<State>, k: nat, i: nat)
    requires IsRun(run) && k < |run| && i < |run[k].attempts|
    requires run[k].attempts[i].promise == Broken(TimedOut) || GaveUpWaiting(run[k].attempts[i].phase)
    ensures LimitPassed(run[k].attempts[i], run[k].now)
  {
    hide NextStep;
    RunKeepsInv(run, k);
    assert FulfilledByItsRemover(run[k], i) && Timely(run[k].attempts[i], run[k].now);
  }

  /** A finished call is still in the map exactly when nobody has removed it, which can only be because
      sending its request threw. */
  lemma OnlyThrownCallsStayBehind(run: seq<State>, k: nat, i: nat)
    requires IsRun(run) && k < |run| && |run[k].requests| <= COUNTER_RANGE
    requires i < |run[k].attempts| && run[k].attempts[i].phase.Finished?
    ensures var s := run[k]; var a := s.attempts[i];
            && (a.Key() in s.pending <==> a.remover == None)
            && (a.remover == None ==> a.phase.outcome == Threw)
  {
    hide NextStep, KeyOf, CallId;
    RunKeepsInv(run, k);
    RunKeepsAll(run, k);
    var s := run[k];
    var key := s.attempts[i].Key();
    assert FulfilledByItsRemover(s, i) && AnswersAreProper(s, i) && Kept(s, i);
    if key in s.pending {
      assert EntryLive(s, key);
      AttemptKeysDiffer(s, i, s.pending[key]);
    }
  }

  /** How a call that waits may go on: waiting, given up for want of time unless it was `decided`, or ended
      with what its promise holds. */
  predicate GoesOnAsItShould(a: Attempt, decided: bool) {
    && (decided ==> a.promise != Unset)
    && match a.phase
       case Waiting(_) => true
       case GaveUp(outcome) => outcome == WaitTimedOut && !decided
       case Finished(Replied(m)) => a.promise == Answered(m)
       case Finished(PromiseBroken(reason)) => a.promise == Broken(reason)
       case Finished(WaitTimedOut) => !decided
       case _ => false
  }

  lemma BreaksGoOn(s: State, t: State, step: Step, i: nat, decided: bool)
    requires Inv(s) && NextStep(s, t, step) && Grows(s, t) && (step.Sweep? || step.RejectAll?)
    requires i < |s.attempts| && GoesOnAsItShould(s.attempts[i], decided)
    ensures i < |t.attempts| && GoesOnAsItShould(t.attempts[i], decided)
  {
    hide Inv, KeyOf, CallId, Late, ExpiredKeys, BreakAll;
    assert Extends(s.attempts[i], t.attempts[i]);
  }

  lemma StepsGoOn(s: State, t: State, step: Step, i: nat, decided: bool)
    requires Inv(s) && NextStep(s, t, step) && Grows(s, t)
    requires i < |s.attempts| && GoesOnAsItShould(s.attempts[i], decided)
    ensures i < |t.attempts| && GoesOnAsItShould(t.attempts[i], decided)
  {
    hide Inv, KeyOf, CallId, Late, ExpiredKeys, BreakAll, BreakOne, IsReply;
    if step.Sweep? || step.RejectAll? {
      BreaksGoOn(s, t, step, i, decided);
    } else {
      assert Extends(s.attempts[i], t.attempts[i]);
    }
  }

  /** A call that waits ends with the answer, or the failure, that its promise got; it gives up only if its
      promise was still empty. */
  lemma {:induction false} WaitersEndAsDecided(run: seq<State>, j: nat, k: nat, i: nat)
    requires IsRun(run) && j <= k < |run| && i < |run[j].attempts| && run[j].attempts[i].phase.Waiting?
    ensures i < |run[k].attempts| && GoesOnAsItShould(run[k].attempts[i], run[j].attempts[i].promise != Unset)
    decreases k - j
  {
    hide NextStep, Inv, Numbered, AllTimely, Grows;
    if j < k {
      WaitersEndAsDecided(run, j, k - 1, i);
      RunKeepsInv(run, k - 1);
      RunGrows(run, k - 1, k);
      assert Next(run[k - 1], run[k - 1 + 1]);
      var step :| NextStep(run[k - 1], run[k], step);
      StepsGoOn(run[k - 1], run[k], step, i, run[j].attempts[i].promise != Unset);
    }
  }

  /** A response or error taken off the network whose call is listed leaves the map with that call and no
      other; with any other message nothing happens. */
  lemma RepliesAreTaken(s: State, t: State, e: Emission)
    requires Inv(s) && NextStep(s, t, Take(e))
    ensures var h, key := e.message.header, KeyOf(e.message.header.correlationId);
            && ((h.messageType == RESPONSE || h.messageType == ERROR) && key in s.pending ==>
                  && t.pending == s.pending - {key} && t.hand == Holding(s.pending[key], e.message)
                  && |t.attempts| == |s.attempts|
                  && t.attempts[s.pending[key]] == s.attempts[s.pending[key]].(remover := Some(Receiver))
                  && forall i :: 0 <= i < |s.attempts| && i != s.pending[key] ==> t.attempts[i] == s.attempts[i])
            && (!((h.messageType == RESPONSE || h.messageType == ERROR) && key in s.pending) ==> t == s)
  {
    hide KeyOf, CallId;
    var key := KeyOf(e.message.header.correlationId);
    assert key in s.pending ==> EntryLive(s, key);
  }

  /** Taken, delivered and awaited, a reply is what the waiting caller returns with. */
  lemma TakenRepliesReachTheCaller(s: State, t: State, u: State, v: State, e: Emission, i: nat)
    requires Inv(s) && (e.message.header.messageType == RESPONSE || e.message.header.messageType == ERROR)
    requires KeyOf(e.message.header.correlationId) in s.pending && s.pending[KeyOf(e.message.header.correlationId)] == i
    requires i < |s.attempts| && s.attempts[i].phase.Waiting?
    requires NextStep(s, t, Take(e)) && NextStep(t, u, Deliver) && NextStep(u, v, GetResponse(i))
    ensures u.attempts[i].promise == Answered(e.message) && u.hand == Empty
    ensures i < |v.attempts| && v.attempts[i].phase == Finished(Replied(e.message))
  {
    hide KeyOf, CallId;
    RepliesAreTaken(s, t, e);
    assert EntryLive(s, KeyOf(e.message.header.correlationId)) && FulfilledByItsRemover(s, i);
  }

  /** The receive thread holds something only while the threads run: from connection until they have been
      joined. */
  ghost predicate HeldByAThread(s: State) {
    && (s.hand.Holding? ==> s.running || s.closing == Stopping)
    && (s.closing == Stopping ==> !s.running)
  }

  /** Neither thread has taken anything between the two states. */
  ghost predicate Untouched(s: State, t: State) {
    && t.hand == Empty
    && forall i: nat | i < |s.attempts| && i < |t.attempts| && s.attempts[i].remover == None ::
         t.attempts[i].remover != Some(Receiver) && t.attempts[i].remover != Some(Sweeper)
  }

  lemma OnlyThreadsTake(s: State, t: State, step: Step)
    requires HeldByAThread(s) && PendingInRange(s) && (s.hand.Holding? ==> s.hand.attempt < |s.attempts|)
    requires NextStep(s, t, step)
    ensures HeldByAThread(t)
    ensures !s.running && s.closing != Stopping ==> Untouched(s, t)
  {
    hide KeyOf, CallId, ExpiredKeys, PendingInRange;
  }

  lemma {:induction false} OnlyThreadsHold(run: seq<State>, k: nat)
    requires IsRun(run) && k < |run|
    ensures HeldByAThread(run[k])
    ensures k + 1 < |run| && !run[k].running && run[k].closing != Stopping ==> Untouched(run[k], run[k + 1])
  {
    hide NextStep, HeldByAThread, Untouched, PendingInRange;
    if k == 0 {
      StartIsQuiet(run[0]);
    } else {
      OnlyThreadsHold(run, k - 1);
      assert Next(run[k - 1], run[k - 1 + 1]);
      var step :| NextStep(run[k - 1], run[k], step);
      OnlyThreadsTake(run[k - 1], run[k], step);
    }
    if k + 1 < |run| {
      assert Next(run[k], run[k + 1]);
      var step :| NextStep(run[k], run[k + 1], step);
      OnlyThreadsTake(run[k], run[k + 1], step);
    }
  }

  lemma StartIsQuiet(s: State)
    requires Init(s)
    ensures HeldByAThread(s)
  {
  }

  /** After disconnection has rejected the pending calls the map is empty, and a caller still waits for an
      outcome exactly when the receive thread, restarted meanwhile, holds the answer to its call. */
  lemma DisconnectReleasesEveryWaiter(run: seq<State>, k: nat, i: nat)
    requires IsRun(run) && k + 1 < |run| && |run[k].requests| <= COUNTER_RANGE
    requires Next(run[k], run[k + 1]) && NextStep(run[k], run[k + 1], RejectAll)
    requires i < |run[k + 1].attempts| && run[k + 1].attempts[i].phase.Waiting?
    ensures run[k + 1].pending == map[] && run[k + 1].hand == run[k].hand
    ensures run[k + 1].attempts[i].promise == Unset <==> run[k].hand.Holding? && run[k].hand.attempt == i
  {
    hide KeyOf, CallId, Late;
    RunKeepsInv(run, k);
    RunKeepsAll(run, k);
    var s := run[k];
    assert FulfilledByItsRemover(s, i) && Kept(s, i);
    var a := s.attempts[i];
    assert run[k + 1].attempts[i] == BreakOne(a, i, s.pending, s.pending.Keys, Disconnected, Disconnector);
    assert a.Key() in s.pending ==> EntryLive(s, a.Key());
  }
}
