/** The counters of a proxy under concurrent calls: every increment and decrement is a step of its own
    (workspace/src/framework/impl/ipc/service_proxy.cpp:228-239, 299-424). */
module CallStatistics {

  datatype Counters = Counters(total: nat, successful: nat, failed: nat, timeouts: nat, retries: nat, active: int)

  /** Where a caller stands; `retry` is the number of the attempt. */
  datatype Place =
    | Ready(retry: nat)        // before the check for a connection
    | Counted(retry: nat)      // total_calls was incremented
    | Trying(retry: nat)       // active_calls too
    | Retrying(retry: nat)     // total_retries was incremented
    | TimedOut(retry: nat)     // timeout_calls was incremented
    | Settled(retry: nat)      // successful_calls or failed_calls was incremented
    | OneWay                   // before a call without an answer
    | OneWayCounted
    | Done

  /** `attempts` is the number of times that the caller incremented total_calls; no step reads it. */
  datatype Caller = Caller(place: Place, attempts: nat)

  datatype State = State(counters: Counters, callers: seq<Caller>)

  datatype Policy = Policy(enabled: bool, maxAttempts: nat)

  datatype Step =
    | Arrive(oneWay: bool)
    | Refuse(i: nat)        // not connected: nothing is counted
    | Count(i: nat)
    | Activate(i: nat)
    | Succeed(i: nat)
    | TimeOut(i: nat)       // the last attempt timed out
    | Fail(i: nat)
    | Retry(i: nat)
    | Repeat(i: nat)
    | Leave(i: nat)

  function Move(s: State, i: nat, place: Place): State
    requires i < |s.callers|
  {
    s.(callers := s.callers[i := s.callers[i].(place := place)])
  }

  ghost predicate Init(s: State) {
    s == State(Counters(0, 0, 0, 0, 0, 0), [])
  }

  function PlaceOf(s: State, i: nat): Place {
    if i < |s.callers| then s.callers[i].place else Done
  }

  ghost predicate NextStep(policy: Policy, s: State, t: State, step: Step) {
    var c := s.counters;
    match step
    case Arrive(oneWay) => t == s.(callers := s.callers + [Caller(if oneWay then OneWay else Ready(0), 0)])
    case Refuse(i) => (PlaceOf(s, i).Ready? || PlaceOf(s, i).OneWay?) && t == Move(s, i, Done)
    case Count(i) =>
      && (PlaceOf(s, i).Ready? || PlaceOf(s, i).OneWay?)
      && var to := if PlaceOf(s, i).OneWay? then OneWayCounted else Counted(PlaceOf(s, i).retry);
         t == State(c.(total := c.total + 1), s.callers[i := Caller(to, s.callers[i].attempts + 1)])
    case Activate(i) =>
      PlaceOf(s, i).Counted? && t == Move(s, i, Trying(PlaceOf(s, i).retry)).(counters := c.(active := c.active + 1))
    case Succeed(i) =>
      && (PlaceOf(s, i).Trying? || PlaceOf(s, i).OneWayCounted?)
      && var to := if PlaceOf(s, i).OneWayCounted? then Done else Settled(PlaceOf(s, i).retry);
         t == Move(s, i, to).(counters := c.(successful := c.successful + 1))
    case TimeOut(i) =>
      PlaceOf(s, i).Trying? && t == Move(s, i, TimedOut(PlaceOf(s, i).retry)).(counters := c.(timeouts := c.timeouts + 1))
    case Fail(i) =>
      && (PlaceOf(s, i).Trying? || PlaceOf(s, i).TimedOut? || PlaceOf(s, i).OneWayCounted?)
      && var to := if PlaceOf(s, i).OneWayCounted? then Done else Settled(PlaceOf(s, i).retry);
         t == Move(s, i, to).(counters := c.(failed := c.failed + 1))
    case Retry(i) =>
      && PlaceOf(s, i).Trying? && policy.enabled && PlaceOf(s, i).retry < policy.maxAttempts
      && t == Move(s, i, Retrying(PlaceOf(s, i).retry)).(counters := c.(retries := c.retries + 1))
    case Repeat(i) =>
      PlaceOf(s, i).Retrying? && t == Move(s, i, Ready(PlaceOf(s, i).retry + 1)).(counters := c.(active := c.active - 1))
    case Leave(i) =>
      PlaceOf(s, i).Settled? && t == Move(s, i, Done).(counters := c.(active := c.active - 1))
  }

  // ---------------------------------------------------------------------------------------------
  // What the callers still owe the counters
  // ---------------------------------------------------------------------------------------------

  /** Counted in total_calls, and not yet as a success, a failure or a retry. */
  function Open(c: Caller): nat {
    if c.place.Counted? || c.place.Trying? || c.place.TimedOut? || c.place.OneWayCounted? then 1 else 0
  }

  /** Counted in active_calls. */
  function Active(c: Caller): nat {
    if c.place.Trying? || c.place.Retrying? || c.place.TimedOut? || c.place.Settled? then 1 else 0
  }

  /** Counted in timeout_calls, and not yet as a failure. */
  function Late(c: Caller): nat {
    if c.place.TimedOut? then 1 else 0
  }

  function Sum(weight: Caller -> nat, callers: seq<Caller>): nat {
    if callers == [] then 0 else weight(callers[0]) + Sum(weight, callers[1..])
  }

  lemma {:induction false} SumAfterMove(weight: Caller -> nat, callers: seq<Caller>, i: nat, c: Caller)
    requires i < |callers|
    ensures Sum(weight, callers[i := c]) + weight(callers[i]) == Sum(weight, callers) + weight(c)
  {
    if i == 0 {
      assert callers[0 := c][1..] == callers[1..];
    } else {
      assert callers[i := c][1..] == callers[1..][i - 1 := c];
      SumAfterMove(weight, callers[1..], i - 1, c);
    }
  }

  lemma {:induction false} SumAfterArrival(weight: Caller -> nat, callers: seq<Caller>, c: Caller)
    ensures Sum(weight, callers + [c]) == Sum(weight, callers) + weight(c)
  {
    if callers == [] {
      assert [c][1..] == [];
    } else {
      assert (callers + [c])[1..] == callers[1..] + [c];
      SumAfterArrival(weight, callers[1..], c);
    }
  }

  lemma {:induction false} SumAtLeast(weight: Caller -> nat, callers: seq<Caller>, i: nat)
    requires i < |callers|
    ensures Sum(weight, callers) >= weight(callers[i])
  {
    if i > 0 {
      SumAtLeast(weight, callers[1..], i - 1);
    }
  }

  lemma {:induction false} NothingOwed(weight: Caller -> nat, callers: seq<Caller>)
    requires forall i :: 0 <= i < |callers| ==> weight(callers[i]) == 0
    ensures Sum(weight, callers) == 0
  {
    if callers != [] {
      assert weight(callers[0]) == 0;
      forall i | 0 <= i < |callers[1..]|
        ensures weight(callers[1..][i]) == 0
      {
        assert callers[1..][i] == callers[i + 1];
      }
      NothingOwed(weight, callers[1..]);
    }
  }

  /** The number of attempts a caller in this place may have counted. */
  predicate AttemptsFit(policy: Policy, c: Caller) {
    match c.place
    case Ready(r) => c.attempts == r && (r > 0 ==> policy.enabled && r <= policy.maxAttempts)
    case Counted(r) => c.attempts == r + 1 && (r > 0 ==> policy.enabled && r <= policy.maxAttempts)
    case Trying(r) => c.attempts == r + 1 && (r > 0 ==> policy.enabled && r <= policy.maxAttempts)
    case Retrying(r) => c.attempts == r + 1 && policy.enabled && r < policy.maxAttempts
    case TimedOut(r) => c.attempts == r + 1 && (r > 0 ==> policy.enabled && r <= policy.maxAttempts)
    case Settled(r) => c.attempts == r + 1 && (r > 0 ==> policy.enabled && r <= policy.maxAttempts)
    case OneWay => c.attempts == 0
    case OneWayCounted => c.attempts == 1
    case Done => c.attempts <= (if policy.enabled then policy.maxAttempts + 1 else 1)
  }

  ghost predicate Inv(policy: Policy, s: State) {
    && s.counters.total == s.counters.successful + s.counters.failed + s.counters.retries + Sum(Open, s.callers)
    && s.counters.active == Sum(Active, s.callers)
    && s.counters.timeouts <= s.counters.failed + Sum(Late, s.callers)
    && forall i :: 0 <= i < |s.callers| ==> AttemptsFit(policy, s.callers[i])
  }

  lemma NextKeepsInv(policy: Policy, s: State, t: State, step: Step)
    requires Inv(policy, s) && NextStep(policy, s, t, step)
    ensures Inv(policy, t)
  {
    hide Sum;
    if step.Arrive? {
      var c := t.callers[|s.callers|];
      SumAfterArrival(Open, s.callers, c);
      SumAfterArrival(Active, s.callers, c);
      SumAfterArrival(Late, s.callers, c);
    } else {
      var i := step.i;
      assert AttemptsFit(policy, s.callers[i]);
      SumAfterMove(Open, s.callers, i, t.callers[i]);
      SumAfterMove(Active, s.callers, i, t.callers[i]);
      SumAfterMove(Late, s.callers, i, t.callers[i]);
      assert t.callers == s.callers[i := t.callers[i]];
    }
  }

  ghost predicate Next(policy: Policy, s: State, t: State) {
    exists step :: NextStep(policy, s, t, step)
  }

  ghost predicate IsRun(policy: Policy, run: seq<State>) {
    && run != [] && Init(run[0])
    && forall k: nat | k + 1 < |run| :: Next(policy, run[k], run[k + 1])
  }

  lemma {:induction false} RunKeepsInv(policy: Policy, run: seq<State>, k: nat)
    requires IsRun(policy, run) && k < |run|
    ensures Inv(policy, run[k])
  {
    hide NextStep;
    if k > 0 {
      RunKeepsInv(policy, run, k - 1);
      assert Next(policy, run[k - 1], run[k - 1 + 1]);
      var step :| NextStep(policy, run[k - 1], run[k], step);
      NextKeepsInv(policy, run[k - 1], run[k], step);
    }
  }

  /** When no call is under way, every counted attempt is a success, a failure or a retry, and no call
      is active. */
  lemma CountersBalanceAtRest(policy: Policy, run: seq<State>, k: nat)
    requires IsRun(policy, run) && k < |run|
    requires forall i :: 0 <= i < |run[k].callers| ==> run[k].callers[i].place == Done
    ensures var c := run[k].counters;
            && c.total == c.successful + c.failed + c.retries && c.active == 0 && c.timeouts <= c.failed
  {
    RunKeepsInv(policy, run, k);
    NothingOwed(Open, run[k].callers);
    NothingOwed(Active, run[k].callers);
    NothingOwed(Late, run[k].callers);
  }

  /** No call makes more than one attempt above the configured number, or more than one when retries
      are disabled, and active_calls never falls below the number of calls that will still decrement it. */
  lemma AttemptsAreLimited(policy: Policy, run: seq<State>, k: nat, i: nat)
    requires IsRun(policy, run) && k < |run| && i < |run[k].callers|
    ensures run[k].callers[i].attempts <= (if policy.enabled then policy.maxAttempts + 1 else 1)
    ensures run[k].counters.active >= Active(run[k].callers[i])
  {
    RunKeepsInv(policy, run, k);
    assert AttemptsFit(policy, run[k].callers[i]);
    SumAtLeast(Active, run[k].callers, i);
  }

  // ---------------------------------------------------------------------------------------------
  // Calls can be carried through
  // ---------------------------------------------------------------------------------------------

  function Last(run: seq<State>): State
    requires run != []
  {
    run[|run| - 1]
  }

  ghost predicate Continues(policy: Policy, run: seq<State>, run': seq<State>) {
    run != [] && IsRun(policy, run') && run <= run'
  }

  lemma Extend(policy: Policy, run: seq<State>, t: State, step: Step)
    requires IsRun(policy, run) && NextStep(policy, Last(run), t, step)
    ensures Continues(policy, run, run + [t]) && Last(run + [t]) == t
  {
    hide NextStep, Init;
    var run' := run + [t];
    assert Next(policy, Last(run), t) by {
      assert NextStep(policy, Last(run), t, step);
    }
    forall k: nat | k + 1 < |run'|
      ensures Next(policy, run'[k], run'[k + 1])
    {
      if k + 1 < |run| {
        assert run'[k] == run[k] && run'[k + 1] == run[k + 1];
      }
    }
  }

  /** An attempt begins. */
  lemma AttemptsBegin(policy: Policy, run: seq<State>, i: nat) returns (run': seq<State>)
    requires IsRun(policy, run) && i < |Last(run).callers| && Last(run).callers[i].place.Ready?
    ensures Continues(policy, run, run')
    ensures var s, c := Last(run), Last(run).callers[i];
            && Last(run').counters == s.counters.(total := s.counters.total + 1, active := s.counters.active + 1)
            && Last(run').callers == s.callers[i := Caller(Trying(c.place.retry), c.attempts + 1)]
  {
    var s := Last(run);
    var c := s.callers[i];
    var s1 := State(s.counters.(total := s.counters.total + 1), s.callers[i := Caller(Counted(c.place.retry), c.attempts + 1)]);
    Extend(policy, run, s1, Count(i));
    var s2 := Move(s1, i, Trying(c.place.retry)).(counters := s1.counters.(active := s1.counters.active + 1));
    Extend(policy, run + [s1], s2, Activate(i));
    run' := run + [s1] + [s2];
  }

  /** It is given up and repeated, `n` times. */
  lemma {:induction false} AttemptsAreRepeated(policy: Policy, run: seq<State>, i: nat, n: nat) returns (run': seq<State>)
    requires IsRun(policy, run) && i < |Last(run).callers| && Last(run).callers[i].place.Ready?
    requires n > 0 ==> policy.enabled && Last(run).callers[i].place.retry + n <= policy.maxAttempts
    ensures Continues(policy, run, run')
    ensures var s, c := Last(run), Last(run).callers[i];
            && Last(run').counters == s.counters.(total := s.counters.total + n, retries := s.counters.retries + n)
            && Last(run').callers == s.callers[i := Caller(Ready(c.place.retry + n), c.attempts + n)]
    decreases n
  {
    hide Init;
    if n == 0 {
      run' := run;
    } else {
      var r := AttemptsBegin(policy, run, i);
      var s := Last(r);
      var retry := s.callers[i].place.retry;
      var s1 := Move(s, i, Retrying(retry)).(counters := s.counters.(retries := s.counters.retries + 1));
      Extend(policy, r, s1, Retry(i));
      var s2 := Move(s1, i, Ready(retry + 1)).(counters := s1.counters.(active := s1.counters.active - 1));
      Extend(policy, r + [s1], s2, Repeat(i));
      run' := AttemptsAreRepeated(policy, r + [s1] + [s2], i, n - 1);
    }
  }

  datatype Ending = Succeeding | Failing | TimingOut

  /** What a call adds to the counters from its arrival to its end. */
  function Adds(c: Counters, retries: nat, ending: Ending): Counters {
    c.(total := c.total + retries + 1, retries := c.retries + retries,
       successful := c.successful + (if ending == Succeeding then 1 else 0), failed := c.failed + (if ending == Succeeding then 0 else 1),
       timeouts := c.timeouts + (if ending == TimingOut then 1 else 0))
  }

  /** The last attempt ends. */
  lemma AttemptsEnd(policy: Policy, run: seq<State>, i: nat, ending: Ending) returns (run': seq<State>)
    requires IsRun(policy, run) && i < |Last(run).callers| && Last(run).callers[i].place.Trying?
    ensures Continues(policy, run, run')
    ensures var s := Last(run); var c := s.counters;
            && Last(run').callers == s.callers[i := s.callers[i].(place := Done)]
            && Last(run').counters == c.(active := c.active - 1, timeouts := c.timeouts + (if ending == TimingOut then 1 else 0),
                                         successful := c.successful + (if ending == Succeeding then 1 else 0),
                                         failed := c.failed + (if ending == Succeeding then 0 else 1))
  {
    hide Init;
    var s, r := Last(run), run;
    var retry := s.callers[i].place.retry;
    if ending == TimingOut {
      s := Move(s, i, TimedOut(retry)).(counters := s.counters.(timeouts := s.counters.timeouts + 1));
      Extend(policy, r, s, TimeOut(i));
      r := r + [s];
    }
    var s1 := Move(s, i, Settled(retry));
    if ending == Succeeding {
      s1 := s1.(counters := s.counters.(successful := s.counters.successful + 1));
      Extend(policy, r, s1, Succeed(i));
    } else {
      s1 := s1.(counters := s.counters.(failed := s.counters.failed + 1));
      Extend(policy, r, s1, Fail(i));
    }
    var s2 := Move(s1, i, Done).(counters := s1.counters.(active := s1.counters.active - 1));
    Extend(policy, r + [s1], s2, Leave(i));
    run' := r + [s1] + [s2];
  }

  /** Whatever goes on besides, a call can make any number of retries that the policy allows and end in any
      way: it adds one attempt for each, and one success or failure. */
  lemma CallsCanEnd(policy: Policy, run: seq<State>, retries: nat, ending: Ending) returns (run': seq<State>)
    requires IsRun(policy, run) && (retries > 0 ==> policy.enabled && retries <= policy.maxAttempts)
    ensures Continues(policy, run, run')
    ensures Last(run').callers == Last(run).callers + [Caller(Done, retries + 1)]
    ensures Last(run').counters == Adds(Last(run).counters, retries, ending)
  {
    hide Init;
    var s := Last(run);
    var n := |s.callers|;
    var s1 := s.(callers := s.callers + [Caller(Ready(0), 0)]);
    Extend(policy, run, s1, Arrive(false));
    run' := AttemptsAreRepeated(policy, run + [s1], n, retries);
    run' := AttemptsBegin(policy, run', n);
    run' := AttemptsEnd(policy, run', n, ending);
  }

  /** A call without an answer can succeed or fail, and adds one attempt. */
  lemma OneWayCallsCanEnd(policy: Policy, run: seq<State>, ending: Ending) returns (run': seq<State>)
    requires IsRun(policy, run) && ending != TimingOut
    ensures Continues(policy, run, run')
    ensures Last(run').callers == Last(run).callers + [Caller(Done, 1)]
    ensures Last(run').counters == Adds(Last(run).counters, 0, ending)
  {
    hide Init;
    var s := Last(run);
    var n, c := |s.callers|, s.counters;
    var s1 := s.(callers := s.callers + [Caller(OneWay, 0)]);
    Extend(policy, run, s1, Arrive(true));
    var s2 := State(c.(total := c.total + 1), s1.callers[n := Caller(OneWayCounted, 1)]);
    Extend(policy, run + [s1], s2, Count(n));
    var s3 := Move(s2, n, Done).(counters := Adds(c, 0, ending));
    Extend(policy, run + [s1] + [s2], s3, if ending == Succeeding then Succeed(n) else Fail(n));
    run' := run + [s1] + [s2] + [s3];
  }

  /** Without a connection a call of either kind ends uncounted. */
  lemma CallsCanBeRefused(policy: Policy, run: seq<State>, oneWay: bool) returns (run': seq<State>)
    requires IsRun(policy, run)
    ensures Continues(policy, run, run')
    ensures Last(run') == State(Last(run).counters, Last(run).callers + [Caller(Done, 0)])
  {
    hide Init;
    var s := Last(run);
    var s1 := s.(callers := s.callers + [Caller(if oneWay then OneWay else Ready(0), 0)]);
    Extend(policy, run, s1, Arrive(oneWay));
    var s2 := Move(s1, |s.callers|, Done);
    Extend(policy, run + [s1], s2, Refuse(|s.callers|));
    run' := run + [s1] + [s2];
  }
}
