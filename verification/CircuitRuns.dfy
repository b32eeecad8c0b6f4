/** What holds in every run of a circuit breaker (workspace/src/framework/impl/ipc/circuit_breaker.cpp:157-410). */
module CircuitRuns {
  import opened Clocks
  import opened CircuitBreakers

  /** An event, the clock when it begins and the clock if a transition reads it again. */
  datatype Timed = Timed(event: Event, now: int, later: int)

  /** The steady clock never decreases. */
  ghost predicate Monotone(start: int, trace: seq<Timed>) {
    && (forall i :: 0 <= i < |trace| ==> start <= trace[i].now <= trace[i].later)
    && (forall i, j :: 0 <= i < j < |trace| ==> trace[i].later <= trace[j].now)
  }

  /** The breaker after a run. */
  function After(c: Config, start: int, trace: seq<Timed>): State {
    if trace == [] then Start(start)
    else
      var last := trace[|trace| - 1];
      Next(c, After(c, start, trace[..|trace| - 1]), last.event, last.now, last.later)
  }

  lemma AfterOne(c: Config, start: int, trace: seq<Timed>, k: nat)
    requires k < |trace|
    ensures After(c, start, trace[..k + 1]) ==
              Next(c, After(c, start, trace[..k]), trace[k].event, trace[k].now, trace[k].later)
  {
    assert trace[..k + 1][..k] == trace[..k];
  }

  // ---------------------------------------------------------------------------------------------
  // Admission
  // ---------------------------------------------------------------------------------------------

  /** Event `k` opens the circuit. */
  predicate Opens(c: Config, start: int, trace: seq<Timed>, k: nat)
    requires k < |trace|
  {
    After(c, start, trace[..k]).circuit != Open && After(c, start, trace[..k + 1]).circuit == Open
  }

  /** Event `k` is an execution that is let through. */
  predicate Admits(c: Config, start: int, trace: seq<Timed>, k: nat)
    requires k < |trace|
  {
    trace[k].event == Admit && After(c, start, trace[..k + 1]).circuit != Open
  }

  function Timeout(c: Config): nat {
    c.openTimeout * NANOSECONDS_PER_MILLISECOND
  }

  /** Before event `k`: an open circuit dates from event `j` or later, and any other circuit means that
      the timeout since event `j` has passed. */
  ghost predicate Waited(c: Config, start: int, trace: seq<Timed>, j: nat, k: nat)
    requires j < k <= |trace|
  {
    var s := After(c, start, trace[..k]);
    && trace[j].later <= trace[k - 1].later
    && (if s.circuit == Open then trace[j].later <= s.changed <= trace[k - 1].later
        else trace[k - 1].later - trace[j].later >= Timeout(c))
  }

  lemma TransitionTimes(c: Config, s: State, e: Timed)
    requires s.changed <= e.now <= e.later
    ensures var t := Next(c, s, e.event, e.now, e.later);
            && s.changed <= t.changed <= e.later
            && (t.circuit == Open && s.circuit == Open ==> t.changed == s.changed)
            && (t.circuit == Open && s.circuit != Open ==> t.changed == e.later)
            && (t.circuit != Open && s.circuit == Open ==> e.event == Admit && e.now - s.changed >= Timeout(c))
  {
    LimitReached(e.now - s.changed, c.openTimeout);
    hide ShouldOpen, Counted, Milliseconds;
    CountedKeepsCircuit(c, s, true);
    CountedKeepsCircuit(c, s, false);
  }

  lemma CountedKeepsCircuit(c: Config, s: State, success: bool)
    ensures Counted(c, s, success).circuit == s.circuit && Counted(c, s, success).changed == s.changed
  {
  }

  lemma {:induction false} ChangedInThePast(c: Config, start: int, trace: seq<Timed>, k: nat)
    requires Monotone(start, trace) && k <= |trace|
    ensures After(c, start, trace[..k]).changed <= if k == 0 then start else trace[k - 1].later
  {
    hide Next;
    if k > 0 {
      ChangedInThePast(c, start, trace, k - 1);
      AfterOne(c, start, trace, k - 1);
      TransitionTimes(c, After(c, start, trace[..k - 1]), trace[k - 1]);
    }
  }

  lemma {:induction false} WaitedAfterOpening(c: Config, start: int, trace: seq<Timed>, j: nat, k: nat)
    requires Monotone(start, trace) && j < k <= |trace| && Opens(c, start, trace, j)
    ensures Waited(c, start, trace, j, k)
    decreases k
  {
    hide Next;
    var e := trace[k - 1];
    ChangedInThePast(c, start, trace, k - 1);
    AfterOne(c, start, trace, k - 1);
    TransitionTimes(c, After(c, start, trace[..k - 1]), e);
    if j + 1 < k {
      WaitedAfterOpening(c, start, trace, j, k - 1);
    }
  }

  /** Every execution that is let through begins at least the open timeout after every earlier opening
      of the circuit. */
  lemma AdmittedOperationsWaited(c: Config, start: int, trace: seq<Timed>, j: nat, k: nat)
    requires Monotone(start, trace) && j < k < |trace|
    requires Opens(c, start, trace, j) && Admits(c, start, trace, k)
    ensures trace[k].now - trace[j].later >= Timeout(c)
  {
    hide Next;
    WaitedAfterOpening(c, start, trace, j, k);
    ChangedInThePast(c, start, trace, k);
    AfterOne(c, start, trace, k);
    TransitionTimes(c, After(c, start, trace[..k]), trace[k]);
  }

  /** And an execution is rejected only while the circuit is open and its timeout has not passed. */
  lemma RejectionsAreEarly(c: Config, start: int, trace: seq<Timed>, k: nat)
    requires Monotone(start, trace) && k < |trace| && trace[k].event == Admit
    ensures var s := After(c, start, trace[..k]);
            Admits(c, start, trace, k) <==> s.circuit != Open || trace[k].now - s.changed >= Timeout(c)
  {
    AfterOne(c, start, trace, k);
    ChangedInThePast(c, start, trace, k);
    LimitReached(trace[k].now - After(c, start, trace[..k]).changed, c.openTimeout);
  }

  // ---------------------------------------------------------------------------------------------
  // Counters
  // ---------------------------------------------------------------------------------------------

  function Openings(c: Config, start: int, trace: seq<Timed>, k: nat): nat
    requires k <= |trace|
  {
    if k == 0 then 0 else Openings(c, start, trace, k - 1) + if Opens(c, start, trace, k - 1) then 1 else 0
  }

  ghost predicate CountersAgree(s: State) {
    && s.stats.openCount == s.stats.halfOpenCount + (if s.circuit == Open then 1 else 0)
    && s.stats.closeCount <= s.stats.halfOpenCount
    && (s.circuit == HalfOpen ==> s.stats.closeCount < s.stats.halfOpenCount)
  }

  lemma NextCounts(c: Config, s: State, e: Timed)
    requires CountersAgree(s)
    ensures var t := Next(c, s, e.event, e.now, e.later);
            && CountersAgree(t)
            && t.stats.openCount == s.stats.openCount + (if s.circuit != Open && t.circuit == Open then 1 else 0)
  {
    hide ShouldOpen, Milliseconds, RateOf, PushWindow;
  }

  /** The circuit has been opened once more than it has been half opened exactly while it is open; and
      open_count counts the openings. */
  lemma {:induction false} OpeningsBalance(c: Config, start: int, trace: seq<Timed>, k: nat)
    requires k <= |trace|
    ensures var s := After(c, start, trace[..k]);
            && s.stats.openCount == s.stats.halfOpenCount + (if s.circuit == Open then 1 else 0)
            && s.stats.openCount == Openings(c, start, trace, k)
            && s.stats.closeCount <= s.stats.halfOpenCount
    ensures CountersAgree(After(c, start, trace[..k]))
  {
    hide Next;
    if k > 0 {
      OpeningsBalance(c, start, trace, k - 1);
      AfterOne(c, start, trace, k - 1);
      NextCounts(c, After(c, start, trace[..k - 1]), trace[k - 1]);
    }
  }

  // ---------------------------------------------------------------------------------------------
  // The closed circuit
  // ---------------------------------------------------------------------------------------------

  /** Only a closed circuit with no outcome recorded since it closed may meet the condition for opening. */
  ghost predicate Calm(c: Config, s: State) {
    s.circuit == Closed && ShouldOpen(c, s) ==> s.stats.consecutiveFailures == 0 && s.stats.consecutiveSuccesses == 0
  }

  ghost predicate BelowThreshold(c: Config, s: State) {
    c.windowSize == 0 && s.circuit == Closed ==> s.stats.consecutiveFailures < c.failureThreshold
  }

  lemma NextKeepsCalm(c: Config, s: State, e: Timed)
    requires ValidConfig(c) && Calm(c, s) && BelowThreshold(c, s)
    ensures Calm(c, Next(c, s, e.event, e.now, e.later)) && BelowThreshold(c, Next(c, s, e.event, e.now, e.later))
  {
    hide Milliseconds, RateOf, PushWindow;
  }

  /** In every run a closed circuit is one that should not open, unless nothing has been recorded since it
      closed; without a rolling window it always has fewer consecutive failures than the threshold. */
  lemma {:induction false} ClosedMeansBelowThreshold(c: Config, start: int, trace: seq<Timed>)
    requires ValidConfig(c)
    ensures Calm(c, After(c, start, trace)) && BelowThreshold(c, After(c, start, trace))
  {
    hide Next, ShouldOpen;
    if trace != [] {
      ClosedMeansBelowThreshold(c, start, trace[..|trace| - 1]);
      NextKeepsCalm(c, After(c, start, trace[..|trace| - 1]), trace[|trace| - 1]);
    } else {
      StartIsCalm(c, start);
    }
  }

  lemma StartIsCalm(c: Config, start: int)
    requires ValidConfig(c)
    ensures Calm(c, Start(start)) && BelowThreshold(c, Start(start))
  {
  }

  // ---------------------------------------------------------------------------------------------
  // The rolling window
  // ---------------------------------------------------------------------------------------------

  /** The outcomes recorded in a run, oldest first. */
  function Outcomes(trace: seq<Timed>): seq<bool> {
    if trace == [] then []
    else
      var last := trace[|trace| - 1].event;
      Outcomes(trace[..|trace| - 1]) + if last.Record? then [last.success] else []
  }

  function Latest(outcomes: seq<bool>, size: nat): seq<bool> {
    if |outcomes| <= size then outcomes else outcomes[|outcomes| - size..]
  }

  lemma LatestNext(c: Config, outcomes: seq<bool>, success: bool)
    ensures c.windowSize > 0 ==>
              PushWindow(c, Latest(outcomes, c.windowSize), success) == Latest(outcomes + [success], c.windowSize)
  {
  }

  lemma NextWindow(c: Config, s: State, e: Timed)
    ensures var t := Next(c, s, e.event, e.now, e.later);
            if e.event.Record? && c.windowSize > 0
            then t.window == PushWindow(c, s.window, e.event.success) && t.stats.rate == RateOf(t.window)
            else t.window == s.window && t.stats.rate == s.stats.rate
  {
    hide ShouldOpen, Milliseconds, RateOf, PushWindow;
  }

  lemma NextTotals(c: Config, s: State, e: Timed)
    ensures var t := Next(c, s, e.event, e.now, e.later);
            && t.stats.successes == s.stats.successes + (if e.event == Record(true) then 1 else 0)
            && t.stats.failures == s.stats.failures + (if e.event == Record(false) then 1 else 0)
  {
    hide ShouldOpen, Milliseconds, RateOf, PushWindow;
  }

  /** The window holds exactly the latest outcomes, and the rate is the share of failures among them; the
      totals count all outcomes. */
  lemma {:induction false} WindowHoldsLatestOutcomes(c: Config, start: int, trace: seq<Timed>)
    ensures var s := After(c, start, trace);
            var outcomes := Outcomes(trace);
            && (c.windowSize > 0 ==> s.window == Latest(outcomes, c.windowSize) && s.stats.rate == RateOf(s.window))
            && s.stats.failures == FailuresIn(outcomes) && s.stats.successes + s.stats.failures == |outcomes|
  {
    hide Next, RateOf;
    if trace != [] {
      var before, e := trace[..|trace| - 1], trace[|trace| - 1];
      WindowHoldsLatestOutcomes(c, start, before);
      NextWindow(c, After(c, start, before), e);
      NextTotals(c, After(c, start, before), e);
      if e.event.Record? {
        LatestNext(c, Outcomes(before), e.event.success);
        assert Outcomes(trace)[..|Outcomes(trace)| - 1] == Outcomes(before);
      } else {
        assert Outcomes(trace) == Outcomes(before);
      }
    } else {
      EmptyRate();
    }
  }

  lemma EmptyRate()
    ensures RateOf([]) == 0.0
  {
  }

  // ---------------------------------------------------------------------------------------------
  // Transitions and runs of outcomes
  // ---------------------------------------------------------------------------------------------

  /** Event `k` changes the circuit to `to`. */
  predicate Changes(c: Config, start: int, trace: seq<Timed>, k: nat, to: Circuit)
    requires k < |trace|
  {
    After(c, start, trace[..k]).circuit != to && After(c, start, trace[..k + 1]).circuit == to
  }

  /** The number of the event behind the last one before `k` that changed the circuit, or 0. */
  function LastChange(c: Config, start: int, trace: seq<Timed>, k: nat): (j: nat)
    requires k <= |trace|
    ensures j <= k
  {
    if k == 0 then 0
    else if After(c, start, trace[..k - 1]).circuit != After(c, start, trace[..k]).circuit then k
    else LastChange(c, start, trace, k - 1)
  }

  /** How many of the latest outcomes in a row are `value`. */
  function Trailing(outcomes: seq<bool>, value: bool): (n: nat)
    ensures n <= |outcomes|
  {
    if outcomes == [] || outcomes[|outcomes| - 1] != value then 0 else 1 + Trailing(outcomes[..|outcomes| - 1], value)
  }

  lemma {:induction false} TrailingIsTheLastRun(outcomes: seq<bool>, value: bool)
    ensures var n := Trailing(outcomes, value);
            && (forall i :: |outcomes| - n <= i < |outcomes| ==> outcomes[i] == value)
            && (n < |outcomes| ==> outcomes[|outcomes| - n - 1] != value)
  {
    if outcomes != [] && outcomes[|outcomes| - 1] == value {
      TrailingIsTheLastRun(outcomes[..|outcomes| - 1], value);
    }
  }

  function SuccessesIn(outcomes: seq<bool>): nat {
    if outcomes == [] then 0 else SuccessesIn(outcomes[..|outcomes| - 1]) + if outcomes[|outcomes| - 1] then 1 else 0
  }

  lemma OutcomesNext(trace: seq<Timed>, j: nat, k: nat)
    requires j <= k < |trace|
    ensures Outcomes(trace[j..k + 1]) ==
            if trace[k].event.Record? then Outcomes(trace[j..k]) + [trace[k].event.success] else Outcomes(trace[j..k])
  {
    assert Outcomes(trace[j..k]) + [] == Outcomes(trace[j..k]);
    assert trace[j..k + 1][..k - j] == trace[j..k];
  }

  lemma TrailingNext(outcomes: seq<bool>, success: bool, value: bool)
    ensures Trailing(outcomes + [success], value) == if success == value then Trailing(outcomes, value) + 1 else 0
  {
    assert (outcomes + [success])[..|outcomes|] == outcomes;
  }

  lemma NextRuns(c: Config, s: State, e: Timed)
    ensures var t := Next(c, s, e.event, e.now, e.later);
            && (t.circuit != s.circuit ==> t.stats.consecutiveFailures == 0 == t.stats.consecutiveSuccesses && t.changed == e.later)
            && (t.circuit == s.circuit ==> t.changed == s.changed)
            && (t.circuit == s.circuit && !e.event.Record? ==>
                  t.stats.consecutiveFailures == s.stats.consecutiveFailures && t.stats.consecutiveSuccesses == s.stats.consecutiveSuccesses)
            && (t.circuit == s.circuit && e.event == Record(true) ==>
                  t.stats.consecutiveFailures == 0 && t.stats.consecutiveSuccesses == s.stats.consecutiveSuccesses + 1)
            && (t.circuit == s.circuit && e.event == Record(false) ==>
                  t.stats.consecutiveFailures == s.stats.consecutiveFailures + 1 && t.stats.consecutiveSuccesses == 0 && t.circuit != HalfOpen)
  {
    hide ShouldOpen, Milliseconds, RateOf, PushWindow;
  }

  /** The counters of consecutive outcomes are the lengths of the last runs among these outcomes. */
  predicate CountsRuns(s: State, outcomes: seq<bool>) {
    && s.stats.consecutiveFailures == Trailing(outcomes, false)
    && s.stats.consecutiveSuccesses == Trailing(outcomes, true)
    && (s.circuit == HalfOpen ==> Trailing(outcomes, true) == |outcomes|)
  }

  lemma NextCountsRuns(c: Config, s: State, e: Timed, outcomes: seq<bool>)
    requires CountsRuns(s, outcomes)
    ensures var t := Next(c, s, e.event, e.now, e.later);
            && (t.circuit == s.circuit ==> CountsRuns(t, if e.event.Record? then outcomes + [e.event.success] else outcomes))
            && (t.circuit != s.circuit ==> forall none: seq<bool> :: none == [] ==> CountsRuns(t, none))
  {
    hide Next;
    NextRuns(c, s, e);
    if e.event.Record? {
      TrailingNext(outcomes, e.event.success, true);
      TrailingNext(outcomes, e.event.success, false);
    }
  }

  /** What the first `k` events leave behind: runs counted since the last change, and its time. */
  ghost predicate RunsCounted(c: Config, start: int, trace: seq<Timed>, k: nat)
    requires k <= |trace|
  {
    var s, j := After(c, start, trace[..k]), LastChange(c, start, trace, k);
    && CountsRuns(s, Outcomes(trace[j..k]))
    && s.changed == if j == 0 then start else trace[j - 1].later
  }

  lemma OneMoreEventCounted(c: Config, start: int, trace: seq<Timed>, k: nat)
    requires k < |trace| && RunsCounted(c, start, trace, k)
    ensures RunsCounted(c, start, trace, k + 1)
  {
    hide Next, After, Outcomes, CountsRuns, LastChange;
    var s, j := After(c, start, trace[..k]), LastChange(c, start, trace, k);
    LastChangeNext(c, start, trace, k + 1);
    NothingSince(trace, k + 1);
    AfterOne(c, start, trace, k);
    NextRuns(c, s, trace[k]);
    NextCountsRuns(c, s, trace[k], Outcomes(trace[j..k]));
    OutcomesNext(trace, j, k);
  }

  /** They are the lengths of the unbroken runs in the trace since the circuit last changed; and that is when
      it did. */
  lemma {:induction false} RunsSinceTheLastChange(c: Config, start: int, trace: seq<Timed>, k: nat)
    requires k <= |trace|
    ensures RunsCounted(c, start, trace, k)
  {
    if k == 0 {
      hide Next, Outcomes, CountsRuns;
      NothingSince(trace, 0);
      StartCountsRuns(start);
    } else {
      hide RunsCounted;
      RunsSinceTheLastChange(c, start, trace, k - 1);
      OneMoreEventCounted(c, start, trace, k - 1);
    }
  }

  lemma StartCountsRuns(start: int)
    ensures forall none: seq<bool> :: none == [] ==> CountsRuns(Start(start), none)
  {
  }

  lemma LastChangeNext(c: Config, start: int, trace: seq<Timed>, k: nat)
    requires k <= |trace|
    ensures k == 0 ==> LastChange(c, start, trace, k) == 0 && After(c, start, trace[..k]) == Start(start)
    ensures k > 0 ==>
              LastChange(c, start, trace, k) ==
                if After(c, start, trace[..k - 1]).circuit != After(c, start, trace[..k]).circuit then k
                else LastChange(c, start, trace, k - 1)
  {
    hide Next;
  }

  lemma NothingSince(trace: seq<Timed>, k: nat)
    requires k <= |trace|
    ensures Outcomes(trace[k..k]) == []
  {
  }

  lemma {:induction false} AllSuccesses(outcomes: seq<bool>)
    ensures Trailing(outcomes, true) == |outcomes| <==> SuccessesIn(outcomes) == |outcomes|
    ensures SuccessesIn(outcomes) <= |outcomes|
  {
    if outcomes != [] {
      AllSuccesses(outcomes[..|outcomes| - 1]);
    }
  }

  lemma NextCloses(c: Config, s: State, e: Timed)
    ensures s.circuit != Closed && Next(c, s, e.event, e.now, e.later).circuit == Closed <==>
            e.event == Record(true) && s.circuit == HalfOpen && s.stats.consecutiveSuccesses + 1 >= c.successThreshold
    ensures s.circuit != HalfOpen && Next(c, s, e.event, e.now, e.later).circuit == HalfOpen <==>
            e.event == Admit && s.circuit == Open && OpenLongEnough(c, s, e.now)
    ensures e.event == ForceOpen ==> Next(c, s, e.event, e.now, e.later).circuit == Open
    ensures e.event == Admit && s.circuit != Open ==> Next(c, s, e.event, e.now, e.later) == s
  {
    hide ShouldOpen, Milliseconds, RateOf, PushWindow;
  }

  /** An event closes the circuit exactly when it records a success while the circuit is half open, and the
      successes recorded since it became so, this one included, reach the threshold. */
  lemma ClosesExactly(c: Config, start: int, trace: seq<Timed>, k: nat)
    requires k < |trace|
    ensures Changes(c, start, trace, k, Closed) <==>
            && trace[k].event == Record(true) && After(c, start, trace[..k]).circuit == HalfOpen
            && SuccessesIn(Outcomes(trace[LastChange(c, start, trace, k)..k + 1])) >= c.successThreshold
  {
    hide Next, Trailing;
    var j := LastChange(c, start, trace, k);
    AfterOne(c, start, trace, k);
    RunsSinceTheLastChange(c, start, trace, k);
    OutcomesNext(trace, j, k);
    NextCloses(c, After(c, start, trace[..k]), trace[k]);
    if trace[k].event == Record(true) {
      TrailingNext(Outcomes(trace[j..k]), true, true);
    }
    AllSuccesses(Outcomes(trace[j..k + 1]));
  }

  /** It becomes half open exactly when an execution begins and the timeout has passed since it opened. */
  lemma HalfOpensExactly(c: Config, start: int, trace: seq<Timed>, k: nat)
    requires Monotone(start, trace) && k < |trace|
    ensures Changes(c, start, trace, k, HalfOpen) <==>
            var j := LastChange(c, start, trace, k);
            && trace[k].event == Admit && After(c, start, trace[..k]).circuit == Open
            && trace[k].now - (if j == 0 then start else trace[j - 1].later) >= Timeout(c)
  {
    hide Next, Trailing;
    AfterOne(c, start, trace, k);
    RunsSinceTheLastChange(c, start, trace, k);
    NextCloses(c, After(c, start, trace[..k]), trace[k]);
    ChangedInThePast(c, start, trace, k);
    LimitReached(trace[k].now - After(c, start, trace[..k]).changed, c.openTimeout);
  }

  /** Forcing opens whatever is not open; an outcome recorded while the circuit is open, and an execution
      that begins while it is not, leave the circuit as it is. */
  lemma ForcingOpens(c: Config, start: int, trace: seq<Timed>, k: nat)
    requires k < |trace|
    ensures trace[k].event == ForceOpen ==> After(c, start, trace[..k + 1]).circuit == Open
    ensures trace[k].event.Record? && After(c, start, trace[..k]).circuit == Open ==> After(c, start, trace[..k + 1]).circuit == Open
    ensures trace[k].event == Admit && After(c, start, trace[..k]).circuit != Open ==>
              After(c, start, trace[..k + 1]) == After(c, start, trace[..k])
  {
    AfterOne(c, start, trace, k);
    NextCloses(c, After(c, start, trace[..k]), trace[k]);
  }

  lemma FailuresInARow(c: Config, start: int, trace: seq<Timed>)
    requires trace != [] && trace[|trace| - 1].event.Record?
    ensures var k := |trace| - 1;
            Trailing(Outcomes(trace[LastChange(c, start, trace, k)..]), false) ==
              if trace[k].event.success then 0 else After(c, start, trace[..k]).stats.consecutiveFailures + 1
  {
    hide Next, Trailing;
    var k := |trace| - 1;
    var j := LastChange(c, start, trace, k);
    RunsSinceTheLastChange(c, start, trace, k);
    OutcomesNext(trace, j, k);
    assert trace[j..] == trace[j..k + 1];
    TrailingNext(Outcomes(trace[j..k]), trace[k].event.success, false);
  }

  // What the statistics count

  /** How often the circuit changed to `to`, and when it last did. */
  function ChangesTo(c: Config, start: int, trace: seq<Timed>, k: nat, to: Circuit): nat
    requires k <= |trace|
  {
    if k == 0 then 0 else ChangesTo(c, start, trace, k - 1, to) + if Changes(c, start, trace, k - 1, to) then 1 else 0
  }

  function LastTime(c: Config, start: int, trace: seq<Timed>, k: nat, to: Circuit): int
    requires k <= |trace|
  {
    if k == 0 then 0
    else if Changes(c, start, trace, k - 1, to) then trace[k - 1].later
    else LastTime(c, start, trace, k - 1, to)
  }

  /** Executions that begin and are not let through. */
  function Rejections(c: Config, start: int, trace: seq<Timed>, k: nat): nat
    requires k <= |trace|
  {
    if k == 0 then 0
    else Rejections(c, start, trace, k - 1) + if trace[k - 1].event == Admit && !Admits(c, start, trace, k - 1) then 1 else 0
  }

  lemma NextStats(c: Config, s: State, e: Timed)
    ensures var t := Next(c, s, e.event, e.now, e.later);
            && t.stats.rejections == s.stats.rejections + (if e.event == Admit && t.circuit == Open then 1 else 0)
            && t.stats.openCount == s.stats.openCount + (if s.circuit != Open && t.circuit == Open then 1 else 0)
            && t.stats.halfOpenCount == s.stats.halfOpenCount + (if s.circuit != HalfOpen && t.circuit == HalfOpen then 1 else 0)
            && t.stats.closeCount == s.stats.closeCount + (if s.circuit != Closed && t.circuit == Closed then 1 else 0)
            && t.stats.lastOpenTime == (if s.circuit != Open && t.circuit == Open then e.later else s.stats.lastOpenTime)
            && t.stats.lastCloseTime == (if s.circuit != Closed && t.circuit == Closed then e.later else s.stats.lastCloseTime)
  {
    hide ShouldOpen, Milliseconds, RateOf, PushWindow;
  }

  /** The statistics count the rejections and the transitions of each kind, and hold the times of the last
      opening and closing. */
  lemma {:induction false} StatisticsCountTheHistory(c: Config, start: int, trace: seq<Timed>, k: nat)
    requires k <= |trace|
    ensures var stats := After(c, start, trace[..k]).stats;
            && stats.rejections == Rejections(c, start, trace, k)
            && stats.openCount == ChangesTo(c, start, trace, k, Open)
            && stats.halfOpenCount == ChangesTo(c, start, trace, k, HalfOpen)
            && stats.closeCount == ChangesTo(c, start, trace, k, Closed)
            && stats.lastOpenTime == LastTime(c, start, trace, k, Open)
            && stats.lastCloseTime == LastTime(c, start, trace, k, Closed)
  {
    hide Next;
    if k > 0 {
      StatisticsCountTheHistory(c, start, trace, k - 1);
      AfterOne(c, start, trace, k - 1);
      NextStats(c, After(c, start, trace[..k - 1]), trace[k - 1]);
    }
  }

  /** What the last outcomes say about opening, the latest included. */
  predicate WindowSaysOpen(c: Config, outcomes: seq<bool>) {
    var w := Latest(outcomes, c.windowSize);
    c.windowSize > 0 && |w| >= c.minimumRequests && RateOf(w) >= c.rateThreshold
  }

  lemma RecordedOpens(c: Config, s: State, success: bool, now: int)
    ensures var counted := Counted(c, s, success);
            Recorded(c, s, success, now).circuit == Open <==>
            || s.circuit == Open
            || (s.circuit == HalfOpen && !success)
            || (s.circuit == Closed && (!success || c.windowSize > 0) && ShouldOpen(c, counted))
  {
    hide ShouldOpen, RateOf, PushWindow;
  }

  /** A recorded outcome opens the circuit exactly when it is a failure of the half-open circuit; or when
      the circuit is closed and the share of failures among the latest outcomes says so, be the last one a
      success or not; or, without a rolling window, when it completes the run of failures. */
  lemma OutcomeOpensExactly(c: Config, start: int, trace: seq<Timed>)
    requires trace != [] && trace[|trace| - 1].event.Record?
    ensures var k := |trace| - 1;
            var before := After(c, start, trace[..k]);
            var success := trace[k].event.success;
            Opens(c, start, trace, k) <==>
            || (before.circuit == HalfOpen && !success)
            || (before.circuit == Closed && c.windowSize > 0 && WindowSaysOpen(c, Outcomes(trace)))
            || (before.circuit == Closed && c.windowSize == 0
                && Trailing(Outcomes(trace[LastChange(c, start, trace, k)..]), false) >= c.failureThreshold > 0)
            || (before.circuit == Closed && c.windowSize == 0 && c.failureThreshold == 0 && !success)
  {
    hide RateOf;
    FailuresInARow(c, start, trace);
    var k := |trace| - 1;
    var e, before := trace[k], After(c, start, trace[..k]);
    assert trace[..k + 1] == trace;
    AfterOne(c, start, trace, k);
    WindowHoldsLatestOutcomes(c, start, trace[..k]);
    LatestNext(c, Outcomes(trace[..k]), e.event.success);
    RecordedOpens(c, before, e.event.success, e.later);
  }

  /** In particular a success opens the circuit exactly when the circuit is closed, there is a rolling
      window, and the failures that it still holds are enough. */
  lemma SuccessOpensExactly(c: Config, start: int, trace: seq<Timed>)
    requires trace != [] && trace[|trace| - 1].event == Record(true)
    ensures Opens(c, start, trace, |trace| - 1) <==>
            After(c, start, trace[..|trace| - 1]).circuit == Closed && WindowSaysOpen(c, Outcomes(trace))
  {
    hide After, Opens, WindowSaysOpen;
    OutcomeOpensExactly(c, start, trace);
    WindowNeedsSize(c, Outcomes(trace));
  }

  lemma WindowNeedsSize(c: Config, outcomes: seq<bool>)
    ensures WindowSaysOpen(c, outcomes) ==> c.windowSize > 0
  {
  }

  // A circuit that opens when three in ten of the last four outcomes are failures.

  const SENSITIVE: Config := Config(5, 1, 0, 4, 0.3, 1)

  const AT_ONCE: seq<Timed> :=
    [Timed(Record(false), 0, 0), Timed(Admit, 0, 0), Timed(Record(true), 0, 0), Timed(Record(true), 0, 0)]

  lemma ExampleRates()
    ensures RateOf([false]) == 1.0 && RateOf([false, true]) == 0.5 && RateOf([false, true, true]) == 1.0 / 3.0
  {
    assert [false][..0] == [] && [false, true][..1] == [false] && [false, true, true][..2] == [false, true];
  }

  const RECOVERED: State := State(Closed, 0, [false, true], Stats(1, 1, 0, 1, 1, 1, 0, 0, 0.5, 0, 0))

  lemma FirstFailure()
    ensures After(SENSITIVE, 0, AT_ONCE[..1]) == State(Open, 0, [false], Stats(0, 1, 0, 1, 0, 0, 0, 0, 1.0, 0, 0))
  {
    ExampleRates();
    hide RateOf;
    AfterOne(SENSITIVE, 0, AT_ONCE, 0);
    assert AT_ONCE[..0] == [] && [] + [false] == [false];
  }

  lemma FirstRecovery()
    ensures After(SENSITIVE, 0, AT_ONCE[..3]) == RECOVERED
  {
    FirstFailure();
    AfterOne(SENSITIVE, 0, AT_ONCE, 1);
    AfterOne(SENSITIVE, 0, AT_ONCE, 2);
    ExampleRates();
    hide RateOf, After;
    assert After(SENSITIVE, 0, AT_ONCE[..2]) == State(HalfOpen, 0, [false], Stats(0, 1, 0, 1, 1, 0, 0, 0, 1.0, 0, 0));
  }

  lemma SecondSuccess()
    ensures Next(SENSITIVE, RECOVERED, Record(true), 0, 0).circuit == Open
  {
    ExampleRates();
    hide RateOf;
    assert [false, true] + [true] == [false, true, true];
  }

  /** The window outlives the transitions: here a circuit that a failure opened and a success closed is
      opened again by another success. */
  lemma SuccessMayReopen()
    ensures ValidConfig(SENSITIVE) && Monotone(0, AT_ONCE) && AT_ONCE[3].event == Record(true)
    ensures After(SENSITIVE, 0, AT_ONCE[..3]).circuit == Closed && After(SENSITIVE, 0, AT_ONCE[..4]).circuit == Open
  {
    hide Next, After;
    FirstRecovery();
    AfterOne(SENSITIVE, 0, AT_ONCE, 3);
    SecondSuccess();
  }
}
