/** The circuit breaker (workspace/src/framework/impl/ipc/circuit_breaker.cpp:134-410).

    Operations overlap: an execution is an admission under the lock and, later or never, a completion
    under the lock.  Clock readings are nanoseconds and never decrease; failure rates are exact. */
module CircuitBreakers {
  import opened Clocks
  import W = Wrappers

  datatype Circuit = Closed | Open | HalfOpen

  /** How an operation may end. */
  datatype Outcome = Succeeds | Fails | Throws

  datatype Config = Config(
    failureThreshold: nat, successThreshold: nat, openTimeout: nat,
    windowSize: nat, rateThreshold: real, minimumRequests: nat)

  /** What validateConfig accepts. */
  predicate ValidConfig(c: Config) {
    c.failureThreshold > 0 && c.successThreshold > 0 && 0.0 <= c.rateThreshold <= 1.0
  }

  datatype Stats = Stats(
    successes: nat, failures: nat, rejections: nat,
    openCount: nat, halfOpenCount: nat, closeCount: nat,
    consecutiveFailures: nat, consecutiveSuccesses: nat, rate: real,
    lastOpenTime: int, lastCloseTime: int)

  const NO_STATS: Stats := Stats(0, 0, 0, 0, 0, 0, 0, 0, 0.0, 0, 0)

  /** `window` holds the latest outcomes, oldest first; `changed` is the time of the last transition. */
  datatype State = State(circuit: Circuit, changed: int, window: seq<bool>, stats: Stats)

  /** A completion records an outcome; so do recordSuccess and recordFailure. */
  datatype Event = Admit | Record(success: bool) | ForceOpen

  function FailuresIn(window: seq<bool>): nat {
    if window == [] then 0 else FailuresIn(window[..|window| - 1]) + if window[|window| - 1] then 0 else 1
  }

  function RateOf(window: seq<bool>): real {
    if window == [] then 0.0 else FailuresIn(window) as real / |window| as real
  }

  function PushWindow(c: Config, window: seq<bool>, success: bool): seq<bool> {
    var longer := window + [success];
    if |longer| > c.windowSize then longer[1..] else longer
  }

  predicate ShouldOpen(c: Config, s: State) {
    if c.windowSize > 0 then |s.window| >= c.minimumRequests && s.stats.rate >= c.rateThreshold
    else s.stats.consecutiveFailures >= c.failureThreshold
  }

  /** The time is read again inside each transition. */
  function TransitionTo(s: State, to: Circuit, now: int): State {
    if s.circuit == to then s
    else
      var stats := s.stats.(consecutiveFailures := 0, consecutiveSuccesses := 0);
      s.(circuit := to, changed := now,
         stats := match to
                  case Open => stats.(openCount := stats.openCount + 1, lastOpenTime := now)
                  case HalfOpen => stats.(halfOpenCount := stats.halfOpenCount + 1)
                  case Closed => stats.(closeCount := stats.closeCount + 1, lastCloseTime := now))
  }

  predicate OpenLongEnough(c: Config, s: State, now: int) {
    Milliseconds(now - s.changed) >= c.openTimeout
  }

  /** An execution begins at `now`; `later` is the clock if a transition reads it. */
  function Admitted(c: Config, s: State, now: int, later: int): State {
    var s1 := if s.circuit == Open && OpenLongEnough(c, s, now) then TransitionTo(s, HalfOpen, later) else s;
    if s1.circuit == Open then s1.(stats := s1.stats.(rejections := s1.stats.rejections + 1)) else s1
  }

  function Counted(c: Config, s: State, success: bool): State {
    var stats := if success
                 then s.stats.(successes := s.stats.successes + 1, consecutiveSuccesses := s.stats.consecutiveSuccesses + 1, consecutiveFailures := 0)
                 else s.stats.(failures := s.stats.failures + 1, consecutiveFailures := s.stats.consecutiveFailures + 1, consecutiveSuccesses := 0);
    if c.windowSize > 0 then
      var window := PushWindow(c, s.window, success);
      s.(window := window, stats := stats.(rate := RateOf(window)))
    else
      s.(stats := stats)
  }

  function Recorded(c: Config, s: State, success: bool, now: int): State {
    var s1 := Counted(c, s, success);
    match s1.circuit
    case Closed => if (!success || c.windowSize > 0) && ShouldOpen(c, s1) then TransitionTo(s1, Open, now) else s1
    case HalfOpen =>
      if !success then TransitionTo(s1, Open, now)
      else if s1.stats.consecutiveSuccesses >= c.successThreshold then TransitionTo(s1, Closed, now)
      else s1
    case Open => s1
  }

  /** One event, with the clock read at `now` and, in a transition, at `later`. */
  function Next(c: Config, s: State, event: Event, now: int, later: int): State {
    match event
    case Admit => Admitted(c, s, now, later)
    case Record(success) => Recorded(c, s, success, later)
    case ForceOpen => TransitionTo(s, Open, later)
  }

  function Start(now: int): State {
    State(Closed, now, [], NO_STATS)
  }

  /** What the constructor throws for. */
  datatype ConfigError = NoFailureThreshold | NoSuccessThreshold | RateOutOfRange

  /** The first thing that is wrong with a configuration. */
  method ValidateConfig(c: Config) returns (r: W.Outcome<ConfigError>)
    ensures c.failureThreshold == 0 ==> r == W.Fail(NoFailureThreshold)
    ensures c.failureThreshold > 0 && c.successThreshold == 0 ==> r == W.Fail(NoSuccessThreshold)
    ensures c.failureThreshold > 0 && c.successThreshold > 0 && (c.rateThreshold < 0.0 || c.rateThreshold > 1.0) ==>
              r == W.Fail(RateOutOfRange)
    ensures c.failureThreshold > 0 && c.successThreshold > 0 && 0.0 <= c.rateThreshold <= 1.0 ==> r == W.Pass
    ensures r.Pass? <==> ValidConfig(c)
  {
    if c.failureThreshold == 0 {
      return W.Fail(NoFailureThreshold);
    }
    if c.successThreshold == 0 {
      return W.Fail(NoSuccessThreshold);
    }
    if c.rateThreshold < 0.0 || c.rateThreshold > 1.0 {
      return W.Fail(RateOutOfRange);
    }
    return W.Pass;
  }

  // ---------------------------------------------------------------------------------------------
  // The object
  // ---------------------------------------------------------------------------------------------

  class CircuitBreaker {
    const config: Config
    var circuit: Circuit
    var changed: int
    var window: seq<bool>
    var stats: Stats

    function Current(): State
      reads this
    {
      State(circuit, changed, window, stats)
    }

    constructor (config: Config, now: int)
      requires ValidConfig(config)
      ensures this.config == config && Current() == Start(now)
    {
      this.config := config;
      circuit, changed, window, stats := Closed, now, [], NO_STATS;
    }

    method Transition(to: Circuit, now: int)
      modifies this
      ensures Current() == TransitionTo(old(Current()), to, now)
    {
      if circuit == to {
        return;
      }
      circuit, changed := to, now;
      stats := stats.(consecutiveFailures := 0, consecutiveSuccesses := 0);
      match to {
        case Open => stats := stats.(openCount := stats.openCount + 1, lastOpenTime := now);
        case HalfOpen => stats := stats.(halfOpenCount := stats.halfOpenCount + 1);
        case Closed => stats := stats.(closeCount := stats.closeCount + 1, lastCloseTime := now);
      }
    }

    /** The first half of an execution: false means rejected. */
    method Enter(now: int, later: int) returns (admitted: bool)
      modifies this
      ensures Current() == Next(config, old(Current()), Admit, now, later)
      ensures admitted <==> circuit != Open
      ensures admitted <==> old(circuit) != Open || OpenLongEnough(config, old(Current()), now)
    {
      if circuit == Open && Milliseconds(now - changed) >= config.openTimeout {
        Transition(HalfOpen, later);
      }
      if circuit == Open {
        stats := stats.(rejections := stats.rejections + 1);
        return false;
      }
      return true;
    }

    method FailureRate() returns (rate: real)
      ensures rate == RateOf(window)
    {
      if window == [] {
        return 0.0;
      }
      var failures := 0;
      var i := 0;
      while i < |window|
        invariant 0 <= i <= |window| && failures == FailuresIn(window[..i])
      {
        assert window[..i + 1][..i] == window[..i];
        if !window[i] {
          failures := failures + 1;
        }
        i := i + 1;
      }
      assert window[..i] == window;
      rate := failures as real / |window| as real;
    }

    method PushOutcome(success: bool)
      modifies this
      ensures Current() == if config.windowSize > 0
                           then var w := PushWindow(config, old(window), success); old(Current()).(window := w, stats := old(stats).(rate := RateOf(w)))
                           else old(Current())
    {
      if config.windowSize > 0 {
        window := window + [success];
        if |window| > config.windowSize {
          window := window[1..];
        }
        var rate := FailureRate();
        stats := stats.(rate := rate);
      }
    }

    method ShouldOpenCircuit() returns (should: bool)
      ensures should <==> ShouldOpen(config, Current())
    {
      if config.windowSize > 0 {
        if |window| < config.minimumRequests {
          return false;
        }
        return stats.rate >= config.rateThreshold;
      }
      return stats.consecutiveFailures >= config.failureThreshold;
    }

    method HandleSuccess(now: int)
      modifies this
      ensures Current() == Recorded(config, old(Current()), true, now)
    {
      stats := stats.(successes := stats.successes + 1, consecutiveSuccesses := stats.consecutiveSuccesses + 1, consecutiveFailures := 0);
      PushOutcome(true);
      match circuit {
        case Closed =>
          if config.windowSize > 0 {
            var should := ShouldOpenCircuit();
            if should {
              Transition(Open, now);
            }
          }
        case HalfOpen =>
          if stats.consecutiveSuccesses >= config.successThreshold {
            Transition(Closed, now);
          }
        case Open =>
      }
    }

    method HandleFailure(now: int)
      modifies this
      ensures Current() == Recorded(config, old(Current()), false, now)
    {
      stats := stats.(failures := stats.failures + 1, consecutiveFailures := stats.consecutiveFailures + 1, consecutiveSuccesses := 0);
      PushOutcome(false);
      match circuit {
        case Closed =>
          var should := ShouldOpenCircuit();
          if should {
            Transition(Open, now);
          }
        case HalfOpen => Transition(Open, now);
        case Open =>
      }
    }

    /** One execution with nothing between its halves.  `outcome` is what the operation would return; it
        may also throw, and then is recorded as a failure only if exceptions are caught. */
    method Execute(outcome: Outcome, catchExceptions: bool, now: int, later: int, end: int) returns (ran: bool, success: bool)
      modifies this
      ensures var entered := Next(config, old(Current()), Admit, now, later);
              && ran == (entered.circuit != Open)
              && success == (ran && outcome == Succeeds)
              && Current() == if ran && (outcome != Throws || catchExceptions) then Next(config, entered, Record(success), end, end)
                              else entered
    {
      success := false;
      ran := Enter(now, later);
      if ran && (outcome != Throws || catchExceptions) {
        success := outcome == Succeeds;
        if success {
          HandleSuccess(end);
        } else {
          HandleFailure(end);
        }
      }
    }

    method ForceOpenCircuit(now: int)
      modifies this
      ensures forall before :: Current() == Next(config, old(Current()), ForceOpen, before, now)
    {
      if circuit != Open {
        Transition(Open, now);
      }
    }
  }
}
