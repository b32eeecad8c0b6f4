/** Acquiring a connection before a deadline (workspace/src/framework/impl/ipc/connection_pool.cpp:209-281).

    One round of the loop tries, and if it must then waits on the condition variable, which gives the
    lock away.  What the clock shows, whether the pool is stopping, and what other threads have made of
    the pool whenever this one holds the lock again are parameters. */
module PoolWaits {
  import opened Wrappers
  import opened ConnectionPools

  /** The waiting thread holds the lock again: notified, woken for no reason, or because the deadline passed. */
  datatype Wake = Wake(now: int, timedOut: bool, stopping: bool, left: Pool)

  /** `running` is read before the try, `now` and `stopping` after it; `stopped` after the wait.  What comes
      behind a try counts only if the round gets there. */
  datatype Round = Round(
    running: bool, check: Transport -> Check, draw: nat, made: Option<Transport>, tried: int,
    now: int, stopping: bool, wakes: seq<Wake>, stopped: bool)

  // ---------------------------------------------------------------------------------------------
  // The wait
  // ---------------------------------------------------------------------------------------------

  /** wait_until goes on while its predicate, should_stop_, is false and the deadline has not passed. */
  predicate Ends(wake: Wake) {
    wake.stopping || wake.timedOut
  }

  predicate Over(wakes: seq<Wake>) {
    exists i :: 0 <= i < |wakes| && Ends(wakes[i])
  }

  /** The wake that ends a wait. */
  function Final(wakes: seq<Wake>): (wake: Wake)
    requires Over(wakes)
    ensures Ends(wake) && wake in wakes
  {
    if Ends(wakes[0]) then wakes[0] else Final(wakes[1..])
  }

  /** However often the thread was woken before, and whatever the pool held then, the wait goes on. */
  lemma {:induction false} WakesInBetweenChangeNothing(quiet: seq<Wake>, wakes: seq<Wake>)
    requires Over(wakes) && forall i :: 0 <= i < |quiet| ==> !Ends(quiet[i])
    ensures Over(quiet + wakes) && Final(quiet + wakes) == Final(wakes)
  {
    if quiet == [] {
      assert quiet + wakes == wakes;
    } else {
      WakesInBetweenChangeNothing(quiet[1..], wakes);
      var all := quiet + wakes;
      assert all[1..] == quiet[1..] + wakes && all[0] == quiet[0];
      var i :| 0 <= i < |all[1..]| && Ends(all[1..][i]);
      assert Ends(all[i + 1]);
    }
  }

  /** The wait of a round ends, and not by time before the deadline. */
  predicate Timely(round: Round, deadline: int) {
    && Over(round.wakes)
    && (forall i :: 0 <= i < |round.wakes| && round.wakes[i].timedOut ==> round.wakes[i].now >= deadline)
  }

  /** What the wait leaves of the pool. */
  function Found(round: Round, pool: Pool): Pool
    requires Over(round.wakes)
  {
    if round.stopping then pool else Final(round.wakes).left
  }

  /** The clock does not run backwards, and a stop once seen in a wait is still seen behind it. */
  predicate Consistent(first: Round, second: Round, deadline: int) {
    && Timely(first, deadline)
    && (first.stopping || Final(first.wakes).stopping ==> first.stopped)
    && Final(first.wakes).now <= second.tried <= second.now
  }

  // ---------------------------------------------------------------------------------------------
  // The outcome
  // ---------------------------------------------------------------------------------------------

  /** There is a connection to be had: an available one, or room for one that the factory makes. */
  ghost predicate ToBeHad(config: Config, pool: Pool, round: Round) {
    || (exists k: nat :: k < |pool.connections| && Available(config, pool.connections[k], round.check))
    || (|pool.connections| < config.maxPoolSize && round.made.Some?)
  }

  function TimedOut(pool: Pool): Pool {
    pool.(stats := pool.stats.(timeouts := pool.stats.timeouts + 1))
  }

  /** What becomes of the pool and of the caller; `tries` are the times of its tries. */
  ghost predicate Acquires(config: Config, waits: bool, deadline: int, pool: Pool, pool': Pool, first: Round, second: Round,
                           result: Option<Transport>, tries: seq<int>)
    requires Over(first.wakes)
  {
    if !first.running then
      pool' == pool && result == None && tries == []
    else
      exists p: Pool, t: Option<Transport> :: Tries(config, pool, p, first.check, first.made, first.tried, t) &&
        if t.Some? then
          pool' == p && result == t && tries == [first.tried]
        else if !waits || first.now >= deadline then
          pool' == TimedOut(p) && result == None && tries == [first.tried]
        else if first.stopped || !second.running then
          pool' == Found(first, p) && result == None && tries == [first.tried]
        else
          && tries == [first.tried, second.tried]
          && exists q: Pool :: Tries(config, Found(first, p), q, second.check, second.made, second.tried, result) &&
               pool' == if result.Some? then q else TimedOut(q)
  }

  /** Some connection comes first among the available ones before `i`. */
  lemma {:induction false} BestExists(config: Config, pool: Pool, check: Transport -> Check, i: nat) returns (best: Option<nat>)
    requires i <= |pool.connections|
    ensures BestSoFar(config, pool, check, i, best)
  {
    hide Turn, Usable;
    if i == 0 {
      best := None;
    } else {
      best := BestExists(config, pool, check, i - 1);
      if Available(config, pool.connections[i - 1], check) && (best.None? || !Precedes(config, pool, best.value, i - 1)) {
        best := Some(i - 1);
      }
    }
  }

  /** A try succeeds exactly when there is a connection to be had. */
  lemma TrySucceedsExactly(config: Config, pool: Pool, pool': Pool, round: Round, t: Option<Transport>)
    requires Tries(config, pool, pool', round.check, round.made, round.tried, t)
    ensures t.Some? <==> ToBeHad(config, pool, round)
  {
    hide Precedes, TestedFailures, Usable;
    var best := BestExists(config, pool, round.check, |pool.connections|);
    if best.Some? {
      assert Selectable(config, pool, round.check, best.value);
    }
  }

  /** A caller that finds no connection and waits makes one more try, not before its deadline, and gets a
      connection exactly when one is to be had then: nothing that was released and taken again in between
      matters. */
  lemma AcquireSucceedsExactly(config: Config, waits: bool, deadline: int, pool: Pool, pool': Pool, first: Round, second: Round,
                               result: Option<Transport>, tries: seq<int>)
    requires Consistent(first, second, deadline)
    requires Acquires(config, waits, deadline, pool, pool', first, second, result, tries)
    ensures var again := !ToBeHad(config, pool, first) && waits && first.now < deadline && !first.stopped && second.running;
            && |tries| == (if !first.running then 0 else if again then 2 else 1)
            && (|tries| == 2 ==> tries[1] >= deadline)
            && (result.Some? <==>
                first.running && (ToBeHad(config, pool, first) || (again && ToBeHad(config, Final(first.wakes).left, second))))
  {
    hide Tries, ToBeHad;
    forall p: Pool, t: Option<Transport> | Tries(config, pool, p, first.check, first.made, first.tried, t)
      ensures t.Some? <==> ToBeHad(config, pool, first)
    {
      TrySucceedsExactly(config, pool, p, first, t);
    }
    forall q: Pool | Tries(config, Final(first.wakes).left, q, second.check, second.made, second.tried, result)
      ensures result.Some? <==> ToBeHad(config, Final(first.wakes).left, second)
    {
      TrySucceedsExactly(config, Final(first.wakes).left, q, second, result);
    }
  }

  lemma TryCounts(config: Config, pool: Pool, pool': Pool, round: Round, t: Option<Transport>)
    requires Tries(config, pool, pool', round.check, round.made, round.tried, t)
    ensures pool'.stats.timeouts == pool.stats.timeouts
    ensures pool'.stats.acquisitions == pool.stats.acquisitions + if t.Some? then 1 else 0
    ensures t.None? ==> pool'.connections == pool.connections
  {
    hide Selectable, TestedFailures;
  }

  /** What an acquisition counts, and where: nothing when the pool is not running or stops; the acquisition in
      the pool of the try that succeeds; otherwise one timeout, in the pool as the caller finds it last. */
  lemma AcquireCounts(config: Config, waits: bool, deadline: int, pool: Pool, pool': Pool, first: Round, second: Round,
                      result: Option<Transport>, tries: seq<int>)
    requires Consistent(first, second, deadline)
    requires Acquires(config, waits, deadline, pool, pool', first, second, result, tries)
    ensures var left, stats := Final(first.wakes).left, pool'.stats;
            if !first.running then pool' == pool && tries == []
            else if ToBeHad(config, pool, first) then
              stats.acquisitions == pool.stats.acquisitions + 1 && stats.timeouts == pool.stats.timeouts && tries == [first.tried]
            else if !waits || first.now >= deadline then
              && stats.acquisitions == pool.stats.acquisitions && stats.timeouts == pool.stats.timeouts + 1
              && pool'.connections == pool.connections && tries == [first.tried]
            else if first.stopping then
              && stats.acquisitions == pool.stats.acquisitions && stats.timeouts == pool.stats.timeouts
              && pool'.connections == pool.connections && tries == [first.tried]
            else if first.stopped || !second.running then pool' == left && tries == [first.tried]
            else if ToBeHad(config, left, second) then
              stats.acquisitions == left.stats.acquisitions + 1 && stats.timeouts == left.stats.timeouts && tries == [first.tried, second.tried]
            else
              && stats.acquisitions == left.stats.acquisitions && stats.timeouts == left.stats.timeouts + 1
              && pool'.connections == left.connections && tries == [first.tried, second.tried]
  {
    hide Tries, ToBeHad;
    forall p: Pool, t: Option<Transport> | Tries(config, pool, p, first.check, first.made, first.tried, t)
      ensures t.Some? <==> ToBeHad(config, pool, first)
      ensures p.stats.timeouts == pool.stats.timeouts && p.stats.acquisitions == pool.stats.acquisitions + if t.Some? then 1 else 0
      ensures t.None? ==> p.connections == pool.connections
    {
      TrySucceedsExactly(config, pool, p, first, t);
      TryCounts(config, pool, p, first, t);
    }
    var left := Final(first.wakes).left;
    forall q: Pool | Tries(config, left, q, second.check, second.made, second.tried, result)
      ensures result.Some? <==> ToBeHad(config, left, second)
      ensures q.stats.timeouts == left.stats.timeouts && q.stats.acquisitions == left.stats.acquisitions + if result.Some? then 1 else 0
      ensures result.None? ==> q.connections == left.connections
    {
      TrySucceedsExactly(config, left, q, second, result);
      TryCounts(config, left, q, second, result);
    }
  }

  /** A pool of one connection, in use until `released`, when its caller gives it back. */
  function Single(released: bool): Pool {
    EMPTY.(connections := [Connection(7, 0, 0, 1, !released)])
  }

  /** In a pool of one, the connection is given back and the waiting caller notified in time, at 5; before
      its deadline, 10, somebody else takes the connection, and the caller leaves with nothing. */
  lemma ReleaseInTimeIsMissed(config: Config, pool': Pool, result: Option<Transport>, tries: seq<int>)
    requires config.maxPoolSize == 1
    ensures var tests: Transport -> Check := _ => Healthy;
            var wakes := [Wake(5, false, false, Single(true)), Wake(10, true, false, Single(false))];
            var first := Round(true, tests, 0, None, 0, 0, false, wakes, false);
            var second := Round(true, tests, 0, None, 10, 10, false, wakes, false);
            && ToBeHad(config, wakes[0].left, first)
            && Consistent(first, second, 10)
            && (Acquires(config, true, 10, Single(false), pool', first, second, result, tries) ==> result == None)
  {
    var tests: Transport -> Check := _ => Healthy;
    var wakes := [Wake(5, false, false, Single(true)), Wake(10, true, false, Single(false))];
    var first := Round(true, tests, 0, None, 0, 0, false, wakes, false);
    var second := Round(true, tests, 0, None, 10, 10, false, wakes, false);
    assert Available(config, Single(true).connections[0], tests);
    assert Ends(wakes[1]) && wakes[1..] == [wakes[1]];
    assert Final(wakes) == wakes[1];
    if Acquires(config, true, 10, Single(false), pool', first, second, result, tries) {
      AcquireSucceedsExactly(config, true, 10, Single(false), pool', first, second, result, tries);
    }
  }

  // ---------------------------------------------------------------------------------------------
  // The methods
  // ---------------------------------------------------------------------------------------------

  /** Waits; true if it ended because the pool is stopping. */
  method WaitUntil(state: EndpointPool, round: Round) returns (stopping: bool)
    requires Over(round.wakes)
    modifies state
    ensures stopping == (round.stopping || Final(round.wakes).stopping)
    ensures state.Current() == Found(round, old(state.Current()))
  {
    if round.stopping {
      return true;
    }
    var wakes := round.wakes;
    while true
      invariant Over(wakes) && Final(wakes) == Final(round.wakes)
      decreases |wakes|
    {
      var wake := wakes[0];
      state.connections, state.nextIndex, state.stats := wake.left.connections, wake.left.nextIndex, wake.left.stats;
      if wake.stopping || wake.timedOut {
        return wake.stopping;
      }
      wakes := wakes[1..];
    }
  }

  /** The loop of acquire.  It never comes to a third round. */
  method Acquire(state: EndpointPool, waits: bool, deadline: int, first: Round, second: Round)
    returns (transport: Option<Transport>, tries: seq<int>)
    requires Consistent(first, second, deadline)
    modifies state
    ensures Acquires(state.config, waits, deadline, old(state.Current()), state.Current(), first, second, transport, tries)
  {
    hide Tries;
    transport, tries := None, [];
    var round, i := first, 0;
    ghost var before := state.Current();
    ghost var p := before;
    while round.running && transport.None?
      invariant i <= 1
      invariant transport.Some? ==>
        Acquires(state.config, waits, deadline, before, state.Current(), first, second, transport, tries)
      invariant i == 0 && transport.None? ==> round == first && tries == [] && state.Current() == before
      invariant i == 1 && transport.None? ==>
        && round == second && tries == [first.tried] && state.Current() == Found(first, p)
        && first.running && Tries(state.config, before, p, first.check, first.made, first.tried, None)
        && waits && first.now < deadline && !first.stopped
      decreases if transport.None? then 2 - i else 0
    {
      transport := state.TryAcquire(round.check, round.draw, round.made, round.tried);
      tries := tries + [round.tried];
      if transport.None? {
        if !waits {
          state.CountTimeout();
          break;
        }
        if round.now >= deadline {
          state.CountTimeout();
          break;
        }
        p := state.Current();
        var _ := WaitUntil(state, round);
        if round.stopped {
          break;
        }
        round, i := second, i + 1;
      }
    }
  }
}
