/** What a pool can always be brought to, and its peak
    (workspace/src/framework/impl/ipc/connection_pool.cpp:48-92, 209-293, 400-504, 671-675). */
module PoolCompletion {
  import opened Wrappers
  import opened Clocks
  import opened ConnectionPools
  import opened PoolRuns
  import opened PoolWaits
  import opened PoolLaws

  function Last(run: seq<State>): State
    requires run != []
  {
    run[|run| - 1]
  }

  ghost predicate Continues(config: Config, run: seq<State>, run': seq<State>) {
    IsRun(config, run') && run <= run'
  }

  /** One more step of a run. */
  lemma Extend(config: Config, run: seq<State>, t: State, step: Step)
    requires IsRun(config, run) && NextStep(config, Last(run), t, step)
    ensures Continues(config, run, run + [t]) && Last(run + [t]) == t
  {
    hide NextStep;
    var run' := run + [t];
    assert Next(config, Last(run), t) by {
      assert NextStep(config, Last(run), t, step);
    }
    forall k: nat | k + 1 < |run'|
      ensures Next(config, run'[k], run'[k + 1])
    {
      if k + 1 < |run| {
        assert run'[k] == run[k] && run'[k + 1] == run[k + 1];
      }
    }
  }

  // ---------------------------------------------------------------------------------------------
  // Filling
  // ---------------------------------------------------------------------------------------------

  /** A number above all transports in a pool. */
  function AboveAll(conns: seq<Connection>): (t: Transport)
    ensures forall k :: 0 <= k < |conns| ==> conns[k].transport < t
  {
    if conns == [] then 0
    else
      var rest, first := AboveAll(conns[1..]), conns[0].transport;
      if first < rest then rest else first + 1
  }

  function AboveHeld(handles: seq<Handle>): (t: Transport)
    ensures forall i :: 0 <= i < |handles| && handles[i].transport.Some? ==> handles[i].transport.value < t
  {
    if handles == [] then 0
    else
      var rest, first := AboveHeld(handles[1..]), handles[0].transport;
      if first.None? || first.value < rest then rest else first.value + 1
  }

  /** New transports never run out. */
  lemma NewTransports(s: State, n: nat) returns (batch: seq<Option<Transport>>)
    ensures |batch| == n && AllNew(s, batch) && forall m :: m in batch ==> m.Some?
  {
    var above := AboveAll(s.pool.connections) + AboveHeld(s.handles);
    batch := seq(n, i requires 0 <= i < n => Some(above + i));
  }

  /** A pool can be filled up from anywhere in a run, with idle connections. */
  lemma PoolsCanBeFilled(config: Config, run: seq<State>, now: int) returns (run': seq<State>)
    requires IsRun(config, run)
    ensures Continues(config, run, run')
    ensures var s, t := Last(run), Last(run');
            && |t.pool.connections| == config.maxPoolSize && s.pool.connections <= t.pool.connections
            && t.handles == s.handles && t.returned == s.returned
            && forall k :: |s.pool.connections| <= k < |t.pool.connections| ==> !t.pool.connections[k].inUse
  {
    hide NextStep, AllNew, IsRun;
    CountersDescribeLast(config, run);
    var s := Last(run);
    var missing := config.maxPoolSize - |s.pool.connections|;
    var batch := NewTransports(s, missing);
    var t := s.(pool := AllPopulated(config, s.pool, batch, now));
    PrepopulationAdds(config, s.pool, batch, now);
    Populates(config, s, t, batch, now);
    Extend(config, run, t, Prepopulate(batch, now));
    run' := run + [t];
  }

  lemma Populates(config: Config, s: State, t: State, batch: seq<Option<Transport>>, now: int)
    requires AllNew(s, batch) && t == s.(pool := AllPopulated(config, s.pool, batch, now))
    ensures NextStep(config, s, t, Prepopulate(batch, now))
  {
  }

  lemma CountersDescribeLast(config: Config, run: seq<State>)
    requires IsRun(config, run)
    ensures run != [] && |Last(run).pool.connections| <= config.maxPoolSize && Inv(config, Last(run))
  {
    hide Next, Inv;
    RunKeepsInv(config, run, |run| - 1);
    CountersDescribeThePool(config, run, |run| - 1);
  }

  // ---------------------------------------------------------------------------------------------
  // Acquiring and giving back
  // ---------------------------------------------------------------------------------------------

  /** Every try has an outcome. */
  lemma TriesEnd(config: Config, pool: Pool, check: Transport -> Check, made: Option<Transport>, now: int)
    returns (pool': Pool, result: Option<Transport>)
    ensures Tries(config, pool, pool', check, made, now, result)
  {
    hide Precedes;
    var tested := WithFailures(pool, TestedFailures(config, pool, check, None));
    pool', result := tested, None;
    if k: nat :| Selectable(config, pool, check, k) {
      result := Some(pool.connections[k].transport);
      pool' := Acquired(Taken(config, WithFailures(pool, TestedFailures(config, pool, check, Some(k))), k, now));
    } else if |pool.connections| < config.maxPoolSize && made.Some? {
      pool', result := Acquired(Created(tested, made.value, now)), made;
    }
  }

  /** A connection can be acquired from anywhere in a run in which one is free or the pool is below its
      limit: there is one more handle then, and nobody shares what it holds. */
  lemma HandlesCanBeHad(config: Config, run: seq<State>, check: Transport -> Check, now: int) returns (run': seq<State>)
    requires IsRun(config, run)
    requires || |Last(run).pool.connections| < config.maxPoolSize
             || exists j: nat :: j < |Last(run).pool.connections| && Free(config, Last(run).pool.connections[j], check)
    ensures Continues(config, run, run')
    ensures var s, t := Last(run), Last(run'); var n := |s.handles|;
            && |t.handles| == n + 1 && t.handles[..n] == s.handles && t.returned == s.returned
            && t.handles[n].Live() && t.handles[n].ticket == s.pool.stats.acquisitions
            && !Held(s.handles, t.handles[n].transport.value)
            && ((exists j: nat :: j < |s.pool.connections| && Free(config, s.pool.connections[j], check)) ==>
                  |t.pool.connections| == |s.pool.connections|)
  {
    hide NextStep, IsRun, Tries, Inv, Free, AllNew;
    CountersDescribeLast(config, run);
    var s := Last(run);
    var batch := NewTransports(s, 1);
    assert batch == [batch[0]];
    var pool', result := TriesEnd(config, s.pool, check, batch[0], now);
    if j: nat :| j < |s.pool.connections| && Free(config, s.pool.connections[j], check) {
      TryTakesWhatIsFree(config, s.pool, pool', check, batch[0], now, result, j);
    } else {
      TryMakesWhatIsMissing(config, s.pool, pool', check, batch[0], now, result);
    }
    var h := Handle(result, false, s.pool.stats.acquisitions);
    var t := State(pool', s.handles + [h], s.returned);
    Acquires(config, s, t, check, batch[0], now, result);
    Extend(config, run, t, Acquire(check, batch[0], now, result));
    run' := run + [t];
    CountersDescribeLast(config, run');
    LastHandleIsAlone(config, t);
  }

  lemma Acquires(config: Config, s: State, t: State, check: Transport -> Check, made: Option<Transport>, now: int, result: Option<Transport>)
    requires AllNew(s, [made]) && Tries(config, s.pool, t.pool, check, made, now, result) && result.Some?
    requires t.handles == s.handles + [Handle(result, false, s.pool.stats.acquisitions)] && t.returned == s.returned
    ensures NextStep(config, s, t, Acquire(check, made, now, result))
  {
    hide Tries;
    assert [made][0] == made;
  }

  lemma LastHandleIsAlone(config: Config, s: State)
    requires Inv(config, s) && s.handles != [] && s.handles[|s.handles| - 1].Live()
    ensures !Held(s.handles[..|s.handles| - 1], s.handles[|s.handles| - 1].transport.value)
  {
    var n := |s.handles| - 1;
    var t := s.handles[n].transport.value;
    if Held(s.handles[..n], t) {
      var i: nat :| Holds(s.handles[..n], i, t);
      assert Holds(s.handles, i, t) && Holds(s.handles, n, t);
    }
  }

  /** What a live handle holds can be given back: its acquisition is over and nobody uses the connection,
      which is in the pool still if it was there and is kept. */
  lemma HandlesCanBeGivenBack(config: Config, run: seq<State>, i: nat, check: Check, now: int) returns (run': seq<State>)
    requires IsRun(config, run) && i < |Last(run).handles| && Last(run).handles[i].Live()
    ensures Continues(config, run, run')
    ensures var s, t := Last(run), Last(run'); var transport := s.handles[i].transport.value;
            && t.handles == s.handles[i := s.handles[i].(released := true)] && t.returned == s.returned + [s.handles[i].ticket]
            && !Held(t.handles, transport)
            && (forall k :: 0 <= k < |t.pool.connections| && t.pool.connections[k].transport == transport ==> !t.pool.connections[k].inUse)
            && (Has(t.pool.connections, transport) <==> Has(s.pool.connections, transport) && Kept(config, check))
  {
    hide NextStep, IsRun, Kept;
    CountersDescribeLast(config, run);
    var s := Last(run);
    var transport := s.handles[i].transport.value;
    var t := State(Released(config, s.pool, transport, check, now), s.handles[i := s.handles[i].(released := true)],
                   s.returned + [s.handles[i].ticket]);
    GivesBack(config, s, t, i, check, now);
    Extend(config, run, t, Release(i, check, now));
    run' := run + [t];
    CountersDescribeLast(config, run');
    HeldAfterRelease(s.handles, i, transport);
    StaysIfKept(config, s.pool, transport, check, now);
  }

  lemma GivesBack(config: Config, s: State, t: State, i: nat, check: Check, now: int)
    requires i < |s.handles| && s.handles[i].Live()
    requires t == State(Released(config, s.pool, s.handles[i].transport.value, check, now),
                        s.handles[i := s.handles[i].(released := true)], s.returned + [s.handles[i].ticket])
    ensures NextStep(config, s, t, Release(i, check, now))
  {
    hide Released;
  }

  lemma StaysIfKept(config: Config, pool: Pool, transport: Transport, check: Check, now: int)
    requires DistinctTransports(pool.connections)
    ensures var after := Released(config, pool, transport, check, now);
            Has(after.connections, transport) <==> Has(pool.connections, transport) && Kept(config, check)
  {
    hide Released, Kept;
    if Has(pool.connections, transport) {
      var k :| 0 <= k < |pool.connections| && pool.connections[k].transport == transport;
      ReturnedConnection(config, pool, k, check, now);
      var after := Released(config, pool, transport, check, now).connections;
      if Kept(config, check) {
        assert after[k].transport == transport;
      }
    } else {
      UnknownTransport(config, pool, transport, check, now);
    }
  }

  /** A caller whose time is up leaves nothing in a run but the count. */
  lemma CallersCanTimeOut(config: Config, run: seq<State>) returns (run': seq<State>)
    requires IsRun(config, run)
    ensures Continues(config, run, run')
    ensures Last(run') == Last(run).(pool := TimedOut(Last(run).pool))
    ensures Last(run').pool.stats.timeouts == Last(run).pool.stats.timeouts + 1
  {
    var t := Last(run).(pool := TimedOut(Last(run).pool));
    Extend(config, run, t, TimeOut);
    run' := run + [t];
  }

  // ---------------------------------------------------------------------------------------------
  // The peak
  // ---------------------------------------------------------------------------------------------

  ghost predicate PeakMoves(s: State, t: State) {
    && t.pool.stats.peak >= s.pool.stats.peak
    && (t.pool.stats.peak == s.pool.stats.peak || t.pool.stats.peak == t.pool.stats.total)
  }

  lemma StepMovesPeak(config: Config, s: State, t: State, step: Step)
    requires NextStep(config, s, t, step)
    ensures PeakMoves(s, t)
  {
    hide Precedes, TestedFailures;
    if step.Prepopulate? {
      PrepopulationAdds(config, s.pool, step.batch, step.now);
    }
  }

  /** The peak is the highest number of connections that the pool has had after any step of the run. */
  lemma {:induction false} PeakIsTheMost(config: Config, run: seq<State>, k: nat) returns (at: nat)
    requires IsRun(config, run) && k < |run|
    ensures at <= k && run[k].pool.stats.peak == |run[at].pool.connections|
    ensures forall j: nat :: j <= k ==> |run[j].pool.connections| <= run[k].pool.stats.peak
  {
    hide NextStep;
    CountersDescribeThePool(config, run, k);
    if k == 0 {
      at := 0;
    } else {
      at := PeakIsTheMost(config, run, k - 1);
      assert Next(config, run[k - 1], run[k - 1 + 1]);
      var step :| NextStep(config, run[k - 1], run[k], step);
      StepMovesPeak(config, run[k - 1], run[k], step);
      if run[k].pool.stats.peak != run[k - 1].pool.stats.peak {
        at := k;
      }
    }
  }
}
