/** What the operations of a pool do, connection by connection and in nanoseconds
    (workspace/src/framework/impl/ipc/connection_pool.cpp:225-277, 356-504, 524-772). */
module PoolLaws {
  import opened Wrappers
  import opened Clocks
  import opened ConnectionPools
  import opened PoolWaits

  // ---------------------------------------------------------------------------------------------
  // Selecting
  // ---------------------------------------------------------------------------------------------

  /** A connection that nobody uses, whose transport is connected and, where that is tested, valid. */
  predicate Free(config: Config, conn: Connection, check: Transport -> Check) {
    !conn.inUse && check(conn.transport) != Disconnected && (config.validates ==> check(conn.transport) != Invalid)
  }

  lemma AvailableMeansFree(config: Config, conn: Connection, check: Transport -> Check)
    ensures Available(config, conn, check) <==> Free(config, conn, check)
  {
  }

  /** The index that round robin looks at in turn `d`. */
  function InTurn(pool: Pool, d: nat): (k: nat)
    requires pool.connections != []
    ensures k < |pool.connections|
  {
    (pool.nextIndex + d) % |pool.connections|
  }

  /** Round robin selects the first free connection from the next index on, going round. */
  lemma RoundRobinSelects(config: Config, pool: Pool, check: Transport -> Check, d: nat)
    requires config.strategy == RoundRobin && d < |pool.connections|
    ensures var conns := pool.connections;
            Selectable(config, pool, check, InTurn(pool, d)) <==>
            Free(config, conns[InTurn(pool, d)], check) && forall e: nat :: e < d ==> !Free(config, conns[InTurn(pool, e)], check)
  {
    hide Rotated, Turn, InTurn, Usable, Free;
    var conns := pool.connections;
    forall e: nat | e < |conns|
      ensures Turn(pool, InTurn(pool, e)) == e
      ensures Available(config, conns[InTurn(pool, e)], check) <==> Free(config, conns[InTurn(pool, e)], check)
    {
      TurnOf(pool, e);
      AvailableMeansFree(config, conns[InTurn(pool, e)], check);
    }
    forall j: nat | j < |conns|
      ensures Turn(pool, j) < |conns| && InTurn(pool, Turn(pool, j)) == j
    {
      TurnsCover(pool, j);
      TurnOf(pool, Turn(pool, j));
      SameTurn(pool, j, InTurn(pool, Turn(pool, j)));
    }
  }

  lemma TurnOf(pool: Pool, d: nat)
    requires d < |pool.connections|
    ensures Turn(pool, InTurn(pool, d)) == d
  {
    RotatedAt(pool, d);
  }

  lemma SameTurn(pool: Pool, i: nat, j: nat)
    requires i < |pool.connections| && j < |pool.connections|
    ensures Turn(pool, i) == Turn(pool, j) ==> i == j
  {
  }

  /** The other strategies select a free connection that was used no more often, or no more recently, than
      any other free one; of equals the first; or any. */
  lemma OtherStrategiesSelect(config: Config, pool: Pool, check: Transport -> Check, k: nat)
    requires config.strategy != RoundRobin
    ensures var conns := pool.connections;
            Selectable(config, pool, check, k) <==>
            k < |conns| && Free(config, conns[k], check) &&
            forall j: nat :: j < |conns| && j != k && Free(config, conns[j], check) ==>
              && (config.strategy == LeastLoaded ==> conns[k].useCount < conns[j].useCount || (conns[k].useCount == conns[j].useCount && k < j))
              && (config.strategy == LeastRecentlyUsed ==> conns[k].lastUsed < conns[j].lastUsed || (conns[k].lastUsed == conns[j].lastUsed && k < j))
  {
    var conns := pool.connections;
    forall j: nat | j < |conns|
      ensures Available(config, conns[j], check) <==> Free(config, conns[j], check)
    {
      AvailableMeansFree(config, conns[j], check);
    }
    if k < |conns| {
      assert Precedes(config, pool, k, k);
    }
  }

  // ---------------------------------------------------------------------------------------------
  // Acquiring
  // ---------------------------------------------------------------------------------------------

  /** A try hands out an existing connection if one is free: it becomes used once more, now; nothing is
      created and no other connection changes. */
  lemma TryTakesWhatIsFree(config: Config, pool: Pool, pool': Pool, check: Transport -> Check, made: Option<Transport>,
                           now: int, result: Option<Transport>, j: nat)
    requires Tries(config, pool, pool', check, made, now, result)
    requires j < |pool.connections| && Free(config, pool.connections[j], check)
    ensures exists k: nat :: k < |pool.connections| && Free(config, pool.connections[k], check)
              && result == Some(pool.connections[k].transport)
              && pool'.connections == pool.connections[k := pool.connections[k].(inUse := true, useCount := pool.connections[k].useCount + 1, lastUsed := now)]
              && pool'.nextIndex == (if config.strategy == RoundRobin then (k + 1) % |pool.connections| else pool.nextIndex)
              && pool'.stats.validationFailures == pool.stats.validationFailures + TestedFailures(config, pool, check, Some(k))
    ensures pool'.stats == pool.stats.(idle := pool.stats.idle - 1, active := pool.stats.active + 1,
                                       acquisitions := pool.stats.acquisitions + 1, validationFailures := pool'.stats.validationFailures)
  {
    hide Precedes, TestedFailures;
    AvailableMeansFree(config, pool.connections[j], check);
    var best := BestExists(config, pool, check, |pool.connections|);
    assert Selectable(config, pool, check, best.value);
    var k: nat :| Selectable(config, pool, check, k) && result == Some(pool.connections[k].transport) &&
                  pool' == Acquired(Taken(config, WithFailures(pool, TestedFailures(config, pool, check, Some(k))), k, now));
    AvailableMeansFree(config, pool.connections[k], check);
  }

  /** With none free a new connection is added, in use, if the pool is below its limit and the factory makes
      one; otherwise the caller gets nothing and nothing but validation failures is counted. */
  lemma TryMakesWhatIsMissing(config: Config, pool: Pool, pool': Pool, check: Transport -> Check, made: Option<Transport>,
                              now: int, result: Option<Transport>)
    requires Tries(config, pool, pool', check, made, now, result)
    requires forall j: nat :: j < |pool.connections| ==> !Free(config, pool.connections[j], check)
    ensures pool'.nextIndex == pool.nextIndex
    ensures pool'.stats.validationFailures == pool.stats.validationFailures + TestedFailures(config, pool, check, None)
    ensures |pool.connections| < config.maxPoolSize && made.Some? ==>
              && result == made && pool'.connections == pool.connections + [Connection(made.value, now, now, 0, true)]
              && pool'.stats == pool.stats.(total := pool.stats.total + 1, created := pool.stats.created + 1, active := pool.stats.active + 1,
                                            acquisitions := pool.stats.acquisitions + 1,
                                            peak := if pool.stats.peak > pool.stats.total then pool.stats.peak else pool.stats.total + 1,
                                            validationFailures := pool'.stats.validationFailures)
    ensures |pool.connections| >= config.maxPoolSize || made.None? ==>
              && result == None && pool'.connections == pool.connections
              && pool'.stats == pool.stats.(validationFailures := pool'.stats.validationFailures)
  {
    hide Precedes, TestedFailures;
    forall k: nat
      ensures !Selectable(config, pool, check, k)
    {
      if k < |pool.connections| {
        AvailableMeansFree(config, pool.connections[k], check);
      }
    }
  }

  /** The idle connections among some that are tested and found invalid. */
  function Invalids(conns: seq<Connection>, check: Transport -> Check): set<nat> {
    set j: nat | j < |conns| && !conns[j].inUse && check(conns[j].transport) == Invalid
  }

  /** What a search counts: each idle connection that it finds invalid, where that is tested. */
  lemma {:induction false} FailuresAreInvalids(config: Config, conns: seq<Connection>, check: Transport -> Check)
    ensures Failures(config, conns, check) == if config.validates then |Invalids(conns, check)| else 0
  {
    if conns != [] {
      var front, last := conns[..|conns| - 1], conns[|conns| - 1];
      FailuresAreInvalids(config, front, check);
      var all := Invalids(conns, check);
      if !last.inUse && check(last.transport) == Invalid {
        assert all == Invalids(front, check) + {|conns| - 1};
      } else {
        assert all == Invalids(front, check);
      }
    }
  }

  /** The turns before `d` in which an idle connection is tested and found invalid. */
  function InvalidTurns(pool: Pool, check: Transport -> Check, d: nat): set<nat>
    requires d <= |pool.connections|
  {
    set e: nat | e < d && !pool.connections[InTurn(pool, e)].inUse && check(pool.connections[InTurn(pool, e)].transport) == Invalid
  }

  /** Round robin tests what it looks at before the one it selects, the other strategies test all. */
  lemma WhatIsTested(config: Config, pool: Pool, check: Transport -> Check, d: nat)
    requires config.validates && d < |pool.connections|
    ensures TestedFailures(config, pool, check, Some(InTurn(pool, d))) ==
            if config.strategy == RoundRobin then |InvalidTurns(pool, check, d)| else |Invalids(pool.connections, check)|
    ensures TestedFailures(config, pool, check, None) == |Invalids(pool.connections, check)|
  {
    hide Turn, Failures, InTurn, Rotated;
    FailuresAreInvalids(config, pool.connections, check);
    TurnOf(pool, d);
    var before := Rotated(pool)[..d];
    FailuresAreInvalids(config, before, check);
    forall e: nat | e < d
      ensures before[e] == pool.connections[InTurn(pool, e)]
    {
      RotatedIs(pool, e);
    }
    assert Invalids(before, check) == InvalidTurns(pool, check, d);
  }

  lemma RotatedIs(pool: Pool, e: nat)
    requires e < |pool.connections|
    ensures Rotated(pool)[e] == pool.connections[InTurn(pool, e)]
  {
    RotatedAt(pool, e);
  }

  // ---------------------------------------------------------------------------------------------
  // Releasing
  // ---------------------------------------------------------------------------------------------

  /** A returned transport is kept unless it is disconnected, or invalid where returns are tested. */
  predicate Kept(config: Config, check: Check) {
    check != Disconnected && (config.validatesReturns ==> check != Invalid)
  }

  /** The first connection of the returned transport becomes idle, used last now; or it alone is closed. */
  lemma ReturnedConnection(config: Config, pool: Pool, k: nat, check: Check, now: int)
    requires k < |pool.connections|
    requires forall j :: 0 <= j < k ==> pool.connections[j].transport != pool.connections[k].transport
    ensures var conns, stats := pool.connections, pool.stats;
            var after := Released(config, pool, conns[k].transport, check, now);
            var counted := stats.(active := stats.active - 1, releases := stats.releases + 1,
                                  validationFailures := stats.validationFailures + if config.validatesReturns && check == Invalid then 1 else 0);
            && after.nextIndex == pool.nextIndex
            && (Kept(config, check) ==>
                  && after.connections == conns[k := conns[k].(inUse := false, lastUsed := now)]
                  && after.stats == counted.(idle := stats.idle + 1))
            && (!Kept(config, check) ==>
                  && after.connections == conns[..k] + conns[k + 1..]
                  && after.stats == counted.(total := stats.total - 1, destroyed := stats.destroyed + 1))
  {
    IndexAt(pool.connections, pool.connections[k].transport, k);
  }

  /** A transport that the pool does not know changes nothing but the count of failed validations. */
  lemma UnknownTransport(config: Config, pool: Pool, t: Transport, check: Check, now: int)
    requires forall j :: 0 <= j < |pool.connections| ==> pool.connections[j].transport != t
    ensures Released(config, pool, t, check, now) ==
            pool.(stats := pool.stats.(validationFailures := pool.stats.validationFailures + if config.validatesReturns && check == Invalid then 1 else 0))
  {
    NotThere(pool.connections, t);
  }

  lemma {:induction false} NotThere(conns: seq<Connection>, t: Transport)
    requires forall j :: 0 <= j < |conns| ==> conns[j].transport != t
    ensures IndexOf(conns, t) == |conns|
  {
  }

  /** After a healthy return there is a connection to be had, and the next try hands out an existing one. */
  lemma HealthyReturnIsReused(config: Config, pool: Pool, k: nat, now: int, round: Round, pool': Pool, result: Option<Transport>)
    requires k < |pool.connections|
    requires forall j :: 0 <= j < k ==> pool.connections[j].transport != pool.connections[k].transport
    requires round.check(pool.connections[k].transport) == Healthy
    requires var after := Released(config, pool, pool.connections[k].transport, Healthy, now);
             Tries(config, after, pool', round.check, round.made, round.tried, result)
    ensures ToBeHad(config, Released(config, pool, pool.connections[k].transport, Healthy, now), round)
    ensures |pool'.connections| == |pool.connections| && pool'.stats.created == pool.stats.created && pool'.stats.destroyed == pool.stats.destroyed
    ensures exists j: nat :: j < |pool.connections| && result == Some(pool.connections[j].transport)
  {
    hide Tries, Released;
    ReturnedConnection(config, pool, k, Healthy, now);
    var after := Released(config, pool, pool.connections[k].transport, Healthy, now);
    AvailableMeansFree(config, after.connections[k], round.check);
    TryTakesWhatIsFree(config, after, pool', round.check, round.made, round.tried, result, k);
    var j: nat :| j < |after.connections| && result == Some(after.connections[j].transport) &&
                  pool'.connections == after.connections[j := pool'.connections[j]];
    assert after.connections[j].transport == pool.connections[j].transport;
  }

  // ---------------------------------------------------------------------------------------------
  // Eviction
  // ---------------------------------------------------------------------------------------------

  /** `limit` milliseconds have passed since then. */
  predicate Passed(since: int, limit: nat, now: int) {
    now - since >= limit * NANOSECONDS_PER_MILLISECOND || (limit == 0 && now - since > -NANOSECONDS_PER_MILLISECOND)
  }

  /** Eviction by age closes exactly the idle connections whose lifetime has passed, and keeps the order. */
  lemma {:induction false} ExpiredEvictionExactly(config: Config, conns: seq<Connection>, now: int)
    ensures forall c :: c in KeptYoung(config, conns, now) <==> c in conns && (c.inUse || !Passed(c.created, config.maxLifetime, now))
    ensures conns != [] ==>
              var rest := KeptYoung(config, conns[1..], now);
              KeptYoung(config, conns, now) == if conns[0].inUse || !Passed(conns[0].created, config.maxLifetime, now) then [conns[0]] + rest else rest
  {
    hide Passed;
    if conns != [] {
      ExpiredEvictionExactly(config, conns[1..], now);
      LimitReached(now - conns[0].created, config.maxLifetime);
      PassedMeans(conns[0].created, config.maxLifetime, now);
      assert conns == [conns[0]] + conns[1..];
    }
  }

  lemma PassedMeans(since: int, limit: nat, now: int)
    ensures Passed(since, limit, now) <==> Milliseconds(now - since) >= limit
  {
    LimitReached(now - since, limit);
  }

  /** How many of some connections are idle and were last used too long ago. */
  function Overdue(config: Config, conns: seq<Connection>, now: int): nat {
    if conns == [] then 0
    else (if !conns[0].inUse && Passed(conns[0].lastUsed, config.maxIdleTime, now) then 1 else 0) + Overdue(config, conns[1..], now)
  }

  /** Idle eviction closes as many overdue connections as the pool holds above its minimum, if there are so
      many, and the first ones; it keeps all others, in order. */
  lemma {:induction false} IdleEvictionExactly(config: Config, conns: seq<Connection>, size: nat, now: int)
    requires size >= |conns|
    ensures var over, kept := Overdue(config, conns, now), KeptBusy(config, conns, size, now);
            && |conns| - |kept| == (if size <= config.minPoolSize then 0 else if over < size - config.minPoolSize then over else size - config.minPoolSize)
            && (conns != [] ==>
                  if !conns[0].inUse && Passed(conns[0].lastUsed, config.maxIdleTime, now) && size > config.minPoolSize
                  then kept == KeptBusy(config, conns[1..], size - 1, now)
                  else kept == [conns[0]] + KeptBusy(config, conns[1..], size, now))
  {
    hide Passed;
    if conns != [] {
      PassedMeans(conns[0].lastUsed, config.maxIdleTime, now);
      if !conns[0].inUse && Passed(conns[0].lastUsed, config.maxIdleTime, now) && size > config.minPoolSize {
        IdleEvictionExactly(config, conns[1..], size - 1, now);
      } else {
        IdleEvictionExactly(config, conns[1..], size, now);
      }
    }
  }

  // ---------------------------------------------------------------------------------------------
  // Prepopulating
  // ---------------------------------------------------------------------------------------------

  /** Prepopulation leaves the connections alone and adds idle ones of what the factory made, as long as the
      pool is below its limit. */
  lemma {:induction false} PrepopulationAdds(config: Config, pool: Pool, made: seq<Option<Transport>>, now: int)
    ensures var after := AllPopulated(config, pool, made, now);
            var added := |after.connections| - |pool.connections|;
            && pool.connections <= after.connections && 0 <= added <= |made|
            && (forall k :: |pool.connections| <= k < |after.connections| ==>
                  Some(after.connections[k].transport) in made && after.connections[k] == Connection(after.connections[k].transport, now, now, 0, false))
            && (|pool.connections| <= config.maxPoolSize ==> |after.connections| <= config.maxPoolSize)
            && (|after.connections| < config.maxPoolSize && (forall m :: m in made ==> m.Some?) ==> added == |made|)
            && after.stats == pool.stats.(total := pool.stats.total + added, idle := pool.stats.idle + added, created := pool.stats.created + added,
                                          peak := if added > 0 && pool.stats.total + added > pool.stats.peak then pool.stats.total + added else pool.stats.peak)
            && after.nextIndex == pool.nextIndex
  {
    if made != [] {
      PrepopulationAdds(config, pool, made[..|made| - 1], now);
    }
  }
}
