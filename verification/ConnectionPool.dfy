/** The pool of connections to one endpoint (workspace/src/framework/impl/ipc/connection_pool.cpp:25-43,
    225-277, 356-429, 449-504, 524-772).

    A transport is a number; `Check` is what testing it at some moment would say; clock readings are
    nanoseconds.  A factory makes a new transport, so one that nobody holds any more. */
module ConnectionPools {
  import opened Wrappers
  import opened Clocks
  import opened Bytes

  type Transport = nat

  datatype Check = Disconnected | Invalid | Healthy

  datatype Strategy = RoundRobin | LeastLoaded | Random | LeastRecentlyUsed

  /** `validates` and `validatesReturns`: the options to do so are set and there is a validator. */
  datatype Config = Config(
    minPoolSize: nat, maxPoolSize: nat, maxIdleTime: nat, maxLifetime: nat,
    validates: bool, validatesReturns: bool, strategy: Strategy)

  datatype Connection = Connection(transport: Transport, created: int, lastUsed: int, useCount: nat, inUse: bool)

  /** The counters are unsigned in the original; here a value below zero would show. */
  datatype Stats = Stats(
    total: int, active: int, idle: int, acquisitions: nat, releases: nat, timeouts: nat,
    created: nat, destroyed: nat, evictedIdle: nat, evictedLifetime: nat, validationFailures: nat, peak: int)

  datatype Pool = Pool(connections: seq<Connection>, nextIndex: nat, stats: Stats)

  const EMPTY: Pool := Pool([], 0, Stats(0, 0, 0, 0, 0, 0, 0, 0, 0, 0, 0, 0))

  // ---------------------------------------------------------------------------------------------
  // Selection
  // ---------------------------------------------------------------------------------------------

  /** What validateConnection finds: without validation, a connected transport will do. */
  predicate Usable(config: Config, check: Check) {
    check == Healthy || (check == Invalid && !config.validates)
  }

  predicate Available(config: Config, conn: Connection, check: Transport -> Check) {
    !conn.inUse && Usable(config, check(conn.transport))
  }

  /** The failures that testing the idle ones of these connections counts. */
  function Failures(config: Config, conns: seq<Connection>, check: Transport -> Check): nat {
    if conns == [] then 0
    else
      var last := conns[|conns| - 1];
      Failures(config, conns[..|conns| - 1], check) +
      if !last.inUse && config.validates && check(last.transport) == Invalid then 1 else 0
  }

  /** The connections in the order in which round robin looks at them. */
  function Rotated(pool: Pool): (r: seq<Connection>)
    ensures |r| == |pool.connections|
  {
    if pool.connections == [] then []
    else
      var k := pool.nextIndex % |pool.connections|;
      pool.connections[k..] + pool.connections[..k]
  }

  /** Index `k` is what the strategy may select: one of the available connections; the first in turn, or
      one of the least used, or one that was used least recently, the first of several. */
  ghost predicate Selectable(config: Config, pool: Pool, check: Transport -> Check, k: nat) {
    && k < |pool.connections| && Available(config, pool.connections[k], check)
    && forall j :: 0 <= j < |pool.connections| && Available(config, pool.connections[j], check) ==>
         Precedes(config, pool, k, j)
  }

  predicate Precedes(config: Config, pool: Pool, k: nat, j: nat)
    requires k < |pool.connections| && j < |pool.connections|
  {
    match config.strategy
    case RoundRobin => Turn(pool, k) <= Turn(pool, j)
    case LeastLoaded => Earlier(pool.connections[k].useCount, k, pool.connections[j].useCount, j)
    case Random => true
    case LeastRecentlyUsed => Earlier(pool.connections[k].lastUsed, k, pool.connections[j].lastUsed, j)
  }

  predicate Earlier(a: int, k: nat, b: int, j: nat) {
    a < b || (a == b && k <= j)
  }

  /** How many connections round robin looks at before index `k`. */
  function Turn(pool: Pool, k: nat): nat
    requires k < |pool.connections|
  {
    var first := pool.nextIndex % |pool.connections|;
    if k >= first then k - first else k + |pool.connections| - first
  }

  function TestedFailures(config: Config, pool: Pool, check: Transport -> Check, selected: Option<nat>): nat {
    if config.strategy == RoundRobin && selected.Some? && selected.value < |pool.connections|
    then Failures(config, Rotated(pool)[..Turn(pool, selected.value)], check)
    else Failures(config, pool.connections, check)
  }

  /** The connection at `k` is handed out. */
  function Taken(config: Config, pool: Pool, k: nat, now: int): Pool
    requires k < |pool.connections|
  {
    var conn := pool.connections[k];
    pool.(connections := pool.connections[k := conn.(inUse := true, useCount := conn.useCount + 1, lastUsed := now)],
          nextIndex := if config.strategy == RoundRobin then (k + 1) % |pool.connections| else pool.nextIndex,
          stats := pool.stats.(idle := pool.stats.idle - 1))
  }

  /** A new connection joins the pool, in use. */
  function Created(pool: Pool, transport: Transport, now: int): Pool {
    pool.(connections := pool.connections + [Connection(transport, now, now, 0, true)],
          stats := pool.stats.(total := pool.stats.total + 1, created := pool.stats.created + 1,
                               peak := if pool.stats.total + 1 > pool.stats.peak then pool.stats.total + 1 else pool.stats.peak))
  }

  function Acquired(pool: Pool): Pool {
    pool.(stats := pool.stats.(acquisitions := pool.stats.acquisitions + 1, active := pool.stats.active + 1))
  }

  function WithFailures(pool: Pool, failures: nat): Pool {
    pool.(stats := pool.stats.(validationFailures := pool.stats.validationFailures + failures))
  }

  /** One try of acquire at an existing connection, a new one, or neither. */
  ghost predicate Tries(config: Config, pool: Pool, pool': Pool, check: Transport -> Check, made: Option<Transport>,
                        now: int, result: Option<Transport>) {
    if exists k: nat :: Selectable(config, pool, check, k) then
      exists k: nat :: Selectable(config, pool, check, k) && result == Some(pool.connections[k].transport) &&
                  pool' == Acquired(Taken(config, WithFailures(pool, TestedFailures(config, pool, check, Some(k))), k, now))
    else
      var tested := WithFailures(pool, TestedFailures(config, pool, check, None));
      if |pool.connections| < config.maxPoolSize && made.Some? then
        result == made && pool' == Acquired(Created(tested, made.value, now))
      else
        result == None && pool' == tested
  }

  // ---------------------------------------------------------------------------------------------
  // Release, eviction, closing
  // ---------------------------------------------------------------------------------------------

  function IndexOf(conns: seq<Connection>, transport: Transport): (k: nat)
    ensures k <= |conns|
    ensures k < |conns| ==> conns[k].transport == transport
    ensures forall j :: 0 <= j < k ==> conns[j].transport != transport
  {
    if conns == [] then 0
    else if conns[0].transport == transport then 0
    else 1 + IndexOf(conns[1..], transport)
  }

  function Erased(conns: seq<Connection>, k: nat): seq<Connection>
    requires k < |conns|
  {
    conns[..k] + conns[k + 1..]
  }

  /** A transport comes back; `connected` is asked only if it is valid. */
  function Released(config: Config, pool: Pool, transport: Transport, check: Check, now: int): Pool {
    var failed := config.validatesReturns && check == Invalid;
    var tested := WithFailures(pool, if failed then 1 else 0);
    var k := IndexOf(pool.connections, transport);
    if k == |pool.connections| then tested
    else
      var counted := tested.stats.(active := tested.stats.active - 1, releases := tested.stats.releases + 1);
      if !failed && check != Disconnected then
        tested.(connections := pool.connections[k := pool.connections[k].(inUse := false, lastUsed := now)],
                stats := counted.(idle := counted.idle + 1))
      else
        tested.(connections := Erased(pool.connections, k),
                stats := counted.(total := counted.total - 1, destroyed := counted.destroyed + 1))
  }

  predicate IdleTooLong(config: Config, conn: Connection, now: int) {
    !conn.inUse && Milliseconds(now - conn.lastUsed) >= config.maxIdleTime
  }

  predicate Outlived(config: Config, conn: Connection, now: int) {
    !conn.inUse && Milliseconds(now - conn.created) >= config.maxLifetime
  }

  /** What idle eviction keeps of `conns`, when the pool then holds `size` connections. */
  function KeptBusy(config: Config, conns: seq<Connection>, size: nat, now: int): (kept: seq<Connection>)
    requires size >= |conns|
    ensures |kept| <= |conns|
  {
    if conns == [] then []
    else if IdleTooLong(config, conns[0], now) && size > config.minPoolSize then KeptBusy(config, conns[1..], size - 1, now)
    else [conns[0]] + KeptBusy(config, conns[1..], size, now)
  }

  function KeptYoung(config: Config, conns: seq<Connection>, now: int): (kept: seq<Connection>)
    ensures |kept| <= |conns|
  {
    if conns == [] then []
    else if Outlived(config, conns[0], now) then KeptYoung(config, conns[1..], now)
    else [conns[0]] + KeptYoung(config, conns[1..], now)
  }

  /** `n` idle connections were destroyed. */
  function Destroyed(stats: Stats, n: nat): Stats {
    stats.(total := stats.total - n, idle := stats.idle - n, destroyed := stats.destroyed + n)
  }

  function IdleEvicted(config: Config, pool: Pool, now: int): Pool {
    var kept := KeptBusy(config, pool.connections, |pool.connections|, now);
    var n := |pool.connections| - |kept|;
    pool.(connections := kept, stats := Destroyed(pool.stats, n).(evictedIdle := pool.stats.evictedIdle + n))
  }

  function ExpiredEvicted(config: Config, pool: Pool, now: int): Pool {
    var kept := KeptYoung(config, pool.connections, now);
    var n := |pool.connections| - |kept|;
    pool.(connections := kept, stats := Destroyed(pool.stats, n).(evictedLifetime := pool.stats.evictedLifetime + n))
  }

  function ClosedAll(pool: Pool): Pool {
    pool.(connections := [],
          stats := pool.stats.(total := 0, idle := 0, active := 0, destroyed := pool.stats.destroyed + |pool.connections|))
  }

  /** A prepopulated connection: new, and idle. */
  function Populated(pool: Pool, transport: Transport, now: int): Pool {
    var p := Created(pool, transport, now);
    p.(connections := pool.connections + [Connection(transport, now, now, 0, false)],
       stats := p.stats.(idle := p.stats.idle + 1))
  }

  /** Prepopulation tries the factory once for each wanted connection until the pool is full. */
  function AllPopulated(config: Config, pool: Pool, made: seq<Option<Transport>>, now: int): Pool {
    if made == [] then pool
    else
      var before := AllPopulated(config, pool, made[..|made| - 1], now);
      var last := made[|made| - 1];
      if |before.connections| < config.maxPoolSize && last.Some? then Populated(before, last.value, now) else before
  }

  // ---------------------------------------------------------------------------------------------
  // The object
  // ---------------------------------------------------------------------------------------------

  lemma FailuresNext(config: Config, conns: seq<Connection>, check: Transport -> Check, i: nat)
    requires i < |conns|
    ensures Failures(config, conns[..i + 1], check) ==
              Failures(config, conns[..i], check) +
              if !conns[i].inUse && config.validates && check(conns[i].transport) == Invalid then 1 else 0
  {
    assert conns[..i + 1][..i] == conns[..i];
  }

  lemma IndexAt(conns: seq<Connection>, transport: Transport, k: nat)
    requires k < |conns| && conns[k].transport == transport
    requires forall j :: 0 <= j < k ==> conns[j].transport != transport
    ensures IndexOf(conns, transport) == k
  {
  }

  lemma RotatedAt(pool: Pool, i: nat)
    requires i < |pool.connections|
    ensures var k := (pool.nextIndex + i) % |pool.connections|;
            Rotated(pool)[i] == pool.connections[k] && Turn(pool, k) == i
  {
    var n := |pool.connections|;
    var q, first := pool.nextIndex / n, pool.nextIndex % n;
    if first + i < n {
      Quotient(pool.nextIndex + i, n, q, first + i);
    } else {
      assert n * (q + 1) == n * q + n;
      Quotient(pool.nextIndex + i, n, q + 1, first + i - n);
    }
  }

  lemma TurnsCover(pool: Pool, k: nat)
    requires k < |pool.connections|
    ensures Turn(pool, k) < |pool.connections| && Rotated(pool)[Turn(pool, k)] == pool.connections[k]
  {
  }

  /** What a search for a connection of the strategy finds, and what it counts. */
  ghost predicate Finds(config: Config, pool: Pool, pool': Pool, check: Transport -> Check, k: Option<nat>) {
    && (k.Some? ==> Selectable(config, pool, check, k.value))
    && (k.None? ==> forall j: nat :: j < |pool.connections| ==> !Available(config, pool.connections[j], check))
    && pool' == WithFailures(pool, TestedFailures(config, pool, check, k))
  }

  lemma FirstInTurn(config: Config, pool: Pool, check: Transport -> Check, k: nat)
    requires config.strategy == RoundRobin && k < |pool.connections| && Available(config, pool.connections[k], check)
    requires forall j :: 0 <= j < Turn(pool, k) ==> !Available(config, Rotated(pool)[j], check)
    ensures Selectable(config, pool, check, k)
  {
    forall j | 0 <= j < |pool.connections| && Available(config, pool.connections[j], check)
      ensures Turn(pool, k) <= Turn(pool, j)
    {
      TurnsCover(pool, j);
    }
  }

  lemma NoneInTurn(config: Config, pool: Pool, check: Transport -> Check)
    requires forall j :: 0 <= j < |pool.connections| ==> !Available(config, Rotated(pool)[j], check)
    ensures forall j: nat :: j < |pool.connections| ==> !Available(config, pool.connections[j], check)
    ensures Failures(config, Rotated(pool), check) == Failures(config, pool.connections, check)
  {
    hide Turn, Rotated;
    forall j: nat | j < |pool.connections|
      ensures !Available(config, pool.connections[j], check)
    {
      TurnsCover(pool, j);
    }
    RotationKeepsFailures(config, pool, check);
  }

  lemma RotationKeepsFailures(config: Config, pool: Pool, check: Transport -> Check)
    ensures Failures(config, Rotated(pool), check) == Failures(config, pool.connections, check)
  {
    if pool.connections != [] {
      var k := pool.nextIndex % |pool.connections|;
      var a, b := pool.connections[..k], pool.connections[k..];
      FailuresOfBoth(config, a, b, check);
      FailuresOfBoth(config, b, a, check);
      assert pool.connections == a + b;
    }
  }

  lemma {:induction false} FailuresOfBoth(config: Config, a: seq<Connection>, b: seq<Connection>, check: Transport -> Check)
    ensures Failures(config, a + b, check) == Failures(config, a, check) + Failures(config, b, check)
  {
    if b == [] {
      assert a + b == a;
    } else {
      assert (a + b)[..|a + b| - 1] == a + b[..|b| - 1];
      FailuresOfBoth(config, a, b[..|b| - 1], check);
    }
  }

  lemma UsableCountsNothing(config: Config, check: Check)
    requires Usable(config, check)
    ensures !(config.validates && check == Invalid)
  {
  }

  /** The first of the available connections before index `i` that precede the others. */
  ghost predicate BestSoFar(config: Config, pool: Pool, check: Transport -> Check, i: nat, best: Option<nat>)
    requires i <= |pool.connections|
  {
    && (best.Some? ==> best.value < i && Available(config, pool.connections[best.value], check))
    && forall j: nat :: j < i && Available(config, pool.connections[j], check) ==>
         best.Some? && Precedes(config, pool, best.value, j)
  }

  lemma FindsIsExact(config: Config, pool: Pool, pool': Pool, check: Transport -> Check, k: Option<nat>)
    requires Finds(config, pool, pool', check, k)
    ensures pool' == WithFailures(pool, TestedFailures(config, pool, check, k))
    ensures k.Some? ==> k.value < |pool.connections| && Selectable(config, pool, check, k.value)
    ensures k.None? ==> !exists j: nat :: Selectable(config, pool, check, j)
  {
  }

  /** One turn of the loop that evicts idle connections: `i` of them were kept. */
  lemma KeptBusyNext(config: Config, conns: seq<Connection>, i: nat, size: nat, now: int)
    requires i < |conns| && size >= |conns|
    ensures var all := conns[..i] + KeptBusy(config, conns[i..], size, now);
            var left := Erased(conns, i);
            && left[..i] == conns[..i]
            && (if IdleTooLong(config, conns[i], now) && size > config.minPoolSize
                then left[..i] + KeptBusy(config, left[i..], size - 1, now) == all
                else conns[..i + 1] + KeptBusy(config, conns[i + 1..], size, now) == all)
  {
    hide IdleTooLong;
    var rest := conns[i..];
    assert rest[0] == conns[i] && rest[1..] == conns[i + 1..];
    assert Erased(conns, i)[i..] == conns[i + 1..] && Erased(conns, i)[..i] == conns[..i];
    assert conns[..i + 1] == conns[..i] + [conns[i]];
  }

  lemma KeptYoungNext(config: Config, conns: seq<Connection>, i: nat, now: int)
    requires i < |conns|
    ensures var all := conns[..i] + KeptYoung(config, conns[i..], now);
            var left := Erased(conns, i);
            && left[..i] == conns[..i]
            && (if Outlived(config, conns[i], now) then left[..i] + KeptYoung(config, left[i..], now) == all
                else conns[..i + 1] + KeptYoung(config, conns[i + 1..], now) == all)
  {
    hide Outlived;
    var rest := conns[i..];
    assert rest[0] == conns[i] && rest[1..] == conns[i + 1..];
    assert Erased(conns, i)[i..] == conns[i + 1..] && Erased(conns, i)[..i] == conns[..i];
    assert conns[..i + 1] == conns[..i] + [conns[i]];
  }

  lemma OneLess(conns: seq<Connection>, i: nat)
    requires i < |conns|
    ensures |Erased(conns, i)| == |conns| - 1
  {
  }

  lemma NothingLeft(config: Config, conns: seq<Connection>, now: int)
    ensures conns[..|conns|] + KeptYoung(config, conns[|conns|..], now) == conns
    ensures conns[..|conns|] + KeptBusy(config, conns[|conns|..], |conns|, now) == conns
    ensures conns[..0] + KeptYoung(config, conns[0..], now) == KeptYoung(config, conns, now)
    ensures conns[..0] + KeptBusy(config, conns[0..], |conns|, now) == KeptBusy(config, conns, |conns|, now)
  {
    assert conns[..|conns|] == conns && conns[0..] == conns;
  }

  class EndpointPool {
    const config: Config
    var connections: seq<Connection>
    var nextIndex: nat
    var stats: Stats

    function Current(): Pool
      reads this
    {
      Pool(connections, nextIndex, stats)
    }

    constructor (config: Config)
      ensures this.config == config && Current() == EMPTY
    {
      this.config := config;
      connections, nextIndex, stats := [], 0, EMPTY.stats;
    }

    method ValidateConnection(conn: Connection, check: Transport -> Check) returns (usable: bool)
      modifies this`stats
      ensures usable == Usable(config, check(conn.transport))
      ensures Current() == WithFailures(old(Current()), if config.validates && check(conn.transport) == Invalid then 1 else 0)
    {
      var result := check(conn.transport);
      if result == Disconnected {
        return false;
      }
      if config.validates && result == Invalid {
        stats := stats.(validationFailures := stats.validationFailures + 1);
        return false;
      }
      return true;
    }

    /** The connection at `k` is marked, and its transport handed out. */
    method Take(k: nat, now: int) returns (transport: Transport)
      requires k < |connections|
      modifies this
      ensures transport == old(connections)[k].transport
      ensures Current() == Taken(config, old(Current()), k, now)
    {
      var conn := connections[k];
      connections := connections[k := conn.(inUse := true, useCount := conn.useCount + 1, lastUsed := now)];
      if config.strategy == RoundRobin {
        nextIndex := (k + 1) % |connections|;
      }
      stats := stats.(idle := stats.idle - 1);
      return conn.transport;
    }

    method FindRoundRobin(check: Transport -> Check) returns (k: Option<nat>)
      requires config.strategy == RoundRobin
      modifies this`stats
      ensures Finds(config, old(Current()), Current(), check, k)
    {
      hide Usable, Rotated, Turn, Selectable;
      var i := 0;
      ghost var before := Current();
      while i < |connections|
        invariant 0 <= i <= |connections| == |Rotated(before)|
        invariant Current() == WithFailures(before, Failures(config, Rotated(before)[..i], check))
        invariant forall j :: 0 <= j < i ==> !Available(config, Rotated(before)[j], check)
      {
        var index := (nextIndex + i) % |connections|;
        RotatedAt(before, i);
        FailuresNext(config, Rotated(before), check, i);
        if !connections[index].inUse {
          var usable := ValidateConnection(connections[index], check);
          if usable {
            FirstInTurn(config, before, check, index);
            UsableCountsNothing(config, check(connections[index].transport));
            return Some(index);
          }
        }
        i := i + 1;
      }
      NoneInTurn(config, before, check);
      assert Rotated(before)[..i] == Rotated(before);
      return None;
    }

    method FindLeastLoaded(check: Transport -> Check) returns (best: Option<nat>)
      requires config.strategy == LeastLoaded
      modifies this`stats
      ensures Finds(config, old(Current()), Current(), check, best)
    {
      hide Usable;
      best := None;
      ghost var before := Current();
      var i := 0;
      while i < |connections|
        invariant 0 <= i <= |connections|
        invariant Current() == WithFailures(before, Failures(config, before.connections[..i], check))
        invariant BestSoFar(config, before, check, i, best)
      {
        FailuresNext(config, before.connections, check, i);
        if !connections[i].inUse {
          var usable := ValidateConnection(connections[i], check);
          if usable && (best.None? || connections[i].useCount < connections[best.value].useCount) {
            best := Some(i);
          }
        }
        i := i + 1;
      }
      assert before.connections[..i] == before.connections;
    }

    method FindLeastRecentlyUsed(check: Transport -> Check) returns (lru: Option<nat>)
      requires config.strategy == LeastRecentlyUsed
      modifies this`stats
      ensures Finds(config, old(Current()), Current(), check, lru)
    {
      hide Usable;
      lru := None;
      ghost var before := Current();
      var i := 0;
      while i < |connections|
        invariant 0 <= i <= |connections|
        invariant Current() == WithFailures(before, Failures(config, before.connections[..i], check))
        invariant BestSoFar(config, before, check, i, lru)
      {
        FailuresNext(config, before.connections, check, i);
        if !connections[i].inUse {
          var usable := ValidateConnection(connections[i], check);
          if usable && (lru.None? || connections[i].lastUsed < connections[lru.value].lastUsed) {
            lru := Some(i);
          }
        }
        i := i + 1;
      }
      assert before.connections[..i] == before.connections;
    }

    /** `draw` is the random number. */
    method FindRandom(check: Transport -> Check, draw: nat) returns (k: Option<nat>)
      requires config.strategy == Random
      modifies this`stats
      ensures Finds(config, old(Current()), Current(), check, k)
    {
      hide Usable;
      var available: seq<nat> := [];
      ghost var before := Current();
      var i := 0;
      while i < |connections|
        invariant 0 <= i <= |connections|
        invariant Current() == WithFailures(before, Failures(config, before.connections[..i], check))
        invariant forall j: nat :: j in available ==> j < i && Available(config, connections[j], check)
        invariant forall j: nat :: j < i && Available(config, connections[j], check) ==> j in available
      {
        FailuresNext(config, before.connections, check, i);
        if !connections[i].inUse {
          var usable := ValidateConnection(connections[i], check);
          if usable {
            available := available + [i];
          }
        }
        i := i + 1;
      }
      assert before.connections[..i] == before.connections;
      k := if available == [] then None else Some(available[draw % |available|]);
      assert k.Some? ==> k.value in available;
      assert k.None? ==> forall j: nat :: j !in available;
    }

    method Find(check: Transport -> Check, draw: nat) returns (k: Option<nat>)
      modifies this`stats
      ensures Finds(config, old(Current()), Current(), check, k)
    {
      hide Finds;
      match config.strategy {
        case RoundRobin => k := FindRoundRobin(check);
        case LeastLoaded => k := FindLeastLoaded(check);
        case Random => k := FindRandom(check, draw);
        case LeastRecentlyUsed => k := FindLeastRecentlyUsed(check);
      }
    }

    method CreateNewConnection(made: Option<Transport>, now: int) returns (transport: Option<Transport>)
      modifies this
      ensures transport == made
      ensures Current() == if made.Some? then Created(old(Current()), made.value, now) else old(Current())
    {
      if made.None? {
        return None;
      }
      connections := connections + [Connection(made.value, now, now, 0, true)];
      stats := stats.(total := stats.total + 1, created := stats.created + 1);
      if stats.total > stats.peak {
        stats := stats.(peak := stats.total);
      }
      return made;
    }

    /** One round of the loop in acquire: the transport, if there is one to be had. */
    method TryAcquire(check: Transport -> Check, draw: nat, made: Option<Transport>, now: int) returns (transport: Option<Transport>)
      modifies this
      ensures Tries(config, old(Current()), Current(), check, made, now, transport)
    {
      hide Selectable, TestedFailures, Available;
      ghost var before := Current();
      var k := Find(check, draw);
      FindsIsExact(config, before, Current(), check, k);
      if k.Some? {
        var t := Take(k.value, now);
        transport := Some(t);
      } else if |connections| < config.maxPoolSize {
        transport := CreateNewConnection(made, now);
      } else {
        transport := None;
      }
      if transport.Some? {
        stats := stats.(acquisitions := stats.acquisitions + 1, active := stats.active + 1);
      }
    }

    method CountTimeout()
      modifies this`stats
      ensures Current() == old(Current()).(stats := old(stats).(timeouts := old(stats).timeouts + 1))
    {
      stats := stats.(timeouts := stats.timeouts + 1);
    }

    method ReleaseConnection(transport: Transport, check: Check, now: int)
      modifies this
      ensures Current() == Released(config, old(Current()), transport, check, now)
    {
      var valid := !(config.validatesReturns && check == Invalid);
      if !valid {
        stats := stats.(validationFailures := stats.validationFailures + 1);
      }
      var k := 0;
      while k < |connections| && connections[k].transport != transport
        invariant 0 <= k <= |connections|
        invariant forall j :: 0 <= j < k ==> connections[j].transport != transport
      {
        k := k + 1;
      }
      if k < |connections| {
        IndexAt(connections, transport, k);
        if valid && check != Disconnected {
          connections := connections[k := connections[k].(inUse := false, lastUsed := now)];
          stats := stats.(active := stats.active - 1, idle := stats.idle + 1);
        } else {
          connections := Erased(connections, k);
          stats := stats.(total := stats.total - 1, active := stats.active - 1, destroyed := stats.destroyed + 1);
        }
        stats := stats.(releases := stats.releases + 1);
      }
    }

    method EvictIdleConnections(now: int) returns (evicted: nat)
      modifies this
      ensures Current() == IdleEvicted(config, old(Current()), now)
      ensures evicted == |old(connections)| - |connections|
    {
      hide KeptBusy, KeptYoung, Erased;
      ghost var before := Current();
      NothingLeft(config, connections, now);
      evicted := 0;
      var i := 0;
      while i < |connections|
        invariant 0 <= i <= |connections| && evicted == |before.connections| - |connections|
        invariant connections[..i] + KeptBusy(config, connections[i..], |connections|, now)
                  == KeptBusy(config, before.connections, |before.connections|, now)
        invariant nextIndex == before.nextIndex
        invariant stats == Destroyed(before.stats, evicted).(evictedIdle := before.stats.evictedIdle + evicted)
        decreases |connections| - i
      {
        KeptBusyNext(config, connections, i, |connections|, now);
        if !connections[i].inUse && Milliseconds(now - connections[i].lastUsed) >= config.maxIdleTime
           && |connections| > config.minPoolSize {
          OneLess(connections, i);
          connections := Erased(connections, i);
          stats := stats.(total := stats.total - 1, idle := stats.idle - 1, destroyed := stats.destroyed + 1,
                          evictedIdle := stats.evictedIdle + 1);
          evicted := evicted + 1;
        } else {
          i := i + 1;
        }
      }
      NothingLeft(config, connections, now);
    }

    method EvictExpiredConnections(now: int) returns (evicted: nat)
      modifies this
      ensures Current() == ExpiredEvicted(config, old(Current()), now)
      ensures evicted == |old(connections)| - |connections|
    {
      hide KeptYoung, KeptBusy, Erased;
      ghost var before := Current();
      NothingLeft(config, connections, now);
      evicted := 0;
      var i := 0;
      while i < |connections|
        invariant 0 <= i <= |connections| && evicted == |before.connections| - |connections|
        invariant connections[..i] + KeptYoung(config, connections[i..], now) == KeptYoung(config, before.connections, now)
        invariant nextIndex == before.nextIndex
        invariant stats == Destroyed(before.stats, evicted).(evictedLifetime := before.stats.evictedLifetime + evicted)
        decreases |connections| - i
      {
        KeptYoungNext(config, connections, i, now);
        if Milliseconds(now - connections[i].created) >= config.maxLifetime && !connections[i].inUse {
          OneLess(connections, i);
          connections := Erased(connections, i);
          stats := stats.(total := stats.total - 1, idle := stats.idle - 1, destroyed := stats.destroyed + 1,
                          evictedLifetime := stats.evictedLifetime + 1);
          evicted := evicted + 1;
        } else {
          i := i + 1;
        }
      }
      NothingLeft(config, connections, now);
    }

    method CloseAll() returns (closed: nat)
      modifies this
      ensures Current() == ClosedAll(old(Current())) && closed == |old(connections)|
    {
      closed := 0;
      while closed < |connections|
        invariant 0 <= closed <= |connections| && connections == old(connections) && nextIndex == old(nextIndex)
        invariant stats == old(stats).(destroyed := old(stats).destroyed + closed)
      {
        stats := stats.(destroyed := stats.destroyed + 1);
        closed := closed + 1;
      }
      connections := [];
      stats := stats.(total := 0, idle := 0, active := 0);
    }

    /** `made` is what the factory gives for each wanted connection. */
    method Prepopulate(made: seq<Option<Transport>>, now: int) returns (created: nat)
      modifies this
      ensures Current() == AllPopulated(config, old(Current()), made, now)
      ensures created == |connections| - |old(connections)|
    {
      created := 0;
      var i := 0;
      while i < |made|
        invariant 0 <= i <= |made|
        invariant Current() == AllPopulated(config, old(Current()), made[..i], now)
        invariant created == |connections| - |old(connections)|
      {
        assert made[..i + 1][..i] == made[..i];
        if |connections| >= config.maxPoolSize {
          FullStaysFull(config, old(Current()), made, i, now);
          return;
        }
        var t := CreateNewConnection(made[i], now);
        if t.Some? {
          var last := |connections| - 1;
          ghost var was := connections[..last];
          connections := connections[last := connections[last].(inUse := false)];
          assert connections == was + [connections[last]];
          stats := stats.(idle := stats.idle + 1);
          created := created + 1;
        }
        i := i + 1;
      }
      assert made[..i] == made;
    }
  }

  lemma {:induction false} FullStaysFull(config: Config, pool: Pool, made: seq<Option<Transport>>, i: nat, now: int)
    requires i <= |made| && |AllPopulated(config, pool, made[..i], now).connections| >= config.maxPoolSize
    ensures AllPopulated(config, pool, made, now) == AllPopulated(config, pool, made[..i], now)
    decreases |made| - i
  {
    if i < |made| {
      assert made[..i + 1][..i] == made[..i];
      FullStaysFull(config, pool, made, i + 1, now);
    } else {
      assert made[..i] == made;
    }
  }

  /** A handle, as the caller of acquire gets it. */
  class PooledConnection {
    var transport: Option<Transport>
    var released: bool
    var pool: EndpointPool

    constructor (transport: Option<Transport>, pool: EndpointPool)
      ensures this.transport == transport && !released && this.pool == pool
    {
      this.transport, this.released, this.pool := transport, false, pool;
    }

    /** The transport goes back to its pool the first time, and nothing happens afterwards. */
    method Release(check: Check, now: int)
      modifies this, pool
      ensures (transport.Some? ==> released) && (old(released) ==> released) && transport == old(transport) && pool == old(pool)
      ensures pool.Current() == if !old(released) && old(transport).Some?
                                then Released(pool.config, old(pool.Current()), old(transport).value, check, now)
                                else old(pool.Current())
    {
      if !released && transport.Some? {
        pool.ReleaseConnection(transport.value, check, now);
        released := true;
      }
    }

    /** Move assignment gives back what this handle held and takes over what the other one holds. */
    method MoveFrom(other: PooledConnection, check: Check, now: int)
      modifies this, other, pool
      ensures transport == old(other.transport) && released == old(other.released) && pool == old(other.pool)
      ensures other != this ==> other.transport == None && other.released
      ensures old(pool).Current() == if other != this && !old(released) && old(transport).Some?
                                     then Released(old(pool).config, old(pool.Current()), old(transport).value, check, now)
                                     else old(pool.Current())
    {
      if other == this {
        return;
      }
      Release(check, now);
      transport, released, pool := other.transport, other.released, other.pool;
      other.transport, other.released := None, true;
    }
  }
}
