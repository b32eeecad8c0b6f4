/** Runs of a pool and of the handles given out on it
    (workspace/src/framework/impl/ipc/connection_pool.cpp:48-127, 209-293, 356-504, 707-773). */
module PoolRuns {
  import opened Wrappers
  import opened ConnectionPools

  /** A handle on a transport.  `ticket` numbers the acquisition it came from; no step reads it. */
  datatype Handle = Handle(transport: Option<Transport>, released: bool, ticket: nat)
  {
    predicate Live() {
      !released && transport.Some?
    }
  }

  /** What a move leaves behind. */
  const MOVED: Handle := Handle(None, true, 0)

  /** `returned` lists the acquisitions given back to the pool; no step reads it. */
  datatype State = State(pool: Pool, handles: seq<Handle>, returned: seq<nat>)

  datatype Step =
    | Acquire(tests: Transport -> Check, made: Option<Transport>, now: int, result: Option<Transport>)
    | TimeOut
    | Release(i: nat, check: Check, now: int)           // release(), or the destructor
    | MoveConstruct(j: nat)
    | MoveAssign(i: nat, j: nat, check: Check, now: int)
    | Prepopulate(batch: seq<Option<Transport>>, now: int)
    | EvictIdle(now: int)
    | EvictExpired(now: int)
    | CloseAll

  predicate Holds(handles: seq<Handle>, i: nat, t: Transport) {
    i < |handles| && handles[i].Live() && handles[i].transport == Some(t)
  }

  ghost predicate Held(handles: seq<Handle>, t: Transport) {
    exists i: nat :: Holds(handles, i, t)
  }

  predicate Has(conns: seq<Connection>, t: Transport) {
    exists k :: 0 <= k < |conns| && conns[k].transport == t
  }

  /** A new object is none of those that the pool or a handle refers to. */
  ghost predicate IsNew(s: State, t: Transport) {
    !Has(s.pool.connections, t) && !Held(s.handles, t)
  }

  ghost predicate AllNew(s: State, made: seq<Option<Transport>>) {
    && (forall i :: 0 <= i < |made| && made[i].Some? ==> IsNew(s, made[i].value))
    && (forall i, j :: 0 <= i < j < |made| && made[i].Some? ==> made[i] != made[j])
  }

  /** A handle gives its transport back the first time only. */
  function Returned(config: Config, s: State, i: nat, check: Check, now: int): State
    requires i < |s.handles|
  {
    var h := s.handles[i];
    if h.Live() then
      State(Released(config, s.pool, h.transport.value, check, now), s.handles[i := h.(released := true)], s.returned + [h.ticket])
    else s
  }

  ghost predicate NextStep(config: Config, s: State, s': State, step: Step) {
    match step
    case Acquire(tests, made, now, result) =>
      && (made.Some? ==> IsNew(s, made.value))
      && Tries(config, s.pool, s'.pool, tests, made, now, result)
      && s'.handles == s.handles + (if result.Some? then [Handle(result, false, s.pool.stats.acquisitions)] else [])
      && s'.returned == s.returned
    case TimeOut => s' == s.(pool := s.pool.(stats := s.pool.stats.(timeouts := s.pool.stats.timeouts + 1)))
    case Release(i, check, now) => i < |s.handles| && s' == Returned(config, s, i, check, now)
    case MoveConstruct(j) => j < |s.handles| && s' == s.(handles := s.handles[j := MOVED] + [s.handles[j]])
    case MoveAssign(i, j, check, now) =>
      && i < |s.handles| && j < |s.handles|
      && s' == if i == j then s
               else var r := Returned(config, s, i, check, now); r.(handles := r.handles[i := s.handles[j]][j := MOVED])
    case Prepopulate(batch, now) => AllNew(s, batch) && s' == s.(pool := AllPopulated(config, s.pool, batch, now))
    case EvictIdle(now) => s' == s.(pool := IdleEvicted(config, s.pool, now))
    case EvictExpired(now) => s' == s.(pool := ExpiredEvicted(config, s.pool, now))
    case CloseAll => s' == s.(pool := ClosedAll(s.pool))
  }

  // ---------------------------------------------------------------------------------------------
  // Counting
  // ---------------------------------------------------------------------------------------------

  function Busy(conns: seq<Connection>): (n: nat)
    ensures n <= |conns|
  {
    if conns == [] then 0 else (if conns[0].inUse then 1 else 0) + Busy(conns[1..])
  }

  lemma {:induction false} BusyOfBoth(a: seq<Connection>, b: seq<Connection>)
    ensures Busy(a + b) == Busy(a) + Busy(b)
  {
    if a == [] {
      assert a + b == b;
    } else {
      assert (a + b)[1..] == a[1..] + b;
      BusyOfBoth(a[1..], b);
    }
  }

  lemma BusyAround(conns: seq<Connection>, k: nat, c: Connection)
    requires k < |conns|
    ensures Busy(conns) == Busy(Erased(conns, k)) + (if conns[k].inUse then 1 else 0)
    ensures Busy(conns[k := c]) == Busy(Erased(conns, k)) + (if c.inUse then 1 else 0)
    ensures Busy(conns + [c]) == Busy(conns) + (if c.inUse then 1 else 0)
  {
    var a, b := conns[..k], conns[k + 1..];
    BusyOfBoth(a, b);
    BusyOfBoth(a, [conns[k]] + b);
    BusyOfBoth(a, [c] + b);
    BusyOfBoth(conns, [c]);
    assert conns == a + ([conns[k]] + b) && conns[k := c] == a + ([c] + b);
    assert ([conns[k]] + b)[1..] == b && ([c] + b)[1..] == b && [c][1..] == [];
  }

  lemma BusyAppend(conns: seq<Connection>, c: Connection)
    ensures Busy(conns + [c]) == Busy(conns) + (if c.inUse then 1 else 0)
  {
    BusyOfBoth(conns, [c]);
    assert [c][1..] == [];
  }

  ghost predicate DistinctTransports(conns: seq<Connection>) {
    forall i, j :: 0 <= i < j < |conns| ==> conns[i].transport != conns[j].transport
  }

  /** What eviction keeps of some connections: every one in use, and no two that were one before. */
  ghost predicate Keeps(conns: seq<Connection>, kept: seq<Connection>) {
    && Busy(kept) == Busy(conns)
    && (forall c :: c in kept ==> c in conns)
    && (forall c :: c in conns && c.inUse ==> c in kept)
    && (DistinctTransports(conns) ==> DistinctTransports(kept))
  }

  lemma KeepsSkip(conns: seq<Connection>, kept: seq<Connection>)
    requires conns != [] && !conns[0].inUse && Keeps(conns[1..], kept)
    ensures Keeps(conns, kept)
  {
  }

  lemma KeepsHead(conns: seq<Connection>, kept: seq<Connection>)
    requires conns != [] && Keeps(conns[1..], kept)
    ensures Keeps(conns, [conns[0]] + kept)
  {
    var all := [conns[0]] + kept;
    assert all[1..] == kept;
    if DistinctTransports(conns) {
      forall i, j | 0 <= i < j < |all|
        ensures all[i].transport != all[j].transport
      {
        assert all[j] == kept[j - 1] && kept[j - 1] in conns[1..];
        assert i > 0 ==> all[i] == kept[i - 1];
        var m :| 0 <= m < |conns[1..]| && conns[1..][m] == all[j];
        assert conns[m + 1] == all[j];
      }
    }
  }

  lemma {:induction false} IdleEvictionKeeps(config: Config, conns: seq<Connection>, size: nat, now: int)
    requires size >= |conns|
    ensures Keeps(conns, KeptBusy(config, conns, size, now))
  {
    hide Keeps;
    if conns == [] {
      NothingKept();
    } else if IdleTooLong(config, conns[0], now) && size > config.minPoolSize {
      IdleEvictionKeeps(config, conns[1..], size - 1, now);
      KeepsSkip(conns, KeptBusy(config, conns[1..], size - 1, now));
    } else {
      IdleEvictionKeeps(config, conns[1..], size, now);
      KeepsHead(conns, KeptBusy(config, conns[1..], size, now));
    }
  }

  lemma {:induction false} ExpiredEvictionKeeps(config: Config, conns: seq<Connection>, now: int)
    ensures Keeps(conns, KeptYoung(config, conns, now))
  {
    hide Keeps;
    if conns == [] {
      NothingKept();
    } else if Outlived(config, conns[0], now) {
      ExpiredEvictionKeeps(config, conns[1..], now);
      KeepsSkip(conns, KeptYoung(config, conns[1..], now));
    } else {
      ExpiredEvictionKeeps(config, conns[1..], now);
      KeepsHead(conns, KeptYoung(config, conns[1..], now));
    }
  }

  lemma NothingKept()
    ensures Keeps([], [])
  {
  }

  // ---------------------------------------------------------------------------------------------
  // What every step keeps
  // ---------------------------------------------------------------------------------------------

  ghost predicate CountersAgree(config: Config, pool: Pool) {
    var stats := pool.stats;
    && stats.total == |pool.connections| == stats.created - stats.destroyed
    && |pool.connections| <= config.maxPoolSize
    && stats.active == Busy(pool.connections)
    && stats.idle == |pool.connections| - Busy(pool.connections)
    && stats.peak >= stats.total
    && stats.acquisitions - stats.releases >= stats.active
  }

  /** No transport is in the pool twice or held twice, and the connections in use are those held. */
  ghost predicate Exclusive(conns: seq<Connection>, handles: seq<Handle>) {
    && DistinctTransports(conns)
    && (forall i: nat, j: nat, t :: Holds(handles, i, t) && Holds(handles, j, t) ==> i == j)
    && (forall k :: 0 <= k < |conns| ==> (conns[k].inUse <==> Held(handles, conns[k].transport)))
  }

  /** Live handles come from different acquisitions, none of them given back yet. */
  ghost predicate Tickets(s: State) {
    && (forall i :: 0 <= i < |s.handles| && s.handles[i].Live() ==>
          s.handles[i].ticket < s.pool.stats.acquisitions && s.handles[i].ticket !in s.returned)
    && (forall i, j :: 0 <= i < j < |s.handles| && s.handles[i].Live() && s.handles[j].Live() ==>
          s.handles[i].ticket != s.handles[j].ticket)
    && (forall k :: 0 <= k < |s.returned| ==> s.returned[k] < s.pool.stats.acquisitions)
    && (forall k, m :: 0 <= k < m < |s.returned| ==> s.returned[k] != s.returned[m])
  }

  ghost predicate Inv(config: Config, s: State) {
    CountersAgree(config, s.pool) && Exclusive(s.pool.connections, s.handles) && Tickets(s)
  }

  // Connections and handles

  lemma HeldWithOneMore(handles: seq<Handle>, h: Handle, t: Transport)
    ensures Held(handles + [h], t) <==> Held(handles, t) || (h.Live() && h.transport == Some(t))
  {
    var more := handles + [h];
    if Held(handles, t) {
      var i: nat :| Holds(handles, i, t);
      assert Holds(more, i, t);
    }
    if h.Live() && h.transport == Some(t) {
      assert Holds(more, |handles|, t);
    }
    if Held(more, t) {
      var i: nat :| Holds(more, i, t);
      assert i < |handles| ==> Holds(handles, i, t);
    }
  }

  /** A connection is handed out: it becomes used, and a new handle holds it. */
  lemma {:induction false} HandOutKeepsExclusive(conns: seq<Connection>, handles: seq<Handle>, k: nat, c: Connection, ticket: nat)
    requires Exclusive(conns, handles) && k < |conns| && !conns[k].inUse
    requires c.inUse && c.transport == conns[k].transport
    ensures Exclusive(conns[k := c], handles + [Handle(Some(c.transport), false, ticket)])
  {
    var h := Handle(Some(c.transport), false, ticket);
    AddedHandleIsAlone(handles, h);
    forall j | 0 <= j < |conns|
      ensures conns[k := c][j].inUse <==> Held(handles + [h], conns[j].transport)
    {
      HeldWithOneMore(handles, h, conns[j].transport);
    }
  }

  lemma AddedHandleIsAlone(handles: seq<Handle>, h: Handle)
    requires h.Live() && !Held(handles, h.transport.value)
    requires forall i: nat, j: nat, t :: Holds(handles, i, t) && Holds(handles, j, t) ==> i == j
    ensures forall i: nat, j: nat, t :: Holds(handles + [h], i, t) && Holds(handles + [h], j, t) ==> i == j
  {
    forall i: nat, j: nat, t | Holds(handles + [h], i, t) && Holds(handles + [h], j, t)
      ensures i == j
    {
      assert i < |handles| ==> Holds(handles, i, t);
      assert j < |handles| ==> Holds(handles, j, t);
    }
  }

  /** A new connection comes with a new handle, or idle and without one. */
  lemma {:induction false} AddKeepsExclusive(conns: seq<Connection>, handles: seq<Handle>, c: Connection, ticket: nat)
    requires Exclusive(conns, handles) && !Has(conns, c.transport) && !Held(handles, c.transport)
    ensures c.inUse ==> Exclusive(conns + [c], handles + [Handle(Some(c.transport), false, ticket)])
    ensures !c.inUse ==> Exclusive(conns + [c], handles)
  {
    var h := Handle(Some(c.transport), false, ticket);
    AddedHandleIsAlone(handles, h);
    forall j | 0 <= j < |conns|
      ensures conns[j].transport != c.transport
      ensures Held(handles + [h], conns[j].transport) <==> Held(handles, conns[j].transport)
    {
      HeldWithOneMore(handles, h, conns[j].transport);
    }
    HeldWithOneMore(handles, h, c.transport);
  }

  /** Letting go of handle `i` leaves the others holding what they held. */
  lemma {:induction false} HeldAfterRelease(handles: seq<Handle>, i: nat, t: Transport)
    requires i < |handles| && handles[i].Live()
    requires forall a: nat, b: nat, t :: Holds(handles, a, t) && Holds(handles, b, t) ==> a == b
    ensures var after := handles[i := handles[i].(released := true)];
            Held(after, t) <==> Held(handles, t) && handles[i].transport != Some(t)
  {
    var after := handles[i := handles[i].(released := true)];
    if Held(after, t) {
      var a: nat :| Holds(after, a, t);
      assert Holds(handles, a, t) && a != i;
      assert handles[i].transport == Some(t) ==> Holds(handles, i, t);
    }
    if Held(handles, t) && handles[i].transport != Some(t) {
      var a: nat :| Holds(handles, a, t);
      assert Holds(after, a, t);
    }
  }

  lemma {:induction false} ReleaseKeepsExclusive(conns: seq<Connection>, handles: seq<Handle>, i: nat, k: nat, c: Connection)
    requires Exclusive(conns, handles) && i < |handles| && handles[i].Live()
    requires k == IndexOf(conns, handles[i].transport.value)
    requires !c.inUse && c.transport == handles[i].transport.value
    ensures var after := handles[i := handles[i].(released := true)];
            && (k == |conns| ==> Exclusive(conns, after))
            && (k < |conns| ==> conns[k].inUse && Exclusive(conns[k := c], after) && Exclusive(Erased(conns, k), after))
  {
    var t := handles[i].transport.value;
    var after := handles[i := handles[i].(released := true)];
    assert Holds(handles, i, t);
    assert Held(handles, t);
    forall a: nat, b: nat, u | Holds(after, a, u) && Holds(after, b, u)
      ensures a == b
    {
      assert Holds(handles, a, u) && Holds(handles, b, u);
    }
    forall j | 0 <= j < |conns|
      ensures Held(after, conns[j].transport) <==> Held(handles, conns[j].transport) && conns[j].transport != t
    {
      HeldAfterRelease(handles, i, conns[j].transport);
    }
    if k < |conns| {
      forall j | 0 <= j < |conns| && j != k
        ensures conns[j].transport != t
      {
        assert conns[k].transport == t;
      }
    }
  }

  /** Handles may change places. */
  lemma {:induction false} MoveKeepsExclusive(conns: seq<Connection>, before: seq<Handle>, after: seq<Handle>, from: nat, to: nat)
    requires Exclusive(conns, before) && from < |before| && to < |after| && from < |after| && from != to
    requires after[to] == before[from] && !after[from].Live()
    requires to < |before| ==> !before[to].Live()
    requires forall i :: 0 <= i < |before| && i < |after| && i != from && i != to ==> after[i] == before[i]
    requires |before| <= |after| <= |before| + 1 && (|after| > |before| ==> to == |before|)
    ensures Exclusive(conns, after)
  {
    forall t
      ensures Held(after, t) <==> Held(before, t)
    {
      if Held(after, t) {
        var i: nat :| Holds(after, i, t);
        assert Holds(before, if i == to then from else i, t);
      }
      if Held(before, t) {
        var i: nat :| Holds(before, i, t);
        assert Holds(after, if i == from then to else i, t);
      }
    }
    forall i: nat, j: nat, t | Holds(after, i, t) && Holds(after, j, t)
      ensures i == j
    {
      assert Holds(before, if i == to then from else i, t);
      assert Holds(before, if j == to then from else j, t);
    }
  }

  lemma {:induction false} KeptAreExclusive(conns: seq<Connection>, kept: seq<Connection>, handles: seq<Handle>)
    requires Exclusive(conns, handles) && Keeps(conns, kept)
    ensures Exclusive(kept, handles)
  {
    forall k | 0 <= k < |kept|
      ensures kept[k].inUse <==> Held(handles, kept[k].transport)
    {
      assert kept[k] in conns;
    }
  }

  // Steps

  lemma TakenCounts(config: Config, pool: Pool, k: nat, now: int, failures: nat)
    requires CountersAgree(config, pool) && k < |pool.connections| && !pool.connections[k].inUse
    ensures CountersAgree(config, Acquired(Taken(config, WithFailures(pool, failures), k, now)))
  {
    var conn := pool.connections[k];
    BusyAround(pool.connections, k, conn.(inUse := true, useCount := conn.useCount + 1, lastUsed := now));
  }

  lemma CreatedCounts(config: Config, pool: Pool, t: Transport, now: int, failures: nat)
    requires CountersAgree(config, pool) && |pool.connections| < config.maxPoolSize
    ensures CountersAgree(config, Acquired(Created(WithFailures(pool, failures), t, now)))
    ensures CountersAgree(config, Populated(pool, t, now))
  {
    BusyAppend(pool.connections, Connection(t, now, now, 0, true));
    BusyAppend(pool.connections, Connection(t, now, now, 0, false));
  }

  lemma AcquireKeepsInv(config: Config, s: State, s': State, step: Step)
    requires Inv(config, s) && NextStep(config, s, s', step) && step.Acquire?
    ensures Inv(config, s')
  {
    hide TestedFailures, Busy;
    var Acquire(tests, made, now, result) := step;
    var ticket := s.pool.stats.acquisitions;
    if exists k: nat :: Selectable(config, s.pool, tests, k) {
      var k: nat :| Selectable(config, s.pool, tests, k) && result == Some(s.pool.connections[k].transport) &&
                    s'.pool == Acquired(Taken(config, WithFailures(s.pool, TestedFailures(config, s.pool, tests, Some(k))), k, now));
      TakenCounts(config, s.pool, k, now, TestedFailures(config, s.pool, tests, Some(k)));
      HandOutKeepsExclusive(s.pool.connections, s.handles, k, s'.pool.connections[k], ticket);
    } else if result.Some? {
      CreatedCounts(config, s.pool, made.value, now, TestedFailures(config, s.pool, tests, None));
      AddKeepsExclusive(s.pool.connections, s.handles, Connection(made.value, now, now, 0, true), ticket);
    } else {
      assert s'.handles == s.handles;
    }
  }

  lemma ReleasedCounts(config: Config, pool: Pool, t: Transport, check: Check, now: int)
    requires CountersAgree(config, pool)
    requires var k := IndexOf(pool.connections, t); k < |pool.connections| ==> pool.connections[k].inUse
    ensures CountersAgree(config, Released(config, pool, t, check, now))
  {
    var k := IndexOf(pool.connections, t);
    if k < |pool.connections| {
      BusyAround(pool.connections, k, pool.connections[k].(inUse := false, lastUsed := now));
    }
  }

  lemma ReturnedKeepsInv(config: Config, s: State, i: nat, check: Check, now: int)
    requires Inv(config, s) && i < |s.handles|
    ensures Inv(config, Returned(config, s, i, check, now)) && !Returned(config, s, i, check, now).handles[i].Live()
  {
    hide Busy;
    var h := s.handles[i];
    if h.Live() {
      var t := h.transport.value;
      var k := IndexOf(s.pool.connections, t);
      var c := Connection(t, if k < |s.pool.connections| then s.pool.connections[k].created else now, now,
                          if k < |s.pool.connections| then s.pool.connections[k].useCount else 0, false);
      ReleaseKeepsExclusive(s.pool.connections, s.handles, i, k, c);
      ReleasedCounts(config, s.pool, t, check, now);
    }
  }

  lemma MoveKeepsTickets(s: State, after: seq<Handle>, from: nat, to: nat)
    requires Tickets(s) && from < |s.handles| && to < |after| && from < |after| && from != to
    requires after[to] == s.handles[from] && !after[from].Live()
    requires forall i :: 0 <= i < |s.handles| && i < |after| && i != from && i != to ==> after[i] == s.handles[i]
    requires |s.handles| <= |after| <= |s.handles| + 1 && (|after| > |s.handles| ==> to == |s.handles|)
    ensures Tickets(s.(handles := after))
  {
    forall i, j | 0 <= i < j < |after| && after[i].Live() && after[j].Live()
      ensures after[i].ticket != after[j].ticket
    {
      var a, b := if i == to then from else i, if j == to then from else j;
      assert s.handles[a].Live() && s.handles[b].Live() && a != b;
    }
  }

  lemma MoveAssignKeepsInv(config: Config, s: State, s': State, step: Step)
    requires Inv(config, s) && NextStep(config, s, s', step) && step.MoveAssign?
    ensures Inv(config, s')
  {
    hide CountersAgree, Released;
    var MoveAssign(i, j, check, now) := step;
    if i != j {
      ReturnedKeepsInv(config, s, i, check, now);
      var r := Returned(config, s, i, check, now);
      MoveKeepsExclusive(r.pool.connections, r.handles, s'.handles, j, i);
      MoveKeepsTickets(r, s'.handles, j, i);
    }
  }

  lemma MoveConstructKeepsInv(config: Config, s: State, s': State, step: Step)
    requires Inv(config, s) && NextStep(config, s, s', step) && step.MoveConstruct?
    ensures Inv(config, s')
  {
    hide CountersAgree;
    MoveKeepsExclusive(s.pool.connections, s.handles, s'.handles, step.j, |s.handles|);
    MoveKeepsTickets(s, s'.handles, step.j, |s.handles|);
  }

  lemma EvictionKeepsInv(config: Config, s: State, s': State, step: Step)
    requires Inv(config, s) && NextStep(config, s, s', step) && (step.EvictIdle? || step.EvictExpired? || step.CloseAll?)
    ensures Inv(config, s')
  {
    var conns := s.pool.connections;
    match step {
      case EvictIdle(now) =>
        IdleEvictionKeeps(config, conns, |conns|, now);
        KeptAreExclusive(conns, s'.pool.connections, s.handles);
      case EvictExpired(now) =>
        ExpiredEvictionKeeps(config, conns, now);
        KeptAreExclusive(conns, s'.pool.connections, s.handles);
      case CloseAll =>
    }
  }

  lemma {:induction false} PopulatedTransports(config: Config, pool: Pool, batch: seq<Option<Transport>>, now: int, t: Transport)
    requires Has(AllPopulated(config, pool, batch, now).connections, t)
    ensures Has(pool.connections, t) || Some(t) in batch
  {
    if batch != [] {
      var front, last := batch[..|batch| - 1], batch[|batch| - 1];
      var before := AllPopulated(config, pool, front, now);
      if Has(before.connections, t) {
        PopulatedTransports(config, pool, front, now, t);
      } else {
        assert last == Some(t);
      }
    }
  }

  /** The last transport of a batch is still new when the others have joined the pool. */
  lemma LastIsNew(config: Config, s: State, batch: seq<Option<Transport>>, now: int)
    requires AllNew(s, batch) && batch != [] && batch[|batch| - 1].Some?
    ensures var t := batch[|batch| - 1].value;
            !Has(AllPopulated(config, s.pool, batch[..|batch| - 1], now).connections, t) && !Held(s.handles, t)
  {
    hide AllPopulated;
    var front, t := batch[..|batch| - 1], batch[|batch| - 1].value;
    assert IsNew(s, t);
    assert forall i :: 0 <= i < |front| ==> front[i] == batch[i];
    assert Some(t) !in front;
    if Has(AllPopulated(config, s.pool, front, now).connections, t) {
      PopulatedTransports(config, s.pool, front, now, t);
    }
  }

  lemma {:induction false} PrepopulateKeepsInv(config: Config, s: State, batch: seq<Option<Transport>>, now: int)
    requires Inv(config, s) && AllNew(s, batch)
    ensures Inv(config, s.(pool := AllPopulated(config, s.pool, batch, now)))
    ensures AllPopulated(config, s.pool, batch, now).stats.acquisitions == s.pool.stats.acquisitions
  {
    hide Busy;
    if batch != [] {
      var front, last := batch[..|batch| - 1], batch[|batch| - 1];
      PrepopulateKeepsInv(config, s, front, now);
      var before := AllPopulated(config, s.pool, front, now);
      if |before.connections| < config.maxPoolSize && last.Some? {
        LastIsNew(config, s, batch, now);
        CreatedCounts(config, before, last.value, now, 0);
        AddKeepsExclusive(before.connections, s.handles, Connection(last.value, now, now, 0, false), 0);
      }
    }
  }

  lemma NextKeepsInv(config: Config, s: State, s': State, step: Step)
    requires Inv(config, s) && NextStep(config, s, s', step)
    ensures Inv(config, s')
  {
    match step {
      case Acquire(_, _, _, _) => AcquireKeepsInv(config, s, s', step);
      case TimeOut =>
      case Release(i, check, now) => ReturnedKeepsInv(config, s, i, check, now);
      case MoveConstruct(_) => MoveConstructKeepsInv(config, s, s', step);
      case MoveAssign(_, _, _, _) => MoveAssignKeepsInv(config, s, s', step);
      case Prepopulate(batch, now) => PrepopulateKeepsInv(config, s, batch, now);
      case EvictIdle(_) => EvictionKeepsInv(config, s, s', step);
      case EvictExpired(_) => EvictionKeepsInv(config, s, s', step);
      case CloseAll => EvictionKeepsInv(config, s, s', step);
    }
  }

  // ---------------------------------------------------------------------------------------------
  // Runs
  // ---------------------------------------------------------------------------------------------

  ghost predicate Next(config: Config, s: State, s': State) {
    exists step :: NextStep(config, s, s', step)
  }

  ghost predicate IsRun(config: Config, run: seq<State>) {
    && run != [] && run[0] == State(EMPTY, [], [])
    && forall k: nat | k + 1 < |run| :: Next(config, run[k], run[k + 1])
  }

  lemma StartHolds(config: Config)
    ensures Inv(config, State(EMPTY, [], []))
  {
  }

  lemma {:induction false} RunKeepsInv(config: Config, run: seq<State>, k: nat)
    requires IsRun(config, run) && k < |run|
    ensures Inv(config, run[k])
  {
    hide NextStep, Inv;
    if k == 0 {
      StartHolds(config);
    } else {
      RunKeepsInv(config, run, k - 1);
      assert Next(config, run[k - 1], run[k - 1 + 1]);
      var step :| NextStep(config, run[k - 1], run[k], step);
      NextKeepsInv(config, run[k - 1], run[k], step);
    }
  }

  function IdleIn(conns: seq<Connection>): nat {
    |conns| - Busy(conns)
  }

  /** In every run the counters say what the pool holds, none is ever below zero, and the pool stays
      within its limit. */
  lemma CountersDescribeThePool(config: Config, run: seq<State>, k: nat)
    requires IsRun(config, run) && k < |run|
    ensures var pool := run[k].pool; var stats := pool.stats;
            && stats.total == |pool.connections| == stats.created - stats.destroyed && stats.total <= config.maxPoolSize
            && stats.active == Busy(pool.connections) && stats.idle == IdleIn(pool.connections)
            && stats.total == stats.active + stats.idle
            && 0 <= stats.active <= stats.acquisitions - stats.releases && 0 <= stats.idle && stats.total <= stats.peak
  {
    hide NextStep;
    RunKeepsInv(config, run, k);
  }

  /** In every run no two live handles share a transport, no connection is in the pool twice, and a
      connection is in use exactly when a live handle holds it. */
  lemma ConnectionsAreNotShared(config: Config, run: seq<State>, k: nat, i: nat, j: nat)
    requires IsRun(config, run) && k < |run| && i < |run[k].handles| && j < |run[k].handles|
    requires run[k].handles[i].Live() && run[k].handles[j].Live() && run[k].handles[i].transport == run[k].handles[j].transport
    ensures i == j
    ensures forall m :: 0 <= m < |run[k].pool.connections| ==>
              (run[k].pool.connections[m].inUse <==> Held(run[k].handles, run[k].pool.connections[m].transport))
  {
    hide NextStep;
    RunKeepsInv(config, run, k);
    assert Holds(run[k].handles, i, run[k].handles[i].transport.value);
    assert Holds(run[k].handles, j, run[k].handles[i].transport.value);
  }

  /** However handles are moved about, no acquisition is given back to the pool twice. */
  lemma AcquisitionsReturnOnce(config: Config, run: seq<State>, k: nat, i: nat, j: nat)
    requires IsRun(config, run) && k < |run| && i < j < |run[k].returned|
    ensures run[k].returned[i] != run[k].returned[j]
  {
    hide NextStep;
    RunKeepsInv(config, run, k);
  }

  // ---------------------------------------------------------------------------------------------
  // Idle eviction
  // ---------------------------------------------------------------------------------------------

  /** Idle eviction never takes a pool below its minimum, and leaves a connection that has been idle too
      long only when the pool is at its minimum. */
  lemma {:induction false} IdleEvictionStopsAtMinimum(config: Config, conns: seq<Connection>, size: nat, now: int)
    requires size >= |conns|
    ensures var kept := KeptBusy(config, conns, size, now);
            var left := size - |conns| + |kept|;
            && (left < size ==> left >= config.minPoolSize)
            && ((exists c :: c in kept && IdleTooLong(config, c, now)) ==> left <= config.minPoolSize)
  {
    hide IdleTooLong;
    if conns != [] {
      if IdleTooLong(config, conns[0], now) && size > config.minPoolSize {
        IdleEvictionStopsAtMinimum(config, conns[1..], size - 1, now);
      } else {
        IdleEvictionStopsAtMinimum(config, conns[1..], size, now);
      }
    }
  }
}
