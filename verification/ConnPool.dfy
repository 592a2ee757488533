/**
 The connection pool (client/pool.go): each lock-held operation as a function on
 a `Pool` value, and a class that performs it on connection objects in place.
 Dial outcomes and connection health are inputs of every operation.
 */
module ConnPooling {
  import opened Options

  type ConnId = nat

  datatype Conn = Conn(id: ConnId, created: int, lastUsed: int, useCount: nat, inUse: bool)

  datatype PoolStats = PoolStats(total: int, active: int, idle: int, requests: nat, errors: nat)

  /** `dialled`, `shut` and `dropped` record which connections were ever made, closed, or forgotten while leased. */
  datatype Pool = Pool(
    conns: seq<Conn>, current: int, closed: bool, maxSize: int, minSize: int, stats: PoolStats,
    dialled: set<ConnId>, shut: set<ConnId>, dropped: set<ConnId>)

  datatype PoolConfig = PoolConfig(maxSize: int, minSize: int, healthCheck: int)

  /** Thirty seconds is 30000 milliseconds. */
  function Defaulted(c: PoolConfig): PoolConfig {
    var maxSize := if c.maxSize <= 0 then 10 else c.maxSize;
    var minSize := if c.minSize < 0 then 1 else c.minSize;
    PoolConfig(maxSize, if minSize > maxSize then maxSize else minSize,
               if c.healthCheck <= 0 then 30000 else c.healthCheck)
  }

  function EmptyPool(config: PoolConfig): Pool {
    var c := Defaulted(config);
    Pool([], 0, false, c.maxSize, c.minSize, PoolStats(0, 0, 0, 0, 0), {}, {}, {})
  }

  function NewConn(id: ConnId, now: int): Conn {
    Conn(id, now, now, 0, false)
  }

  /** A use stamps the connection and counts it. */
  function Used(c: Conn, now: int): Conn {
    c.(inUse := true, lastUsed := now, useCount := c.useCount + 1)
  }

  function Ids(conns: seq<Conn>): set<ConnId> {
    if conns == [] then {} else Ids(conns[..|conns| - 1]) + {conns[|conns| - 1].id}
  }

  // Construction.

  /** Dials until `n` connections exist; the second result says whether all dials succeeded. */
  function Populate(p: Pool, n: nat, dials: seq<Option<ConnId>>, now: int): (Pool, bool) {
    if n == 0 then (p, true)
    else
      var (q, ok) := Populate(p, n - 1, dials, now);
      if !ok || n > |dials| || dials[n - 1].None? then (q, false)
      else
        var id := dials[n - 1].value;
        (q.(conns := q.conns + [NewConn(id, now)], current := q.current + 1, dialled := q.dialled + {id}), true)
  }

  function NewPool(config: PoolConfig, dials: seq<Option<ConnId>>, now: int): (Pool, bool) {
    var p := EmptyPool(config);
    var (q, ok) := Populate(p, if p.minSize < 0 then 0 else p.minSize, dials, now);
    (if ok then q else ClosePool(q), ok)
  }

  // Get.

  datatype GetResult = Got(id: ConnId) | ErrPoolClosed | ErrDial | ErrNoConn

  predicate Usable(c: Conn, healthy: set<ConnId>) {
    !c.inUse && c.id in healthy
  }

  function FirstUsable(conns: seq<Conn>, healthy: set<ConnId>): (i: nat)
    ensures i <= |conns|
    ensures forall j :: 0 <= j < i ==> !Usable(conns[j], healthy)
    ensures i < |conns| ==> Usable(conns[i], healthy)
  {
    if conns == [] then 0
    else
      var i := FirstUsable(conns[..|conns| - 1], healthy);
      if i < |conns| - 1 then i
      else if Usable(conns[|conns| - 1], healthy) then |conns| - 1
      else |conns|
  }

  function GetFrom(p: Pool, healthy: set<ConnId>, dial: Option<ConnId>, now: int): (Pool, GetResult) {
    if p.closed then (p, ErrPoolClosed)
    else
      var requests := p.stats.requests + 1;
      var i := FirstUsable(p.conns, healthy);
      if i < |p.conns| then
        (p.(conns := p.conns[i := Used(p.conns[i], now)],
            stats := p.stats.(requests := requests, active := p.stats.active + 1, idle := p.stats.idle - 1)),
         Got(p.conns[i].id))
      else if p.current < p.maxSize && dial.Some? then
        (p.(conns := p.conns + [Used(NewConn(dial.value, now), now)], current := p.current + 1,
            stats := p.stats.(requests := requests, active := p.stats.active + 1),
            dialled := p.dialled + {dial.value}),
         Got(dial.value))
      else
        (p.(stats := p.stats.(requests := requests, errors := p.stats.errors + 1)),
         if p.current < p.maxSize then ErrDial else ErrNoConn)
  }

  /** The ways a request can go. */
  lemma GetCases(p: Pool, healthy: set<ConnId>, dial: Option<ConnId>, now: int)
    ensures var i, q := FirstUsable(p.conns, healthy), p.(stats := p.stats.(requests := p.stats.requests + 1));
            GetFrom(p, healthy, dial, now)
            == if p.closed then (p, ErrPoolClosed)
               else if i < |p.conns| then
                 (q.(conns := q.conns[i := Used(q.conns[i], now)],
                     stats := q.stats.(active := q.stats.active + 1, idle := q.stats.idle - 1)), Got(p.conns[i].id))
               else if q.current < q.maxSize && dial.Some? then
                 (q.(conns := q.conns + [Used(NewConn(dial.value, now), now)], current := q.current + 1,
                     stats := q.stats.(active := q.stats.active + 1), dialled := q.dialled + {dial.value}), Got(dial.value))
               else
                 (q.(stats := q.stats.(errors := q.stats.errors + 1)), if q.current < q.maxSize then ErrDial else ErrNoConn)
  {
  }

  // Put.

  function FirstWithId(conns: seq<Conn>, id: ConnId): (i: nat)
    ensures i <= |conns|
    ensures forall j :: 0 <= j < i ==> conns[j].id != id
    ensures i < |conns| ==> conns[i].id == id
  {
    if conns == [] then 0
    else
      var i := FirstWithId(conns[..|conns| - 1], id);
      if i < |conns| - 1 then i
      else if conns[|conns| - 1].id == id then |conns| - 1
      else |conns|
  }

  function PutBack(p: Pool, id: ConnId, now: int): Pool {
    var i := FirstWithId(p.conns, id);
    if p.closed || i == |p.conns| || !p.conns[i].inUse then p
    else
      p.(conns := p.conns[i := p.conns[i].(inUse := false, lastUsed := now)],
         stats := p.stats.(active := p.stats.active - 1, idle := p.stats.idle + 1))
  }

  // Close.

  function ClosePool(p: Pool): Pool {
    if p.closed then p
    else p.(closed := true, conns := [], current := 0, shut := p.shut + Ids(p.conns))
  }

  /** The statistics as a caller sees them. */
  function Published(p: Pool): PoolStats {
    p.stats.(total := p.current)
  }

  // Health check.

  function SweepOne(q: Pool, c: Conn, healthy: set<ConnId>): Pool {
    if c.id in healthy then q.(conns := q.conns + [c])
    else if !c.inUse then
      q.(current := q.current - 1, stats := q.stats.(idle := q.stats.idle - 1), shut := q.shut + {c.id})
    else q.(dropped := q.dropped + {c.id})
  }

  /** One pass over `conns`: keep the healthy, shut the idle, forget the leased. */
  function Sweep(p: Pool, conns: seq<Conn>, healthy: set<ConnId>): Pool {
    if conns == [] then p.(conns := [])
    else SweepOne(Sweep(p, conns[..|conns| - 1], healthy), conns[|conns| - 1], healthy)
  }

  lemma SweepNext(p: Pool, conns: seq<Conn>, i: nat, healthy: set<ConnId>)
    requires i < |conns|
    ensures Sweep(p, conns[..i + 1], healthy) == SweepOne(Sweep(p, conns[..i], healthy), conns[i], healthy)
  {
    assert conns[..i + 1][..i] == conns[..i];
  }

  function AddIdle(p: Pool, id: ConnId, now: int): Pool {
    p.(conns := p.conns + [NewConn(id, now)], current := p.current + 1,
       stats := p.stats.(idle := p.stats.idle + 1), dialled := p.dialled + {id})
  }

  /** Dials until `minSize` is reached or a dial fails; no further outcome counts as a failure. */
  function Refill(p: Pool, dials: seq<Option<ConnId>>, now: int): Pool
    decreases |dials|
  {
    if p.current < p.minSize && dials != [] && dials[0].Some? then
      Refill(AddIdle(p, dials[0].value, now), dials[1..], now)
    else p
  }

  function HealthRound(p: Pool, healthy: set<ConnId>, dials: seq<Option<ConnId>>, now: int): Pool {
    if p.closed then p else Refill(Sweep(p, p.conns, healthy), dials, now)
  }

  // The objects.

  class PoolConn {
    const id: ConnId
    const created: int
    var lastUsed: int
    var useCount: nat
    var inUse: bool

    constructor (id: ConnId, now: int)
      ensures Value() == NewConn(id, now)
    {
      this.id := id;
      created := now;
      lastUsed := now;
      useCount := 0;
      inUse := false;
    }

    function Value(): Conn
      reads this
    {
      Conn(id, created, lastUsed, useCount, inUse)
    }

    method Use(now: int)
      modifies this
      ensures Value() == Used(old(Value()), now)
    {
      inUse := true;
      lastUsed := now;
      useCount := useCount + 1;
    }
  }

  ghost function Values(conns: seq<PoolConn>): (vs: seq<Conn>)
    reads conns
    ensures |vs| == |conns|
    ensures forall i :: 0 <= i < |conns| ==> vs[i] == conns[i].Value()
  {
    seq(|conns|, i requires 0 <= i < |conns| reads conns => conns[i].Value())
  }

  ghost predicate Distinct(conns: seq<PoolConn>) {
    forall i, j :: 0 <= i < j < |conns| ==> conns[i] != conns[j]
  }

  lemma DistinctSnoc(conns: seq<PoolConn>, i: nat, kept: seq<PoolConn>)
    requires i < |conns| && Distinct(conns) && Distinct(kept) && forall c :: c in kept ==> c in conns[..i]
    ensures Distinct(kept + [conns[i]])
    ensures forall c :: c in kept + [conns[i]] ==> c in conns[..i + 1]
    ensures forall c :: c in kept ==> c in conns[..i + 1]
  {
    assert forall k :: 0 <= k < |kept| ==> kept[k] in conns[..i];
  }

  lemma ValuesSnoc(conns: seq<PoolConn>, c: PoolConn)
    ensures Values(conns + [c]) == Values(conns) + [c.Value()]
  {
  }

  class ConnPool {
    var conns: seq<PoolConn>
    var current: int
    var closed: bool
    var maxSize: int
    var minSize: int
    var healthCheck: int
    var stats: PoolStats
    ghost var dialled: set<ConnId>
    ghost var shut: set<ConnId>
    ghost var dropped: set<ConnId>

    ghost predicate Valid()
      reads this
    {
      Distinct(conns)
    }

    ghost function Abs(): Pool
      reads this, conns
    {
      AbsWith(Values(conns))
    }

    ghost function AbsWith(vs: seq<Conn>): Pool
      reads this
    {
      Pool(vs, current, closed, maxSize, minSize, stats, dialled, shut, dropped)
    }

    constructor (config: PoolConfig)
      ensures Valid() && conns == [] && Abs() == EmptyPool(config)
      ensures healthCheck == if config.healthCheck <= 0 then 30000 else config.healthCheck
    {
      var c := Defaulted(config);
      conns := [];
      current := 0;
      closed := false;
      maxSize := c.maxSize;
      minSize := c.minSize;
      healthCheck := c.healthCheck;
      stats := PoolStats(0, 0, 0, 0, 0);
      dialled, shut, dropped := {}, {}, {};
    }

    /** Dials: the new connection is not in the pool yet. */
    method CreateConn(id: ConnId, now: int) returns (conn: PoolConn)
      modifies this`dialled
      ensures fresh(conn) && conn.Value() == NewConn(id, now)
      ensures Abs() == old(Abs()).(dialled := old(dialled) + {id})
    {
      conn := new PoolConn(id, now);
      dialled := dialled + {id};
    }

    /** Appends a connection object that the pool does not hold yet. */
    method AddConn(conn: PoolConn)
      requires Valid() && conn !in conns
      modifies this`conns, this`current
      ensures Valid() && conns == old(conns) + [conn]
      ensures Abs() == old(Abs()).(conns := old(Abs()).conns + [conn.Value()], current := old(current) + 1)
    {
      ValuesSnoc(conns, conn);
      conns := conns + [conn];
      current := current + 1;
    }

    method AddNew(id: ConnId, now: int)
      requires Valid()
      modifies this`conns, this`current, this`dialled
      ensures Valid() && forall c :: c in conns ==> c in old(conns) || fresh(c)
      ensures var p := old(Abs());
              Abs() == p.(conns := p.conns + [NewConn(id, now)], current := p.current + 1, dialled := p.dialled + {id})
    {
      var conn := CreateConn(id, now);
      AddConn(conn);
    }

    /** Hands out the connection at index `i`. */
    method UseAt(i: nat, now: int)
      requires Valid() && i < |conns|
      modifies this`stats, conns[i]
      ensures Valid()
      ensures var p := old(Abs());
              Abs() == p.(conns := p.conns[i := Used(p.conns[i], now)],
                          stats := p.stats.(active := p.stats.active + 1, idle := p.stats.idle - 1))
    {
      ghost var before := Values(conns);
      conns[i].Use(now);
      assert Values(conns) == before[i := Used(before[i], now)];
      stats := stats.(active := stats.active + 1, idle := stats.idle - 1);
    }

    /** Dials a connection and hands it out at once. */
    method LeaseNew(id: ConnId, now: int)
      requires Valid()
      modifies this`conns, this`current, this`stats, this`dialled
      ensures Valid() && forall c :: c in conns ==> c in old(conns) || fresh(c)
      ensures var p := old(Abs());
              Abs() == p.(conns := p.conns + [Used(NewConn(id, now), now)], current := p.current + 1,
                          stats := p.stats.(active := p.stats.active + 1), dialled := p.dialled + {id})
    {
      var conn := CreateConn(id, now);
      conn.Use(now);
      AddConn(conn);
      stats := stats.(active := stats.active + 1);
    }

    /** The search loop: the first connection that is idle and healthy, or the number of connections. */
    method FindUsable(healthy: set<ConnId>) returns (i: nat)
      ensures i == FirstUsable(Values(conns), healthy)
    {
      i := 0;
      while i < |conns|
        invariant i <= |conns|
        invariant forall j :: 0 <= j < i ==> !Usable(Values(conns)[j], healthy)
      {
        if !conns[i].inUse && conns[i].id in healthy {
          return;
        }
        i := i + 1;
      }
    }

    /** Without a usable connection: dial within the limit, or fail. */
    method DialOrFail(dial: Option<ConnId>, now: int) returns (r: GetResult)
      requires Valid()
      modifies this`conns, this`current, this`stats, this`dialled
      ensures Valid() && forall c :: c in conns ==> c in old(conns) || fresh(c)
      ensures var p := old(Abs());
              if p.current < p.maxSize && dial.Some? then
                r == Got(dial.value)
                && Abs() == p.(conns := p.conns + [Used(NewConn(dial.value, now), now)], current := p.current + 1,
                               stats := p.stats.(active := p.stats.active + 1), dialled := p.dialled + {dial.value})
              else
                r == (if p.current < p.maxSize then ErrDial else ErrNoConn)
                && Abs() == p.(stats := p.stats.(errors := p.stats.errors + 1))
    {
      if current < maxSize {
        if dial.None? {
          stats := stats.(errors := stats.errors + 1);
          return ErrDial;
        }
        LeaseNew(dial.value, now);
        return Got(dial.value);
      }
      stats := stats.(errors := stats.errors + 1);
      return ErrNoConn;
    }

    method Get(healthy: set<ConnId>, dial: Option<ConnId>, now: int) returns (r: GetResult)
      requires Valid()
      modifies this, conns
      ensures Valid() && forall c :: c in conns ==> c in old(conns) || fresh(c)
      ensures (Abs(), r) == GetFrom(old(Abs()), healthy, dial, now)
    {
      GetCases(Abs(), healthy, dial, now);
      hide FirstUsable, Used, NewConn, Values, GetFrom;
      if closed {
        return ErrPoolClosed;
      }
      stats := stats.(requests := stats.requests + 1);
      var i := FindUsable(healthy);
      if i < |conns| {
        r := Got(conns[i].id);
        UseAt(i, now);
      } else {
        r := DialOrFail(dial, now);
      }
    }

    method Put(id: ConnId, now: int)
      requires Valid()
      modifies this, conns
      ensures Valid() && conns == old(conns)
      ensures Abs() == PutBack(old(Abs()), id, now)
    {
      if closed {
        return;
      }
      for i := 0 to |conns|
        invariant conns == old(conns) && Abs() == old(Abs())
        invariant forall j :: 0 <= j < i ==> conns[j].id != id
      {
        var conn := conns[i];
        if conn.id == id {
          assert i == FirstWithId(old(Values(conns)), id);
          if conn.inUse {
            conn.inUse := false;
            conn.lastUsed := now;
            stats := stats.(active := stats.active - 1, idle := stats.idle + 1);
            assert Values(conns)
                == old(Values(conns))[i := old(Values(conns))[i].(inUse := false, lastUsed := now)];
          }
          return;
        }
      }
      assert FirstWithId(old(Values(conns)), id) == |conns|;
    }

    method GetStats() returns (s: PoolStats)
      ensures s == Published(Abs())
    {
      s := stats.(total := current);
    }

    method Close()
      requires Valid()
      modifies this
      ensures Valid() && Abs() == ClosePool(old(Abs()))
    {
      if closed {
        return;
      }
      closed := true;
      for i := 0 to |conns|
        invariant shut == old(shut) + Ids(Values(conns)[..i])
        invariant conns == old(conns) && closed
        invariant Abs() == old(Abs()).(closed := true, shut := shut)
      {
        shut := shut + {conns[i].id};
        assert Values(conns)[..i + 1][..i] == Values(conns)[..i];
      }
      assert Values(conns)[..|conns|] == Values(conns);
      conns := [];
      current := 0;
    }

    /** The body of one tick of the health checker. */
    method CheckHealth(healthy: set<ConnId>, dials: seq<Option<ConnId>>, now: int)
      requires Valid()
      modifies this
      ensures Valid() && forall c :: c in conns ==> c in old(conns) || fresh(c)
      ensures Abs() == HealthRound(old(Abs()), healthy, dials, now)
    {
      if closed {
        return;
      }
      SweepConns(healthy);
      RefillConns(dials, now);
    }

    /** An unhealthy connection is shut when idle; when leased it is only forgotten. */
    method Discard(conn: PoolConn, ghost kept: seq<Conn>)
      modifies this`current, this`stats, this`shut, this`dropped
      ensures AbsWith(kept) == SweepOne(old(AbsWith(kept)), conn.Value(), {})
    {
      if !conn.inUse {
        shut := shut + {conn.id};
        current := current - 1;
        stats := stats.(idle := stats.idle - 1);
      } else {
        dropped := dropped + {conn.id};
      }
    }

    method SweepConns(healthy: set<ConnId>)
      requires Valid()
      modifies this
      ensures Valid() && forall c :: c in conns ==> c in old(conns)
      ensures Abs() == Sweep(old(Abs()), old(Abs()).conns, healthy)
    {
      var kept: seq<PoolConn> := [];
      ghost var p, all, keptAll := Abs(), Values(conns), [];
      for i := 0 to |conns|
        invariant conns == old(conns) && Values(conns) == all
        invariant Distinct(kept) && forall c :: c in kept ==> c in conns[..i]
        invariant Values(kept) == keptAll && AbsWith(keptAll) == Sweep(p, all[..i], healthy)
      {
        var conn := conns[i];
        SweepNext(p, all, i, healthy);
        DistinctSnoc(conns, i, kept);
        if conn.id in healthy {
          ValuesSnoc(kept, conn);
          kept, keptAll := kept + [conn], keptAll + [all[i]];
        } else {
          Discard(conn, keptAll);
        }
      }
      assert all[..|conns|] == all;
      conns := kept;
    }

    method RefillConns(dials: seq<Option<ConnId>>, now: int)
      requires Valid()
      modifies this
      ensures Valid() && forall c :: c in conns ==> c in old(conns) || fresh(c)
      ensures Abs() == Refill(old(Abs()), dials, now)
    {
      var rest := dials;
      while current < minSize
        invariant Valid() && forall c :: c in conns ==> c in old(conns) || fresh(c)
        invariant Refill(Abs(), rest, now) == Refill(old(Abs()), dials, now)
        decreases |rest|
      {
        if rest == [] || rest[0].None? {
          break;
        }
        AddNew(rest[0].value, now);
        stats := stats.(idle := stats.idle + 1);
        rest := rest[1..];
      }
    }
  }

  /** Builds the pool; on a failed dial everything dialled is shut and there is no pool. */
  method NewConnPool(config: PoolConfig, dials: seq<Option<ConnId>>, now: int)
    returns (pool: ConnPool, ok: bool)
    ensures fresh(pool) && pool.Valid() && (pool.Abs(), ok) == NewPool(config, dials, now)
  {
    pool := new ConnPool(config);
    ghost var p := EmptyPool(config);
    for i := 0 to pool.minSize
      invariant pool.Valid() && pool.minSize == p.minSize
      invariant Populate(p, i, dials, now) == (pool.Abs(), true)
    {
      if i >= |dials| || dials[i].None? {
        PopulateFailed(p, i + 1, pool.minSize, dials, now);
        assert Populate(p, p.minSize, dials, now) == (pool.Abs(), false);
        pool.Close();
        return pool, false;
      }
      pool.AddNew(dials[i].value, now);
    }
    ok := true;
  }

  lemma {:induction false} PopulateFailed(p: Pool, m: nat, n: nat, dials: seq<Option<ConnId>>, now: int)
    requires m <= n && !Populate(p, m, dials, now).1
    ensures Populate(p, n, dials, now) == Populate(p, m, dials, now)
  {
    if m < n {
      PopulateFailed(p, m, n - 1, dials, now);
    }
  }

  /** The wrapper handed to clients: closing it returns the connection, once. */
  class PooledClientConn {
    const id: ConnId
    const pool: ConnPool
    var closed: bool

    constructor (id: ConnId, pool: ConnPool)
      ensures this.id == id && this.pool == pool && !closed
    {
      this.id := id;
      this.pool := pool;
      closed := false;
    }

    method Close(now: int)
      requires pool.Valid()
      modifies this, pool, pool.conns
      ensures pool.Valid() && closed && pool.conns == old(pool.conns)
      ensures pool.Abs() == if old(closed) then old(pool.Abs()) else PutBack(old(pool.Abs()), id, now)
    {
      if !closed {
        pool.Put(id, now);
        closed := true;
      }
    }
  }

  /** `None` is the error return; the pool says which error it was. */
  method GetPooled(pool: ConnPool, healthy: set<ConnId>, dial: Option<ConnId>, now: int)
    returns (r: GetResult, wrapper: Option<PooledClientConn>)
    requires pool.Valid()
    modifies pool, pool.conns
    ensures pool.Valid() && (pool.Abs(), r) == GetFrom(old(pool.Abs()), healthy, dial, now)
    ensures wrapper.Some? <==> r.Got?
    ensures r.Got? ==> fresh(wrapper.value) && wrapper.value.id == r.id && wrapper.value.pool == pool
                       && !wrapper.value.closed
  {
    r := pool.Get(healthy, dial, now);
    wrapper := None;
    if r.Got? {
      var w := new PooledClientConn(r.id, pool);
      wrapper := Some(w);
    }
  }
}
