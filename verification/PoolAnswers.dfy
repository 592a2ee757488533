/**
 What every operation of the connection pool answers and does, field by field, for
 all pools and inputs (client/pool.go:62-304). Only `inUse`, `healthy` and the dial
 outcomes are used to say it.
 */
module PoolAnswers {
  import opened Options
  import opened ConnPooling
  import opened PoolProtocol
  import opened PoolTheorems

  /** The lowest-indexed connection that is idle and healthy. */
  predicate FirstIdleHealthy(conns: seq<Conn>, healthy: set<ConnId>, i: nat) {
    && i < |conns| && !conns[i].inUse && conns[i].id in healthy
    && forall j :: 0 <= j < i ==> conns[j].inUse || conns[j].id !in healthy
  }

  /** Handing out the connection at `i`: it is stamped and counted, the others stay. */
  ghost predicate HandsOut(p: Pool, q: Pool, i: nat, now: int)
    requires i < |p.conns|
  {
    var c := p.conns[i];
    q == p.(conns := p.conns[i := Conn(c.id, c.created, now, c.useCount + 1, true)],
            stats := PoolStats(p.stats.total, p.stats.active + 1, p.stats.idle - 1, p.stats.requests + 1, p.stats.errors))
  }

  /** Handing out a connection just dialled. */
  ghost predicate HandsOutNew(p: Pool, q: Pool, id: ConnId, now: int) {
    q == p.(conns := p.conns + [Conn(id, now, now, 1, true)], current := p.current + 1, dialled := p.dialled + {id},
            stats := PoolStats(p.stats.total, p.stats.active + 1, p.stats.idle, p.stats.requests + 1, p.stats.errors))
  }

  /**
   A closed pool refuses. An open one leases the lowest-indexed idle healthy
   connection; only when every pooled connection is in use or unhealthy does it dial,
   within the limit; the error says whether the dial failed or the limit was reached.
   */
  lemma GetAnswers(p: Pool, healthy: set<ConnId>, dial: Option<ConnId>, now: int)
    ensures var (q, r) := GetFrom(p, healthy, dial, now);
            if p.closed then r == ErrPoolClosed && q == p
            else if exists c :: c in p.conns && !c.inUse && c.id in healthy then
              exists i: nat :: FirstIdleHealthy(p.conns, healthy, i) && r == Got(p.conns[i].id) && HandsOut(p, q, i, now)
            else if p.current < p.maxSize && dial.Some? then
              r == Got(dial.value) && HandsOutNew(p, q, dial.value, now)
            else
              && r == (if p.current < p.maxSize then ErrDial else ErrNoConn)
              && q == p.(stats := PoolStats(p.stats.total, p.stats.active, p.stats.idle,
                                            p.stats.requests + 1, p.stats.errors + 1))
    ensures PoolInv(p) && GetFrom(p, healthy, dial, now).1 == ErrNoConn ==> p.current == p.maxSize
  {
    var i := FirstUsable(p.conns, healthy);
    if !p.closed {
      if i < |p.conns| {
        assert p.conns[i] in p.conns && FirstIdleHealthy(p.conns, healthy, i);
        assert HandsOut(p, GetFrom(p, healthy, dial, now).0, i, now);
      }
    }
  }

  /** The first pooled connection with this id. */
  predicate FirstOf(conns: seq<Conn>, id: ConnId, i: nat) {
    i < |conns| && conns[i].id == id && forall j :: 0 <= j < i ==> conns[j].id != id
  }

  /** Giving back: the first connection with the id becomes idle when it was in use, and nothing else changes. */
  lemma PutAnswers(p: Pool, id: ConnId, now: int)
    ensures var q := PutBack(p, id, now);
            if p.closed || (forall c :: c in p.conns ==> c.id != id) then q == p
            else
              exists i: nat :: FirstOf(p.conns, id, i)
                && var c := p.conns[i];
                   q == if !c.inUse then p
                        else p.(conns := p.conns[i := Conn(id, c.created, now, c.useCount, false)],
                                stats := PoolStats(p.stats.total, p.stats.active - 1, p.stats.idle + 1,
                                                   p.stats.requests, p.stats.errors))
  {
    var i := FirstWithId(p.conns, id);
    if i < |p.conns| {
      assert FirstOf(p.conns, id, i) && p.conns[i] in p.conns;
    }
  }

  lemma {:induction false} IdsMembers(conns: seq<Conn>)
    ensures Ids(conns) == set c | c in conns :: c.id
  {
    if conns != [] {
      var front, last := conns[..|conns| - 1], conns[|conns| - 1];
      IdsMembers(front);
      assert forall c :: c in conns <==> c in front || c == last;
    }
  }

  /** Closing shuts every pooled connection and empties the pool; the counters stay. */
  lemma CloseAnswers(p: Pool)
    ensures ClosePool(p)
            == if p.closed then p
               else p.(closed := true, conns := [], current := 0, shut := p.shut + set c | c in p.conns :: c.id)
  {
    IdsMembers(p.conns);
  }

  /** The connections kept by a health check: those of any two parts, and a single one when it is healthy. */
  lemma {:induction false} HealthyParts(a: seq<Conn>, b: seq<Conn>, healthy: set<ConnId>)
    ensures Healthy(a + b, healthy) == Healthy(a, healthy) + Healthy(b, healthy)
    ensures |b| == 1 ==> Healthy(b, healthy) == if b[0].id in healthy then b else []
  {
    if b == [] {
      assert a + b == a;
    } else {
      HealthyParts(a, b[..|b| - 1], healthy);
      assert (a + b)[..|a + b| - 1] == a + b[..|b| - 1];
    }
  }

  /** The ids of the first dial outcomes. */
  function FirstDials(dials: seq<Option<ConnId>>, k: nat): set<ConnId>
    requires k <= |dials| && forall i :: 0 <= i < k ==> dials[i].Some?
  {
    set i | 0 <= i < k :: dials[i].value
  }

  lemma NewIds(dials: seq<Option<ConnId>>, k: nat, now: int)
    requires k <= |dials| && forall i :: 0 <= i < k ==> dials[i].Some?
    ensures Ids(NewConns(dials, k, now)) == FirstDials(dials, k)
  {
    var cs := NewConns(dials, k, now);
    IdsMembers(cs);
    forall x | x in FirstDials(dials, k)
      ensures x in Ids(cs)
    {
      var i :| 0 <= i < k && dials[i].value == x;
      assert cs[i] in cs && cs[i].id == x;
    }
  }

  function UnhealthyIdle(conns: seq<Conn>, healthy: set<ConnId>): set<ConnId> {
    set c | c in conns && !c.inUse && c.id !in healthy :: c.id
  }

  function UnhealthyLeased(conns: seq<Conn>, healthy: set<ConnId>): set<ConnId> {
    set c | c in conns && c.inUse && c.id !in healthy :: c.id
  }

  /**
   A health check of an open pool: the healthy connections stay, in order; the idle
   unhealthy ones are shut and uncounted, the leased ones only forgotten; then `k`
   fresh idle connections are added, and fewer than missing only after a failed dial.
   */
  lemma CheckAnswers(p: Pool, healthy: set<ConnId>, dials: seq<Option<ConnId>>, now: int) returns (k: nat)
    requires PoolInv(p) && !p.closed
    ensures k <= |dials| && forall i :: 0 <= i < k ==> dials[i].Some?
    ensures var q, kept := HealthRound(p, healthy, dials, now), Healthy(p.conns, healthy);
            var gone, lost := UnhealthyIdle(p.conns, healthy), UnhealthyLeased(p.conns, healthy);
            && |q.conns| == |kept| + k && q.conns[..|kept|] == kept
            && (forall i :: 0 <= i < k ==> q.conns[|kept| + i] == Conn(dials[i].value, now, now, 0, false))
            && q == p.(conns := q.conns, current := p.current - |gone| + k, dialled := p.dialled + FirstDials(dials, k),
                       shut := p.shut + gone, dropped := p.dropped + lost,
                       stats := p.stats.(idle := p.stats.idle - |gone| + k))
            && (q.current >= q.minSize || k == |dials| || dials[k].None?)
            && (k > 0 ==> q.current <= q.minSize)
  {
    hide PoolInv, Sweep, Refill, Healthy, UnhealthyIdle, UnhealthyLeased, Added, FirstDials;
    SweepAnswers(p, healthy);
    var swept := Sweep(p, p.conns, healthy);
    k := RefillOutcome(swept, dials, now);
    assert HealthRound(p, healthy, dials, now) == Added(swept, dials, k, now);
    AddedAnswers(swept, dials, k, now);
  }

  lemma SweepAnswers(p: Pool, healthy: set<ConnId>)
    requires PoolInv(p)
    ensures Sweep(p, p.conns, healthy)
            == SweptTo(p, Healthy(p.conns, healthy), UnhealthyIdle(p.conns, healthy), UnhealthyLeased(p.conns, healthy))
  {
    SweepOutcome(p, p.conns, healthy);
    UnhealthyAre(p.conns, healthy);
    hide *;
  }

  lemma UnhealthyAre(conns: seq<Conn>, healthy: set<ConnId>)
    ensures Unhealthy(conns, healthy, false) == UnhealthyIdle(conns, healthy)
    ensures Unhealthy(conns, healthy, true) == UnhealthyLeased(conns, healthy)
  {
    UnhealthyMembers(conns, healthy, false);
    UnhealthyMembers(conns, healthy, true);
    hide Unhealthy;
  }

  lemma AddedAnswers(p: Pool, dials: seq<Option<ConnId>>, k: nat, now: int)
    requires k <= |dials| && forall i :: 0 <= i < k ==> dials[i].Some?
    ensures var q := Added(p, dials, k, now);
            && |q.conns| == |p.conns| + k && q.conns[..|p.conns|] == p.conns
            && (forall i :: 0 <= i < k ==> q.conns[|p.conns| + i] == Conn(dials[i].value, now, now, 0, false))
            && q == p.(conns := q.conns, current := p.current + k, dialled := p.dialled + FirstDials(dials, k),
                       stats := p.stats.(idle := p.stats.idle + k))
  {
    NewIds(dials, k, now);
    hide Ids;
  }

  lemma NewConnsSnoc(dials: seq<Option<ConnId>>, k: nat, now: int)
    requires k < |dials| && forall i :: 0 <= i <= k ==> dials[i].Some?
    ensures NewConns(dials, k + 1, now) == NewConns(dials, k, now) + [NewConn(dials[k].value, now)]
  {
  }

  /** The pool once `m` of `n` wanted connections have been dialled. */
  ghost predicate Populated(p: Pool, q: Pool, ok: bool, m: nat, n: nat, dials: seq<Option<ConnId>>, now: int) {
    && m <= n && m <= |dials| && (forall i :: 0 <= i < m ==> dials[i].Some?)
    && (ok <==> m == n) && (!ok ==> m == |dials| || dials[m].None?)
    && q == p.(conns := NewConns(dials, m, now), current := p.current + m, dialled := Ids(NewConns(dials, m, now)))
  }

  lemma PopulateNone(p: Pool, dials: seq<Option<ConnId>>, now: int)
    requires p.conns == [] && p.dialled == {}
    ensures Populated(p, p, true, 0, 0, dials, now)
  {
  }

  lemma PopulateOne(p: Pool, q: Pool, m: nat, n: nat, dials: seq<Option<ConnId>>, now: int)
    requires Populated(p, q, true, m, n, dials, now) && n < |dials| && dials[n].Some?
    ensures var id := dials[n].value;
            Populated(p, q.(conns := q.conns + [NewConn(id, now)], current := q.current + 1, dialled := q.dialled + {id}),
                      true, m + 1, n + 1, dials, now)
  {
    assert m == n;
    CountSnoc(q.conns, NewConn(dials[n].value, now));
    NewConnsSnoc(dials, n, now);
    hide Ids, NewConns, NewConn;
  }

  lemma PopulateNoMore(p: Pool, q: Pool, ok: bool, m: nat, n: nat, dials: seq<Option<ConnId>>, now: int)
    requires Populated(p, q, ok, m, n, dials, now) && (!ok || n >= |dials| || dials[n].None?)
    ensures Populated(p, q, false, m, n + 1, dials, now)
  {
    hide Ids, NewConns;
  }

  lemma {:induction false} PopulateExact(p: Pool, n: nat, dials: seq<Option<ConnId>>, now: int) returns (m: nat)
    requires p.conns == [] && p.dialled == {}
    ensures var (q, ok) := Populate(p, n, dials, now); Populated(p, q, ok, m, n, dials, now)
  {
    if n == 0 {
      PopulateNone(p, dials, now);
      m := 0;
    } else {
      hide Populated, NewConn;
      m := PopulateExact(p, n - 1, dials, now);
      var (q, ok) := Populate(p, n - 1, dials, now);
      if ok && n <= |dials| && dials[n - 1].Some? {
        PopulateOne(p, q, m, n - 1, dials, now);
        m := m + 1;
      } else {
        PopulateNoMore(p, q, ok, m, n - 1, dials, now);
      }
    }
  }

  /** The limits that a configuration asks for. */
  function MaxSize(config: PoolConfig): (n: nat) {
    if config.maxSize > 0 then config.maxSize else 10
  }

  function MinSize(config: PoolConfig): (n: nat)
    ensures n <= MaxSize(config)
  {
    var asked := if config.minSize >= 0 then config.minSize else 1;
    if asked < MaxSize(config) then asked else MaxSize(config)
  }

  /**
   A new pool: one fresh idle connection for each of the first `MinSize` dials, and
   all counters zero; when one of those dials fails, there is no pool and exactly the
   connections dialled before it are shut.
   */
  lemma NewPoolAnswers(config: PoolConfig, dials: seq<Option<ConnId>>, now: int) returns (m: nat)
    ensures m <= MinSize(config) && m <= |dials| && forall i :: 0 <= i < m ==> dials[i].Some?
    ensures m == MinSize(config) || m == |dials| || dials[m].None?
    ensures var (p, ok) := NewPool(config, dials, now);
            && ok == (m == MinSize(config)) == !p.closed
            && p.maxSize == MaxSize(config) && p.minSize == MinSize(config)
            && p.stats == PoolStats(0, 0, 0, 0, 0) && p.dropped == {} && p.dialled == FirstDials(dials, m)
            && (ok ==> p.shut == {} && p.current == m == |p.conns|
                       && forall i :: 0 <= i < m ==> p.conns[i] == Conn(dials[i].value, now, now, 0, false))
            && (!ok ==> p.shut == FirstDials(dials, m) && p.conns == [] && p.current == 0)
  {
    var p := EmptyPool(config);
    m := PopulateExact(p, p.minSize, dials, now);
    NewIds(dials, m, now);
    hide Populate, Ids;
  }

  /** A shutdown anywhere in the run closes the pool for good. */
  lemma {:induction false} ShutdownCloses(s: System, steps: seq<Step>)
    ensures Exec(s, steps).pool.closed <==> s.pool.closed || Shutdown in steps
  {
    if steps != [] {
      var front, last := steps[..|steps| - 1], steps[|steps| - 1];
      ShutdownCloses(s, front);
      OnlyShutdownCloses(Exec(s, front), last);
      hide Next;
    }
  }

  lemma OnlyShutdownCloses(s: System, step: Step)
    ensures Next(s, step).pool.closed <==> s.pool.closed || step == Shutdown
  {
    match step
    case GetPooled(_, healthy, dial, now) => GetShape(s.pool, healthy, dial, now); hide GetFrom;
    case Check(healthy, dials, now) =>
      if !s.pool.closed {
        SweepOpen(s.pool, s.pool.conns, healthy);
        var k := RefillOutcome(Sweep(s.pool, s.pool.conns, healthy), dials, now);
      }
      hide Sweep, Refill;
    case _ =>
  }

  lemma {:induction false} SweepOpen(p: Pool, conns: seq<Conn>, healthy: set<ConnId>)
    ensures Sweep(p, conns, healthy).closed == p.closed
  {
    if conns != [] {
      SweepOpen(p, conns[..|conns| - 1], healthy);
    }
  }

  lemma NextLimits(s: System, step: Step)
    requires PoolInv(s.pool)
    ensures Next(s, step).pool.maxSize == s.pool.maxSize && Next(s, step).pool.minSize == s.pool.minSize
  {
    hide PoolInv, HealthRound, GetFrom;
    match step
    case GetPooled(_, healthy, dial, now) => GetShape(s.pool, healthy, dial, now);
    case Check(healthy, dials, now) => CheckLimits(s.pool, healthy, dials, now);
    case _ =>
  }

  lemma CheckLimits(p: Pool, healthy: set<ConnId>, dials: seq<Option<ConnId>>, now: int)
    requires PoolInv(p)
    ensures var q := HealthRound(p, healthy, dials, now); q.maxSize == p.maxSize && q.minSize == p.minSize
  {
    if !p.closed {
      var k := HealthRoundOutcome(p, healthy, dials, now);
      hide HealthRound, PoolInv;
    }
  }

  /** In every run the limits stay the configured ones, and an open pool never has more leases outstanding. */
  lemma {:induction false} LimitsKept(config: PoolConfig, dials: seq<Option<ConnId>>, now: int, steps: seq<Step>)
    requires FreshDials(dials, {})
    ensures var s := Exec(Init(config, dials, now), steps);
            && s.pool.maxSize == MaxSize(config) && s.pool.minSize == MinSize(config)
            && (!s.pool.closed ==> |LiveWrappers(s.wrappers)| <= s.pool.current <= MaxSize(config))
  {
    if steps == [] {
      var m := NewPoolAnswers(config, dials, now);
    } else {
      var front := Exec(Init(config, dials, now), steps[..|steps| - 1]);
      LimitsKept(config, dials, now, steps[..|steps| - 1]);
      ReachableInv(config, dials, now, steps[..|steps| - 1]);
      NextLimits(front, steps[|steps| - 1]);
    }
    LeasesExclusive(config, dials, now, steps);
    hide Next, NewPool, PoolInv, LeaseInv;
  }
}
